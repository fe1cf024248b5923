/** connection.go: the chain of timers that closes an idle connection, as a machine over a clock in nanoseconds.
    The callback runs in a goroutine of the timing wheel and is interleaved with events and with the close in the loop. */
module IdleTimer {
  const SECOND := 1_000_000_000

  /** `time.Now().Unix()`, back in nanoseconds. */
  function Floor(t: nat): (r: nat)
    ensures r <= t < r + SECOND
  {
    t / SECOND * SECOND
  }

  /** Where the chain is. `aim` is the instant a timer was set for, and `delay` how long after the reading of the clock it
      was set; `now` is the clock and `base` the active time that the callback has read; `seen` the last activity then. */
  datatype Chain =
    | Armed(id: nat, aim: nat, delay: nat)
    | Woken(aim: nat, delay: nat)             // the callback has started
    | ReadClock(now: nat, aim: nat, delay: nat)
    | TooEarly(now: nat, base: nat)           // before `connected` is looked at
    | Arming(now: nat, base: nat)             // before `AfterFunc`
    | Idle(now: nat, seen: nat, aim: nat, delay: nat)   // before `Close` looks at `connected`
    | Ended

  /** A close requested by the chain, and the timer that led to it. */
  datatype Request = Request(now: nat, seen: nat, aim: nat, delay: nat)

  datatype State = State(
    idle: nat,                                // `idleTime`
    slack: nat,                               // how late a timer may be
    clock: nat,
    active: nat,                              // `activeTime`, in nanoseconds
    last: nat,                                // when it was set
    connected: bool,
    stopped: bool,                            // `handleClose` has reached `Stop`
    chain: Chain,
    timers: nat,                              // timers made so far
    stored: int,                              // the timer in `c.timer`, or -1
    unstored: set<nat>,                       // made, and not yet stored
    requests: seq<Request>,
    firesAfterClose: nat)

  /** `NewConnection` reads the clock at time t and sets the first timer `delay` later. */
  function New(idle: nat, slack: nat, t: nat, delay: nat): State
  {
    State(idle, slack, t + delay, Floor(t), t, true, false, Armed(0, t + delay + idle, delay), 1, -1, {0}, [], 0)
  }

  datatype Step =
    | Tick(span: nat)
    | Event                                   // `HandleEvent`
    | Fire
    | LookAtClock
    | LookAtActive
    | LookAtConnected
    | Rearm
    | Store(id: nat)
    | RequestClose
    | Close                                   // `handleClose` clears `connected`
    | Stop                                    // `handleClose` stops the timer it finds

  /** A timer has its callback read the clock at most `slack` after the instant it was set for; it may be early. A callback
      that has read the clock may take any time. */
  predicate InTime(s: State, clock: nat)
  {
    (s.chain.Armed? || s.chain.Woken?) ==> clock <= s.chain.aim + s.slack
  }

  predicate Enabled(s: State, x: Step)
  {
    match x
    case Tick(span) => InTime(s, s.clock + span)
    case Event => s.connected
    case Fire => s.chain.Armed?
    case LookAtClock => s.chain.Woken?
    case LookAtActive => s.chain.ReadClock?
    case LookAtConnected => s.chain.TooEarly?
    case Rearm => s.chain.Arming? && s.chain.now - s.chain.base < s.idle && s.chain.now <= s.clock   // true of all Arming
    case Store(id) => id in s.unstored
    case RequestClose => s.chain.Idle?
    case Close => s.connected
    case Stop => !s.connected && !s.stopped
  }

  function Apply(s: State, x: Step): State
    requires Enabled(s, x)
  {
    match x
    case Tick(span) => s.(clock := s.clock + span)
    case Event => s.(active := Floor(s.clock), last := s.clock)
    case Fire =>
      s.(chain := Woken(s.chain.aim, s.chain.delay), firesAfterClose := s.firesAfterClose + if s.connected then 0 else 1)
    case LookAtClock => s.(chain := ReadClock(s.clock, s.chain.aim, s.chain.delay))
    case LookAtActive =>
      var intervals := s.chain.now - s.active;
      s.(chain := if intervals >= s.idle then Idle(s.chain.now, s.last, s.chain.aim, s.chain.delay)
                  else TooEarly(s.chain.now, s.active))
    case LookAtConnected => s.(chain := if s.connected then Arming(s.chain.now, s.chain.base) else Ended)
    case Rearm =>
      // AfterFunc counts from its own call
      var intervals := s.chain.now - s.chain.base;
      s.(chain := Armed(s.timers, s.clock + (s.idle - intervals), s.clock - s.chain.now),
         timers := s.timers + 1, unstored := s.unstored + {s.timers})
    case Store(id) => s.(stored := id, unstored := s.unstored - {id})
    case RequestClose =>
      s.(chain := Ended,
         requests := if s.connected then s.requests + [Request(s.chain.now, s.chain.seen, s.chain.aim, s.chain.delay)]
                     else s.requests)
    case Close => s.(connected := false)
    case Stop => s.(stopped := true, chain := if s.chain.Armed? && s.chain.id == s.stored then Ended else s.chain)
  }

  ghost predicate IsRun(s: State, steps: seq<Step>)
    decreases |steps|
  {
    steps == [] || (Enabled(s, steps[0]) && IsRun(Apply(s, steps[0]), steps[1..]))
  }

  ghost function Final(s: State, steps: seq<Step>): State
    requires IsRun(s, steps)
    decreases |steps|
  {
    if steps == [] then s else Final(Apply(s, steps[0]), steps[1..])
  }

  // ---- Invariants ----

  /** A timer is set for at most `idle` after the last activity, and the time it took to set it. */
  predicate AimOk(s: State, aim: nat, delay: nat)
  {
    aim <= s.last + s.idle + delay
  }

  /** A close is decided no sooner than `idle` after the second of the last activity seen, and at most `slack` after the
      instant its timer was set for, which is at most `idle` and the delay of that one timer after that activity. */
  predicate InWindow(s: State, r: Request)
  {
    && Floor(r.seen) + s.idle <= r.now <= r.aim + s.slack && r.aim <= r.seen + s.idle + r.delay
    && r.seen <= s.last
  }

  predicate TimesOk(s: State)
  {
    && s.active == Floor(s.last) && s.last <= s.clock && InTime(s, s.clock)
    && match s.chain {
         case Armed(_, aim, delay) => AimOk(s, aim, delay)
         case Woken(aim, delay) => AimOk(s, aim, delay)
         case ReadClock(now, aim, delay) => now <= s.clock && now <= aim + s.slack && AimOk(s, aim, delay)
         case TooEarly(now, base) => base <= s.last && now <= s.clock && now - base < s.idle
         case Arming(now, base) => base <= s.last && now <= s.clock && now - base < s.idle
         case Idle(now, seen, aim, delay) => InWindow(s, Request(now, seen, aim, delay))
         case Ended => true
       }
    && forall r <- s.requests :: InWindow(s, r)
  }

  /** The chain only ends with a request or with the connection, and after the connection it cannot be renewed. */
  predicate ChainOk(s: State)
  {
    && (s.connected && s.requests == [] ==> !s.chain.Ended?)
    && |s.requests| <= 1 && (s.requests != [] ==> s.chain.Ended?)
    && (s.connected ==> s.firesAfterClose == 0 && !s.stopped)
    && s.firesAfterClose <= 1
    && (s.firesAfterClose == 1 ==> !s.chain.Armed? && !s.chain.Arming?)
  }

  predicate Inv(s: State) { TimesOk(s) && ChainOk(s) }

  lemma TimesStep(s: State, x: Step)
    requires TimesOk(s) && Enabled(s, x)
    ensures TimesOk(Apply(s, x))
  {
    var t := Apply(s, x);
    forall r | r in t.requests
      ensures InWindow(t, r)
    {
      assert r in s.requests || r == Request(s.chain.now, s.chain.seen, s.chain.aim, s.chain.delay);
    }
  }

  lemma ChainStep(s: State, x: Step)
    requires ChainOk(s) && Enabled(s, x)
    ensures ChainOk(Apply(s, x))
  {}

  lemma {:induction false} InvRun(s: State, steps: seq<Step>)
    requires Inv(s) && IsRun(s, steps)
    ensures Inv(Final(s, steps)) && Final(s, steps).idle == s.idle && Final(s, steps).slack == s.slack
    decreases |steps|
  {
    if steps != [] {
      TimesStep(s, steps[0]);
      ChainStep(s, steps[0]);
      InvRun(Apply(s, steps[0]), steps[1..]);
    }
  }

  /** The state at the end of a run of a connection made at time t. */
  ghost predicate Reached(s: State, idle: nat, slack: nat, t: nat, delay: nat, steps: seq<Step>)
  {
    IsRun(New(idle, slack, t, delay), steps) && s == Final(New(idle, slack, t, delay), steps)
  }

  // ---- Theorems ----

  /** The idle close window: whatever happened in between and however often the timer was set again, the chain requests at
      most one close, and it is decided within [floor(A) + idle, A + idle + slack + delay] of the last activity A it saw,
      where delay is the time the last timer took to be set after its clock reading. Neither the lateness nor the delay of
      earlier timers counts, because every timer is set from the activity and not from the timer before it. */
  lemma CloseWindow(s: State, idle: nat, slack: nat, t: nat, delay: nat, steps: seq<Step>)
    requires Reached(s, idle, slack, t, delay, steps)
    ensures |s.requests| <= 1
    ensures forall r <- s.requests ::
              Floor(r.seen) + idle <= r.now <= r.seen + idle + slack + r.delay && r.seen <= s.last
    ensures s.chain.Armed? ==> s.chain.aim <= s.last + idle + s.chain.delay
  {
    InvRun(New(idle, slack, t, delay), steps);
  }

  /** No idle connection is forgotten: while it is connected and no close has been requested, the chain goes on; and a timer
      that is set has its callback read the clock before A + idle + slack + delay is over. */
  lemma IdleIsNoticed(s: State, idle: nat, slack: nat, t: nat, delay: nat, steps: seq<Step>)
    requires Reached(s, idle, slack, t, delay, steps) && s.connected && s.requests == []
    ensures !s.chain.Ended?
    ensures s.chain.Armed? || s.chain.Woken? ==> s.clock <= s.last + idle + slack + s.chain.delay
  {
    InvRun(New(idle, slack, t, delay), steps);
  }

  // ---- When the delay does not matter ----

  /** A request decided within A + idle + slack of the last activity A it saw. */
  predicate Prompt(s: State, r: Request) { r.now <= r.seen + s.idle + s.slack }

  /** The run goes on from a timer set for `aim` when the last activity was at `last`, and sets no other. */
  predicate SameTimer(s: State, aim: nat, last: nat)
  {
    && s.last >= last
    && match s.chain {
         case Armed(_, a, _) => a == aim
         case Woken(a, _) => a == aim
         case ReadClock(now, a, _) => a == aim && now <= aim + s.slack
         case Idle(now, seen, a, _) => a == aim && now <= aim + s.slack && last <= seen
         case _ => true
       }
    && forall r <- s.requests :: r.aim == aim && r.now <= aim + s.slack && last <= r.seen
  }

  lemma SameTimerStep(s: State, x: Step, aim: nat, last: nat)
    requires Inv(s) && Enabled(s, x) && SameTimer(s, aim, last) && x != Rearm
    ensures SameTimer(Apply(s, x), aim, last)
  {
    var t := Apply(s, x);
    forall r | r in t.requests
      ensures r.aim == aim && r.now <= aim + t.slack && last <= r.seen
    {
      assert r in s.requests || r == Request(s.chain.now, s.chain.seen, s.chain.aim, s.chain.delay);
    }
  }

  lemma {:induction false} SameTimerRun(s: State, steps: seq<Step>, aim: nat, last: nat)
    requires Inv(s) && IsRun(s, steps) && SameTimer(s, aim, last) && Rearm !in steps
    ensures SameTimer(Final(s, steps), aim, last)
    decreases |steps|
  {
    if steps != [] {
      assert steps[0] in steps;
      SameTimerStep(s, steps[0], aim, last);
      TimesStep(s, steps[0]);
      ChainStep(s, steps[0]);
      SameTimerRun(Apply(s, steps[0]), steps[1..], aim, last);
    }
  }

  /** The latest decision a timer allows: as late as it may be, with no activity any more. */
  function Latest(s: State): seq<Step>
    requires s.chain.Armed? && s.clock <= s.chain.aim + s.slack
  {
    [Tick(s.chain.aim + s.slack - s.clock), Fire, LookAtClock, LookAtActive, RequestClose]
  }

  lemma Cons(s: State, x: Step, steps: seq<Step>)
    requires Enabled(s, x) && IsRun(Apply(s, x), steps)
    ensures IsRun(s, [x] + steps) && Final(s, [x] + steps) == Final(Apply(s, x), steps)
  {
    assert ([x] + steps)[1..] == steps;
  }

  lemma {:induction false} Join(s: State, a: seq<Step>, b: seq<Step>)
    requires IsRun(s, a) && IsRun(Final(s, a), b)
    ensures IsRun(s, a + b) && Final(s, a + b) == Final(Final(s, a), b)
    decreases |a|
  {
    if a == [] {
      assert a + b == b;
    } else {
      assert (a + b)[1..] == a[1..] + b;
      Join(Apply(s, a[0]), a[1..], b);
    }
  }

  lemma FireAndLook(s: State)
    requires s.chain.Armed?
    ensures IsRun(s, [Fire, LookAtClock])
    ensures var t := Final(s, [Fire, LookAtClock]);
            t == s.(chain := ReadClock(s.clock, s.chain.aim, s.chain.delay), firesAfterClose := t.firesAfterClose)
  {
    var s1 := Apply(s, Fire);
    Cons(s1, LookAtClock, []);
    Cons(s, Fire, [LookAtClock]);
    assert [Fire] + [LookAtClock] == [Fire, LookAtClock];
  }

  lemma DecideAndRequest(s: State)
    requires s.chain.ReadClock? && s.connected && s.chain.now - s.active >= s.idle
    ensures IsRun(s, [LookAtActive, RequestClose])
    ensures Final(s, [LookAtActive, RequestClose])
            == s.(chain := Ended, requests := s.requests + [Request(s.chain.now, s.last, s.chain.aim, s.chain.delay)])
  {
    var s1 := Apply(s, LookAtActive);
    Cons(s1, RequestClose, []);
    Cons(s, LookAtActive, [RequestClose]);
    assert [LookAtActive] + [RequestClose] == [LookAtActive, RequestClose];
  }

  lemma LatestRun(s: State)
    requires Inv(s) && s.chain.Armed? && s.connected && s.requests == [] && s.chain.aim > s.last + s.idle
    ensures IsRun(s, Latest(s)) && Final(s, Latest(s)).idle == s.idle && Final(s, Latest(s)).slack == s.slack
    ensures Final(s, Latest(s)).requests == [Request(s.chain.aim + s.slack, s.last, s.chain.aim, s.chain.delay)]
  {
    var x := Tick(s.chain.aim + s.slack - s.clock);
    var s1 := Apply(s, x);
    FireAndLook(s1);
    DecideAndRequest(Final(s1, [Fire, LookAtClock]));
    Join(s1, [Fire, LookAtClock], [LookAtActive, RequestClose]);
    Cons(s, x, [Fire, LookAtClock] + [LookAtActive, RequestClose]);
    assert Latest(s) == [x] + ([Fire, LookAtClock] + [LookAtActive, RequestClose]);
  }

  /** Exactly when A + idle + slack holds: everything a timer can still lead to is decided within that bound if and only if
      the instant it was set for is within `idle` of the last activity. */
  lemma PromptExactly(s: State, idle: nat, slack: nat, t: nat, delay: nat, past: seq<Step>)
    requires Reached(s, idle, slack, t, delay, past) && s.chain.Armed? && s.connected && s.requests == []
    ensures (forall steps :: IsRun(s, steps) && Rearm !in steps ==> forall r <- Final(s, steps).requests :: Prompt(Final(s, steps), r))
            <==> s.chain.aim <= s.last + idle
  {
    InvRun(New(idle, slack, t, delay), past);
    if s.chain.aim <= s.last + idle {
      forall steps | IsRun(s, steps) && Rearm !in steps
        ensures forall r <- Final(s, steps).requests :: Prompt(Final(s, steps), r)
      {
        SameTimerRun(s, steps, s.chain.aim, s.last);
        InvRun(s, steps);
      }
    } else {
      LatestRun(s);
      var r := Request(s.chain.aim + s.slack, s.last, s.chain.aim, s.chain.delay);
      assert r in Final(s, Latest(s)).requests && !Prompt(Final(s, Latest(s)), r);
      assert Rearm !in Latest(s);
    }
  }

  /** A connection made at time 0 with ten seconds idle is active at nine seconds; its first timer is on time. */
  lemma OnTime() returns (steps: seq<Step>, s: State)
    ensures Reached(s, 10 * SECOND, 0, 0, 0, steps) && s.connected && s.requests == [] && s.timers == 1
    ensures s.chain == ReadClock(10 * SECOND, 10 * SECOND, 0) && s.clock == 10 * SECOND && s.last == 9 * SECOND
    ensures s.idle == 10 * SECOND && s.slack == 0
  {
    var s0 := New(10 * SECOND, 0, 0, 0);
    var s1 := Apply(s0, Tick(9 * SECOND));
    var s2 := Apply(s1, Event);
    var s3 := Apply(s2, Tick(SECOND));
    FireAndLook(s3);
    steps := [Fire, LookAtClock];
    s := Final(s3, steps);
    Cons(s2, Tick(SECOND), steps);
    steps := [Tick(SECOND)] + steps;
    Cons(s1, Event, steps);
    steps := [Event] + steps;
    Cons(s0, Tick(9 * SECOND), steps);
    steps := [Tick(9 * SECOND)] + steps;
  }

  /** Its callback takes three seconds to set the next timer. */
  lemma SetLate(s: State) returns (steps: seq<Step>, t: State)
    requires s.connected && s.requests == [] && s.timers == 1 && s.idle == 10 * SECOND && s.slack == 0
    requires s.chain == ReadClock(10 * SECOND, 10 * SECOND, 0) && s.clock == 10 * SECOND && s.active == s.last == 9 * SECOND
    ensures IsRun(s, steps) && t == Final(s, steps) && t.connected && t.requests == [] && t.last == 9 * SECOND
    ensures t.chain == Armed(1, 22 * SECOND, 3 * SECOND) && t.idle == 10 * SECOND && t.slack == 0
  {
    var s1 := Apply(s, LookAtActive);
    var s2 := Apply(s1, LookAtConnected);
    var s3 := Apply(s2, Tick(3 * SECOND));
    t := Apply(s3, Rearm);
    Cons(s3, Rearm, []);
    Cons(s2, Tick(3 * SECOND), [Rearm]);
    Cons(s1, LookAtConnected, [Tick(3 * SECOND), Rearm]);
    Cons(s, LookAtActive, [LookAtConnected, Tick(3 * SECOND), Rearm]);
    steps := [LookAtActive] + [LookAtConnected, Tick(3 * SECOND), Rearm];
  }

  /** The bound without the delay fails for timers that are never late: ten seconds idle, activity at nine seconds, a
      callback that reads the clock at ten and sets the next timer at thirteen. The close is decided at 22 seconds. */
  lemma DelayShows() returns (steps: seq<Step>, s: State)
    ensures Reached(s, 10 * SECOND, 0, 0, 0, steps)
    ensures s.requests == [Request(22 * SECOND, 9 * SECOND, 22 * SECOND, 3 * SECOND)] && !Prompt(s, s.requests[0])
  {
    var start := New(10 * SECOND, 0, 0, 0);
    var a, u := OnTime();
    InvRun(start, a);
    var b, v := SetLate(u);
    Join(start, a, b);
    InvRun(start, a + b);
    LatestRun(v);
    Join(start, a + b, Latest(v));
    steps, s := a + b + Latest(v), Final(v, Latest(v));
  }

  // ---- After the close ----

  /** After the connection has closed, the chain fires at most once more, even if `Stop` found a timer that had fired
      already, and it is then not renewed. */
  lemma OneMoreFire(s: State, idle: nat, slack: nat, t: nat, delay: nat, steps: seq<Step>)
    requires Reached(s, idle, slack, t, delay, steps)
    ensures s.firesAfterClose <= 1 && (s.firesAfterClose == 1 ==> !s.connected && !s.chain.Armed? && !s.chain.Arming?)
  {
    InvRun(New(idle, slack, t, delay), steps);
  }

  /** It does fire once more whenever the connection closes between the callback's look at `connected` and its new timer:
      `Stop` finds a timer that has fired already. */
  lemma FiresAgain(s: State)
    requires Inv(s) && s.connected && s.chain.Arming?
    ensures var steps := [Close, Stop, Rearm, Fire];
            IsRun(s, steps) && Final(s, steps).stopped && Final(s, steps).firesAfterClose == 1
  {
    var s1 := Apply(s, Close);
    var s2 := Apply(s1, Stop);
    var s3 := Apply(s2, Rearm);
    Cons(s3, Fire, []);
    Cons(s2, Rearm, [Fire]);
    Cons(s1, Stop, [Rearm, Fire]);
    Cons(s, Close, [Stop, Rearm, Fire]);
    assert [Close, Stop, Rearm, Fire] == [Close] + [Stop, Rearm, Fire];
  }

  /** Nothing but the passing of time is left of an ended chain. */
  lemma {:induction false} EndedForGood(s: State, steps: seq<Step>)
    requires s.chain.Ended? && IsRun(s, steps)
    ensures var t := Final(s, steps); t.chain.Ended? && t.requests == s.requests && t.firesAfterClose == s.firesAfterClose
    decreases |steps|
  {
    if steps != [] {
      EndedForGood(Apply(s, steps[0]), steps[1..]);
    }
  }

  /** A stored timer is cancelled: if the timer that is set is the one that `handleClose` finds, the chain is over, whatever
      happens next; it neither fires nor requests anything again. */
  lemma StoredIsCancelled(s: State, steps: seq<Step>)
    requires s.connected && s.chain.Armed? && s.chain.id == s.stored && !s.stopped
    requires IsRun(Apply(Apply(s, Close), Stop), steps)
    ensures var t := Final(Apply(Apply(s, Close), Stop), steps);
            t.chain.Ended? && t.requests == s.requests && t.firesAfterClose == s.firesAfterClose
  {
    EndedForGood(Apply(Apply(s, Close), Stop), steps);
  }

  /** `NewConnection` stores the first timer: a connection closed before it fires is left alone. */
  lemma FirstIsCancelled(idle: nat, slack: nat, t: nat, delay: nat)
    ensures var steps := [Store(0), Close, Stop];
            && IsRun(New(idle, slack, t, delay), steps)
            && Final(New(idle, slack, t, delay), steps).chain.Ended?
  {
    var s := New(idle, slack, t, delay);
    var s1 := Apply(s, Store(0));
    var s2 := Apply(s1, Close);
    Cons(s2, Stop, []);
    Cons(s1, Close, [Stop]);
    Cons(s, Store(0), [Close, Stop]);
    assert [Store(0)] + [Close, Stop] == [Store(0), Close, Stop];
  }

  /** No close is requested of a connection that is closed already. */
  lemma {:induction false} ClosedIsNotRequested(s: State, steps: seq<Step>)
    requires !s.connected && IsRun(s, steps)
    ensures !Final(s, steps).connected && Final(s, steps).requests == s.requests
    decreases |steps|
  {
    if steps != [] {
      ClosedIsNotRequested(Apply(s, steps[0]), steps[1..]);
    }
  }

  // ---- The second that is lost ----

  /** Ten seconds idle, activity at 9.9 seconds: the first callback, on time, finds one second of activity too many. */
  lemma TooEarlyByASecond() returns (steps: seq<Step>, s: State)
    ensures Reached(s, 10_000_000_000, 0, 0, 0, steps) && s.connected && s.requests == []
    ensures s.chain == ReadClock(10_000_000_000, 10_000_000_000, 0) && s.clock == 10_000_000_000
    ensures s.last == 9_900_000_000 && s.active == 9_000_000_000 && s.idle == 10_000_000_000 && s.slack == 0
  {
    var s0 := New(10_000_000_000, 0, 0, 0);
    var s1 := Apply(s0, Tick(9_900_000_000));
    var s2 := Apply(s1, Event);
    var s3 := Apply(s2, Tick(100_000_000));
    FireAndLook(s3);
    steps := [Fire, LookAtClock];
    s := Final(s3, steps);
    Cons(s2, Tick(100_000_000), steps);
    steps := [Tick(100_000_000)] + steps;
    Cons(s1, Event, steps);
    steps := [Event] + steps;
    Cons(s0, Tick(9_900_000_000), steps);
    steps := [Tick(9_900_000_000)] + steps;
  }

  /** It sets a timer for nine seconds later. */
  lemma NineMore(s: State) returns (steps: seq<Step>, t: State)
    requires s.connected && s.requests == [] && s.idle == 10_000_000_000 && s.slack == 0 && s.clock == 10_000_000_000
    requires s.chain == ReadClock(10_000_000_000, 10_000_000_000, 0) && s.last == 9_900_000_000 && s.active == 9_000_000_000
    ensures IsRun(s, steps) && t == Final(s, steps) && t.connected && t.requests == [] && t.idle == 10_000_000_000
    ensures t.chain == ReadClock(19_000_000_000, 19_000_000_000, 0) && t.last == 9_900_000_000 && t.active == 9_000_000_000
  {
    var s1 := Apply(s, LookAtActive);
    var s2 := Apply(s1, LookAtConnected);
    var s3 := Apply(s2, Rearm);
    var s4 := Apply(s3, Tick(9_000_000_000));
    FireAndLook(s4);
    steps := [Fire, LookAtClock];
    t := Final(s4, steps);
    Cons(s3, Tick(9_000_000_000), steps);
    steps := [Tick(9_000_000_000)] + steps;
    Cons(s2, Rearm, steps);
    steps := [Rearm] + steps;
    Cons(s1, LookAtConnected, steps);
    steps := [LookAtConnected] + steps;
    Cons(s, LookAtActive, steps);
    steps := [LookAtActive] + steps;
  }

  /** Because `activeTime` is in whole seconds the close can come early: with ten seconds idle and timers that are on time,
      a connection active at 9.9 seconds is closed at 19. The bound floor(A) + idle of `CloseWindow` is met. */
  lemma ClosedEarly() returns (steps: seq<Step>, s: State)
    ensures Reached(s, 10_000_000_000, 0, 0, 0, steps)
    ensures s.requests == [Request(19_000_000_000, 9_900_000_000, 19_000_000_000, 0)]
  {
    var start := New(10_000_000_000, 0, 0, 0);
    var a, u := TooEarlyByASecond();
    var b, v := NineMore(u);
    Join(start, a, b);
    DecideAndRequest(v);
    Join(start, a + b, [LookAtActive, RequestClose]);
    steps, s := a + b + [LookAtActive, RequestClose], Final(v, [LookAtActive, RequestClose]);
  }
}
