/** One event loop and any number of goroutines around it, as a machine of atomic steps.
    Goroutines run `QueueInLoop` (append under the lock, compare-and-swap of `needWake`, eventfd write) and
    `Poller.Close`; the loop goroutine runs `Poll`: collect a batch, dispatch it item by item, and after a batch that
    held the eventfd set `needWake`, swap the two task queues, run the tasks and look at `running`. */
module Reactor {
  import opened Bytes

  /** An entry of the batch `EpollWait` fills: the eventfd, or a descriptor with the socket registered for it then. */
  datatype Item = Wakeup | Io(fd: nat, conn: nat)

  /** Where the loop goroutine is; every value names the statement it executes next. */
  datatype Pc =
    | Starting              // running.Set(true)
    | Waiting               // EpollWait
    | Dispatching(i: nat)   // the i-th item of the batch
    | Arming                // needWake.Set(true)
    | Swapping              // swap of the two queues
    | Running(i: nat)       // the i-th task of taskQueueR
    | Checking              // wake = false; running.Get()
    | Exited                // waitDone is closed

  /** Where a goroutine is inside `QueueInLoop` or `Close`; goroutines not listed are in neither. */
  datatype ThreadPc =
    | Appended              // compare-and-swap of needWake
    | OwesWake              // eventfd write of QueueInLoop
    | SawRunning            // running.Set(false)
    | OwesCloseWake         // eventfd write of Close
    | AwaitsExit            // receive from waitDone

  datatype Loop<T> = Loop(
    taskQueueW: seq<T>,
    taskQueueR: seq<T>,
    needWake: bool,
    eventfd: nat,
    running: bool,
    pc: Pc,
    batch: seq<Item>,
    wake: bool,
    threads: map<nat, ThreadPc>,
    appended: seq<T>,       // every task ever appended, in order
    executed: seq<T>)       // every task ever run, in order

  datatype Step<T> =
    | Append(p: nat, task: T)
    | TryClaim(p: nat)
    | WriteWake(p: nat)
    | CloseBegin(p: nat)
    | CloseClear(p: nat)
    | CloseWake(p: nat)
    | Start
    | Collect(items: seq<Item>)
    | Dispatch
    | EndBatch
    | Arm
    | Swap
    | RunTask
    | EndTasks
    | CheckRunning

  function Init<T>(): Loop<T>
  {
    Loop([], [], true, 0, false, Starting, [], false, map[], [], [])
  }

  predicate At<T>(s: Loop<T>, p: nat, pc: ThreadPc)
  {
    p in s.threads && s.threads[p] == pc
  }

  /** A batch `EpollWait` can return: not empty, the eventfd at most once and only while its counter is non-zero. */
  predicate CanCollect<T>(s: Loop<T>, items: seq<Item>)
  {
    && items != []
    && (Wakeup in items ==> s.eventfd > 0)
    && (forall i, j :: 0 <= i < j < |items| && items[i] == Wakeup ==> items[j] != Wakeup)
  }

  predicate Enabled<T>(s: Loop<T>, step: Step<T>)
  {
    match step
    case Append(p, _) => p !in s.threads
    case TryClaim(p) => At(s, p, Appended)
    case WriteWake(p) => At(s, p, OwesWake)
    case CloseBegin(p) => p !in s.threads
    case CloseClear(p) => At(s, p, SawRunning)
    case CloseWake(p) => At(s, p, OwesCloseWake)
    case Start => s.pc == Starting
    case Collect(items) => s.pc == Waiting && CanCollect(s, items)
    case Dispatch => s.pc.Dispatching? && s.pc.i < |s.batch|
    case EndBatch => s.pc.Dispatching? && s.pc.i == |s.batch|
    case Arm => s.pc == Arming
    case Swap => s.pc == Swapping
    case RunTask => s.pc.Running? && s.pc.i < |s.taskQueueR|
    case EndTasks => s.pc.Running? && s.pc.i == |s.taskQueueR|
    case CheckRunning => s.pc == Checking
  }

  function Apply<T>(s: Loop<T>, step: Step<T>): Loop<T>
    requires Enabled(s, step)
  {
    match step
    case Append(p, task) =>
      s.(taskQueueW := s.taskQueueW + [task], appended := s.appended + [task], threads := s.threads[p := Appended])
    case TryClaim(p) =>
      if s.needWake then s.(needWake := false, threads := s.threads[p := OwesWake])
      else s.(threads := s.threads - {p})
    case WriteWake(p) => s.(eventfd := s.eventfd + 1, threads := s.threads - {p})
    case CloseBegin(p) => if s.running then s.(threads := s.threads[p := SawRunning]) else s
    case CloseClear(p) => s.(running := false, threads := s.threads[p := OwesCloseWake])
    case CloseWake(p) => s.(eventfd := s.eventfd + 1, threads := s.threads[p := AwaitsExit])
    case Start => s.(running := true, pc := Waiting)
    case Collect(items) => s.(batch := items, pc := Dispatching(0))
    case Dispatch =>
      if s.batch[s.pc.i] == Wakeup then s.(eventfd := 0, wake := true, pc := Dispatching(s.pc.i + 1))
      else s.(pc := Dispatching(s.pc.i + 1))
    case EndBatch => s.(pc := if s.wake then Arming else Waiting)
    case Arm => s.(needWake := true, pc := Swapping)
    case Swap => s.(taskQueueW := s.taskQueueR, taskQueueR := s.taskQueueW, pc := Running(0))
    case RunTask => s.(executed := s.executed + [s.taskQueueR[s.pc.i]], pc := Running(s.pc.i + 1))
    case EndTasks => s.(taskQueueR := [], pc := Checking)
    case CheckRunning => s.(wake := false, pc := if s.running then Waiting else Exited)
  }

  /** A finite run: every step is enabled where it is taken. */
  ghost predicate IsRun<T>(s: Loop<T>, steps: seq<Step<T>>)
    decreases |steps|
  {
    steps == [] || (Enabled(s, steps[0]) && IsRun(Apply(s, steps[0]), steps[1..]))
  }

  ghost function Final<T>(s: Loop<T>, steps: seq<Step<T>>): Loop<T>
    requires IsRun(s, steps)
    decreases |steps|
  {
    if steps == [] then s else Final(Apply(s, steps[0]), steps[1..])
  }

  /** Tasks appended and not run yet, in the order they will run. */
  function Pending<T>(s: Loop<T>): seq<T>
  {
    (if s.pc.Running? && s.pc.i <= |s.taskQueueR| then s.taskQueueR[s.pc.i..] else []) + s.taskQueueW
  }

  /** The loop drained the eventfd in this turn and has not yet reached the given statement. */
  predicate BeforeArming<T>(s: Loop<T>) { s.wake && (s.pc.Dispatching? || s.pc == Arming) }

  predicate BeforeSwap<T>(s: Loop<T>) { BeforeArming(s) || s.pc == Swapping }

  ghost predicate Someone<T>(s: Loop<T>, pc: ThreadPc) { exists p :: At(s, p, pc) }

  /** First-in, first-out, exactly once. */
  ghost predicate Fifo<T>(s: Loop<T>)
  {
    && s.appended == s.executed + Pending(s)
    && (s.pc.Running? ==> s.pc.i <= |s.taskQueueR|)
    && (!s.pc.Running? ==> s.taskQueueR == [])
  }

  /** The batch, the `wake` flag and the eventfd agree: an undispatched wakeup still has a non-zero counter behind it. */
  ghost predicate BatchInv<T>(s: Loop<T>)
  {
    && (s.pc.Dispatching? ==>
          && s.pc.i <= |s.batch|
          && (s.wake <==> Wakeup in s.batch[..s.pc.i])
          && (Wakeup in s.batch[s.pc.i..] ==> s.eventfd > 0)
          && (forall i, j :: 0 <= i < j < |s.batch| && s.batch[i] == Wakeup ==> s.batch[j] != Wakeup))
    && (s.pc in {Starting, Waiting, Exited} ==> !s.wake)
    && (s.pc in {Arming, Swapping, Checking} || s.pc.Running? ==> s.wake)
  }

  /** A cleared `needWake` means that a wake is owed, pending or being handled. */
  ghost predicate WakeInv<T>(s: Loop<T>)
  {
    && (!s.needWake ==> Someone(s, OwesWake) || s.eventfd > 0 || BeforeArming(s))
    && (s.taskQueueW != [] ==> Someone(s, Appended) || Someone(s, OwesWake) || s.eventfd > 0 || BeforeSwap(s))
  }

  /** A cleared `running` means that the closer owes its wake, or it is pending, or the loop is about to see it. */
  ghost predicate ShutdownInv<T>(s: Loop<T>)
  {
    && (!s.running && s.pc != Starting ==> Someone(s, OwesCloseWake) || s.eventfd > 0 || s.wake || s.pc == Exited)
    && (s.pc == Starting ==> !s.running && forall p <- s.threads :: s.threads[p] in {Appended, OwesWake})
    && (forall p <- s.threads :: s.threads[p] in {OwesCloseWake, AwaitsExit} ==> !s.running)
    && (s.pc == Exited ==> !s.running)
  }

  ghost predicate Inv<T>(s: Loop<T>)
  {
    Fifo(s) && BatchInv(s) && WakeInv(s) && ShutdownInv(s)
  }

  lemma FifoStep<T>(s: Loop<T>, step: Step<T>)
    requires Fifo(s) && Enabled(s, step)
    ensures Fifo(Apply(s, step))
  {
    var t := Apply(s, step);
    match step
    case Append(p, task) =>
      assert Pending(t) == Pending(s) + [task];
    case RunTask =>
      assert s.taskQueueR[s.pc.i..] == [s.taskQueueR[s.pc.i]] + t.taskQueueR[t.pc.i..];
    case Swap =>
      assert t.taskQueueR[0..] == s.taskQueueW;
    case _ =>
  }

  lemma DispatchKeepsBatch<T>(s: Loop<T>)
    requires BatchInv(s) && Enabled(s, Dispatch)
    ensures BatchInv(Apply(s, Dispatch))
  {
    var i := s.pc.i;
    assert s.batch[..i + 1] == s.batch[..i] + [s.batch[i]];
    assert s.batch[i..] == [s.batch[i]] + s.batch[i + 1..];
  }

  lemma BatchStep<T>(s: Loop<T>, step: Step<T>)
    requires BatchInv(s) && Enabled(s, step)
    ensures BatchInv(Apply(s, step))
  {
    match step
    case Dispatch =>
      DispatchKeepsBatch(s);
    case Collect(items) =>
      assert items[..0] == [] && items[0..] == items;
    case EndBatch =>
      assert s.batch[..s.pc.i] == s.batch && s.batch[s.pc.i..] == [];
    case _ =>
  }

  /** The point a goroutine leaves by taking this step. */
  predicate Leaves<T>(step: Step<T>, pc: ThreadPc)
  {
    match pc
    case Appended => step.TryClaim?
    case OwesWake => step.WriteWake?
    case SawRunning => step.CloseClear?
    case OwesCloseWake => step.CloseWake?
    case AwaitsExit => false
  }

  lemma Stays<T>(s: Loop<T>, step: Step<T>, pc: ThreadPc)
    requires Enabled(s, step) && Someone(s, pc) && !Leaves(step, pc)
    ensures Someone(Apply(s, step), pc)
  {
    var q :| At(s, q, pc);
    assert At(Apply(s, step), q, pc);
  }

  lemma ClaimStep<T>(s: Loop<T>, step: Step<T>)
    requires BatchInv(s) && WakeInv(s) && Enabled(s, step) && !Apply(s, step).needWake
    ensures var t := Apply(s, step); Someone(t, OwesWake) || t.eventfd > 0 || BeforeArming(t)
  {
    var t := Apply(s, step);
    if step.TryClaim? && s.needWake {
      assert At(t, step.p, OwesWake);
    } else if Someone(s, OwesWake) && !step.WriteWake? {
      Stays(s, step, OwesWake);
    }
  }

  lemma QueuedStep<T>(s: Loop<T>, step: Step<T>)
    requires Fifo(s) && BatchInv(s) && WakeInv(s) && Enabled(s, step) && Apply(s, step).taskQueueW != []
    ensures var t := Apply(s, step); Someone(t, Appended) || Someone(t, OwesWake) || t.eventfd > 0 || BeforeSwap(t)
  {
    var t := Apply(s, step);
    if step.Append? {
      assert At(t, step.p, Appended);
    } else if step.TryClaim? {
      ClaimStep(s, step);
    } else if Someone(s, Appended) {
      Stays(s, step, Appended);
    } else if Someone(s, OwesWake) && !step.WriteWake? {
      Stays(s, step, OwesWake);
    }
  }

  lemma ShutdownStep<T>(s: Loop<T>, step: Step<T>)
    requires BatchInv(s) && ShutdownInv(s) && Enabled(s, step)
    ensures ShutdownInv(Apply(s, step))
  {
    var t := Apply(s, step);
    if step.CloseClear? {
      assert At(t, step.p, OwesCloseWake);
    } else if Someone(s, OwesCloseWake) && !step.CloseWake? {
      Stays(s, step, OwesCloseWake);
    }
  }

  lemma InvStep<T>(s: Loop<T>, step: Step<T>)
    requires Inv(s) && Enabled(s, step)
    ensures Inv(Apply(s, step))
  {
    FifoStep(s, step);
    BatchStep(s, step);
    if !Apply(s, step).needWake {
      ClaimStep(s, step);
    }
    if Apply(s, step).taskQueueW != [] {
      QueuedStep(s, step);
    }
    ShutdownStep(s, step);
  }

  lemma {:induction false} InvRun<T>(s: Loop<T>, steps: seq<Step<T>>)
    requires Inv(s) && IsRun(s, steps)
    ensures Inv(Final(s, steps))
    decreases |steps|
  {
    if steps != [] {
      InvStep(s, steps[0]);
      InvRun(Apply(s, steps[0]), steps[1..]);
    }
  }

  // ---- What every reachable state satisfies ----

  /** The state at the end of a run from a new loop. */
  ghost predicate Reached<T>(s: Loop<T>, steps: seq<Step<T>>)
  {
    IsRun(Init<T>(), steps) && s == Final(Init<T>(), steps)
  }

  lemma ReachedInv<T>(s: Loop<T>, steps: seq<Step<T>>)
    requires Reached(s, steps)
    ensures Inv(s)
  {
    InvRun(Init<T>(), steps);
  }

  /** No lost wakeup: in every reachable interleaving a queued task has a goroutine on its way to the eventfd,
      a readable eventfd, or a loop that drained the eventfd and has not swapped the queues yet. So a loop that can only
      sleep, with no goroutine inside `QueueInLoop`, has run every task ever appended. */
  lemma NoLostWakeup<T>(s: Loop<T>, steps: seq<Step<T>>)
    requires Reached(s, steps)
    ensures s.taskQueueW != [] ==> Someone(s, Appended) || Someone(s, OwesWake) || s.eventfd > 0 || BeforeSwap(s)
    ensures !s.needWake ==> Someone(s, OwesWake) || s.eventfd > 0 || BeforeArming(s)
    ensures s.pc == Waiting && s.eventfd == 0 && !Someone(s, Appended) && !Someone(s, OwesWake)
            ==> s.executed == s.appended && s.needWake
  {
    ReachedInv(s, steps);
  }

  /** Tasks run first-in, first-out and exactly once, whatever appends happen meanwhile. */
  lemma FifoExactlyOnce<T>(s: Loop<T>, steps: seq<Step<T>>)
    requires Reached(s, steps)
    ensures s.appended == s.executed + Pending(s)
    ensures s.pc.Running? && s.pc.i < |s.taskQueueR| ==> s.appended[|s.executed|] == s.taskQueueR[s.pc.i]
  {
    ReachedInv(s, steps);
  }

  /** No missed shutdown: a closer waiting for the loop to exit never faces a loop that can only sleep. */
  lemma NoMissedShutdown<T>(s: Loop<T>, steps: seq<Step<T>>)
    requires Reached(s, steps)
    ensures Someone(s, AwaitsExit) ==> !s.running && s.pc != Starting
    ensures !s.running && s.pc != Starting ==> Someone(s, OwesCloseWake) || s.eventfd > 0 || s.wake || s.pc == Exited
    ensures s.pc == Waiting && s.eventfd == 0 && !Someone(s, OwesCloseWake) ==> s.running
  {
    ReachedInv(s, steps);
    if Someone(s, AwaitsExit) {
      var p :| At(s, p, AwaitsExit);
    }
  }

  /** The eventfd is opened in blocking mode, yet the loop never blocks reading it. */
  lemma WakeReadNeverBlocks<T>(s: Loop<T>, steps: seq<Step<T>>)
    requires Reached(s, steps) && Enabled(s, Dispatch) && s.batch[s.pc.i] == Wakeup
    ensures s.eventfd > 0 && !s.wake
  {
    ReachedInv(s, steps);
    assert s.batch[s.pc.i..][0] == Wakeup;
  }

  /** Between a swap and the end of the task phase the loop runs exactly what was queued at the swap. */
  ghost predicate Draining<T>(s: Loop<T>, before: seq<T>, batch: seq<T>)
  {
    if s.pc.Running? then s.pc.i <= |batch| && s.taskQueueR == batch && s.executed == before + batch[..s.pc.i]
    else s.pc == Checking && s.executed == before + batch
  }

  lemma {:induction false} DrainRun<T>(s: Loop<T>, steps: seq<Step<T>>, before: seq<T>, batch: seq<T>)
    requires Draining(s, before, batch) && IsRun(s, steps) && forall x <- steps :: !x.CheckRunning?
    ensures Draining(Final(s, steps), before, batch)
    decreases |steps|
  {
    if steps != [] {
      var t := Apply(s, steps[0]);
      if steps[0].RunTask? {
        assert batch[..t.pc.i] == batch[..s.pc.i] + [batch[s.pc.i]];
      }
      assert batch[..|batch|] == batch;
      DrainRun(t, steps[1..], before, batch);
    }
  }

  /** Each drain runs exactly the tasks present at the swap, in order, even if they append more. */
  lemma DrainRunsSnapshot<T>(s: Loop<T>, steps: seq<Step<T>>)
    requires Enabled(s, Swap) && IsRun(Apply(s, Swap), steps) && (forall x <- steps :: !x.CheckRunning?)
    requires Final(Apply(s, Swap), steps).pc == Checking
    ensures Final(Apply(s, Swap), steps).executed == s.executed + s.taskQueueW
  {
    assert s.executed + s.taskQueueW[..0] == s.executed;
    DrainRun(Apply(s, Swap), steps, s.executed, s.taskQueueW);
  }

  // ---- Progress: nothing is stranded ----

  /** Steps of the loop goroutine that need no event but the eventfd, and eventfd writes (or the claim before one) that some
      goroutine already owes. */
  predicate Owed<T>(step: Step<T>)
  {
    !step.Append? && !step.CloseBegin? && !step.CloseClear? && (step.Collect? ==> step.items == [Wakeup])
  }

  /** How many owed steps separate a sleeping loop from a readable eventfd. */
  ghost function Debt<T>(s: Loop<T>): nat
  {
    if s.eventfd > 0 then 0 else if Someone(s, OwesWake) || Someone(s, OwesCloseWake) then 1 else 2
  }

  /** How many owed steps separate the loop from its next swap. */
  ghost function ToSwap<T>(s: Loop<T>): nat
    requires Inv(s)
  {
    match s.pc
    case Swapping => 1
    case Arming => 2
    case Dispatching(i) => |s.batch| - i + (if Wakeup in s.batch then 3 else 6 + Debt(s))
    case Waiting => 5 + Debt(s)
    case Checking => 6 + Debt(s)
    case Running(i) => |s.taskQueueR| - i + 7 + Debt(s)
    case Starting => 6 + Debt(s)
    case Exited => 0
  }

  /** There is work that forces another turn, and a turn still ahead that will take it up. */
  ghost predicate TurnDue<T>(s: Loop<T>)
  {
    && s.pc != Exited
    && (s.taskQueueW != [] || (!s.running && s.pc != Starting))
    && (!s.running ==> !s.pc.Running? && s.pc != Checking)
  }

  /** The owed step that brings the loop nearer to its next swap. */
  ghost function NextOwed<T>(s: Loop<T>): (step: Step<T>)
    requires Inv(s) && TurnDue(s) && s.pc != Swapping
    ensures Enabled(s, step) && Owed(step) && !step.Swap?
  {
    match s.pc
    case Starting => Start
    case Dispatching(i) => if i < |s.batch| then Dispatch else EndBatch
    case Arming => Arm
    case Running(i) => if i < |s.taskQueueR| then RunTask else EndTasks
    case Checking => CheckRunning
    case Waiting =>
      if s.eventfd > 0 then Collect([Wakeup])
      else if Someone(s, OwesWake) then (var p :| At(s, p, OwesWake); WriteWake(p))
      else if Someone(s, OwesCloseWake) then (var p :| At(s, p, OwesCloseWake); CloseWake(p))
      else (var p :| At(s, p, Appended); TryClaim(p))
  }

  lemma DebtUnchanged<T>(s: Loop<T>, t: Loop<T>)
    requires s.eventfd == t.eventfd && s.threads == t.threads
    ensures Debt(s) == Debt(t)
  {
    forall p, pc {:trigger At(s, p, pc)} {:trigger At(t, p, pc)} ensures At(s, p, pc) <==> At(t, p, pc) {}
  }

  lemma NearerFromBatch<T>(s: Loop<T>)
    requires Inv(s) && TurnDue(s) && s.pc.Dispatching?
    ensures var t := Apply(s, NextOwed(s)); TurnDue(t) && (Inv(t) ==> ToSwap(t) < ToSwap(s))
  {
    assert s.batch[..|s.batch|] == s.batch;
    if !(Wakeup in s.batch) {
      DebtUnchanged(s, Apply(s, NextOwed(s)));
    }
  }

  lemma NearerSwap<T>(s: Loop<T>)
    requires Inv(s) && TurnDue(s) && s.pc != Swapping
    ensures var t := Apply(s, NextOwed(s)); Inv(t) && TurnDue(t) && ToSwap(t) < ToSwap(s)
  {
    InvStep(s, NextOwed(s));
    if s.pc.Dispatching? {
      NearerFromBatch(s);
    } else if s.pc != Waiting {
      DebtUnchanged(s, Apply(s, NextOwed(s)));
    }
  }

  /** A continuation of s by owed steps only that ends in t; nothing is appended on the way. */
  ghost predicate Continues<T>(s: Loop<T>, steps: seq<Step<T>>, t: Loop<T>)
  {
    && (forall x <- steps :: Owed(x)) && IsRun(s, steps) && t == Final(s, steps) && t.appended == s.appended
  }

  lemma {:induction false} Join<T>(s: Loop<T>, a: seq<Step<T>>, t: Loop<T>, b: seq<Step<T>>, v: Loop<T>)
    requires Continues(s, a, t) && Continues(t, b, v)
    ensures Continues(s, a + b, v)
    decreases |a|
  {
    if a == [] {
      assert a + b == b;
    } else {
      assert Owed(a[0]) && (a + b)[1..] == a[1..] + b;
      Join(Apply(s, a[0]), a[1..], t, b, v);
    }
  }

  lemma One<T>(s: Loop<T>, step: Step<T>)
    requires Enabled(s, step) && Owed(step)
    ensures Continues(s, [step], Apply(s, step))
  {
    assert [step][1..] == [];
  }

  lemma {:induction false} ReachSwap<T>(s: Loop<T>) returns (steps: seq<Step<T>>, t: Loop<T>)
    requires Inv(s) && TurnDue(s)
    ensures Continues(s, steps, t) && Inv(t) && t.pc == Swapping
    ensures s.running || s.pc == Starting <==> t.running
    decreases ToSwap(s)
  {
    if s.pc == Swapping {
      steps, t := [], s;
    } else {
      var step := NextOwed(s);
      NearerSwap(s);
      One(s, step);
      var rest;
      rest, t := ReachSwap(Apply(s, step));
      steps := [step] + rest;
      Join(s, [step], Apply(s, step), rest, t);
    }
  }

  lemma {:induction false} FinishTasks<T>(s: Loop<T>) returns (steps: seq<Step<T>>, t: Loop<T>)
    requires Inv(s) && s.pc.Running?
    ensures Continues(s, steps, t) && Inv(t) && t.pc == Checking
    ensures t.taskQueueW == s.taskQueueW && t.running == s.running
    decreases |s.taskQueueR| - s.pc.i
  {
    var step := if s.pc.i < |s.taskQueueR| then RunTask else EndTasks;
    InvStep(s, step);
    One(s, step);
    if step.EndTasks? {
      steps, t := [step], Apply(s, step);
    } else {
      var rest;
      rest, t := FinishTasks(Apply(s, step));
      steps := [step] + rest;
      Join(s, [step], Apply(s, step), rest, t);
    }
  }

  /** From every state with a turn due, owed steps alone complete a turn that empties both queues. */
  lemma CompleteTurn<T>(s: Loop<T>) returns (steps: seq<Step<T>>, t: Loop<T>)
    requires Inv(s) && TurnDue(s)
    ensures Continues(s, steps, t) && Inv(t) && t.pc == Checking && t.executed == s.appended
    ensures s.running || s.pc == Starting <==> t.running
  {
    var a, u := ReachSwap(s);
    var v := Apply(u, Swap);
    One(u, Swap);
    InvStep(u, Swap);
    var b;
    b, t := FinishTasks(v);
    Join(s, a, u, [Swap], v);
    Join(s, a + [Swap], v, b, t);
    steps := a + [Swap] + b;
  }

  /** No task is ever stranded: from every reachable state of a loop that has not been told to stop, the loop goroutine
      and the eventfd writes already owed suffice to run every task appended so far. */
  lemma TasksCanRun<T>(s: Loop<T>, past: seq<Step<T>>) returns (steps: seq<Step<T>>, t: Loop<T>)
    requires Reached(s, past) && (s.running || s.pc == Starting)
    ensures Continues(s, steps, t) && t.executed == s.appended
  {
    ReachedInv(s, past);
    if s.taskQueueW != [] {
      steps, t := CompleteTurn(s);
    } else if s.pc.Running? {
      steps, t := FinishTasks(s);
    } else {
      steps, t := [], s;
    }
  }

  /** Shutdown always completes: from every reachable state in which `running` was cleared, the loop goroutine and the
      eventfd writes already owed suffice to make the loop exit and release whoever waits for it. */
  lemma ShutdownCompletes<T>(s: Loop<T>, past: seq<Step<T>>) returns (steps: seq<Step<T>>, t: Loop<T>)
    requires Reached(s, past) && !s.running && s.pc != Starting
    ensures Continues(s, steps, t) && t.pc == Exited
  {
    ReachedInv(s, past);
    if s.pc == Exited {
      steps, t := [], s;
    } else {
      var a, u := [], s;
      if s.pc.Running? {
        a, u := FinishTasks(s);
      } else if s.pc != Checking {
        a, u := CompleteTurn(s);
      }
      One(u, CheckRunning);
      t := Apply(u, CheckRunning);
      steps := a + [CheckRunning];
      Join(s, a, u, [CheckRunning], t);
    }
  }

  // ---- Closing a loop ----

  lemma {:induction false} Extends<T>(s: Loop<T>, a: seq<Step<T>>, b: seq<Step<T>>)
    requires IsRun(s, a) && IsRun(Final(s, a), b)
    ensures IsRun(s, a + b) && Final(s, a + b) == Final(Final(s, a), b)
    decreases |a|
  {
    if a == [] {
      assert a + b == b;
    } else {
      assert (a + b)[1..] == a[1..] + b;
      Extends(Apply(s, a[0]), a[1..], b);
    }
  }

  lemma OneStep<T>(s: Loop<T>, step: Step<T>)
    requires Enabled(s, step)
    ensures IsRun(s, [step]) && Final(s, [step]) == Apply(s, step)
  {
    assert [step][1..] == [];
    assert IsRun(Apply(s, step), []) && Final(Apply(s, step), []) == Apply(s, step);
  }

  /** Whoever waits for the exit goes on waiting: no step of the machine is taken by that goroutine. */
  lemma {:induction false} KeepsWaiting<T>(s: Loop<T>, steps: seq<Step<T>>, p: nat)
    requires IsRun(s, steps) && At(s, p, AwaitsExit)
    ensures At(Final(s, steps), p, AwaitsExit)
    decreases |steps|
  {
    if steps != [] {
      KeepsWaiting(Apply(s, steps[0]), steps[1..], p);
    }
  }

  /** A task that a goroutine appends to a loop that has not been told to stop can run, after everything appended before. */
  lemma QueuedTaskRuns<T>(s: Loop<T>, past: seq<Step<T>>, p: nat, task: T) returns (owed: seq<Step<T>>, t: Loop<T>)
    requires Reached(s, past) && (s.running || s.pc == Starting) && p !in s.threads
    ensures (forall x <- owed :: Owed(x)) && IsRun(s, [Append(p, task)] + owed) && t == Final(s, [Append(p, task)] + owed)
    ensures t.executed == s.appended + [task]
  {
    var one := [Append(p, task)];
    OneStep(s, Append(p, task));
    Extends(Init<T>(), past, one);
    owed, t := TasksCanRun(Final(s, one), past + one);
    Extends(s, one, owed);
  }

  /** `Close` by goroutine p, up to where it waits for the loop. */
  function Closing<T>(p: nat): seq<Step<T>>
  {
    [CloseBegin(p), CloseClear(p), CloseWake(p)]
  }

  lemma CloseSteps<T>(s: Loop<T>, p: nat)
    requires s.running && p !in s.threads
    ensures IsRun(s, Closing(p))
    ensures var t := Final(s, Closing(p)); !t.running && t.pc == s.pc && t.eventfd == s.eventfd + 1 && At(t, p, AwaitsExit)
  {
    var s1 := Apply(s, CloseBegin(p));
    var s2 := Apply(s1, CloseClear(p));
    var s3 := Apply(s2, CloseWake(p));
    var two: seq<Step<T>>, one: seq<Step<T>> := [CloseClear(p), CloseWake(p)], [CloseWake(p)];
    assert Closing<T>(p)[1..] == two && two[1..] == one && one[1..] == [];
    assert IsRun(s2, one) && Final(s2, one) == s3;
    assert IsRun(s1, two) && Final(s1, two) == s3;
  }

  /** Closing stops the loop: in every reachable state of a running loop, whatever it is doing and whoever else is at work,
      `Close` clears `running` and wakes the loop, and then the loop goroutine and the eventfd writes already owed suffice to
      make it exit, with the closer waiting for exactly that. */
  lemma CloseStops<T>(s: Loop<T>, past: seq<Step<T>>, p: nat) returns (owed: seq<Step<T>>, t: Loop<T>)
    requires Reached(s, past) && s.running && p !in s.threads
    ensures (forall x <- owed :: Owed(x)) && IsRun(s, Closing(p) + owed) && t == Final(s, Closing(p) + owed)
    ensures t.pc == Exited && !t.running && At(t, p, AwaitsExit)
  {
    ReachedInv(s, past);
    CloseSteps(s, p);
    var u := Final(s, Closing(p));
    Extends(Init<T>(), past, Closing(p));
    owed, t := ShutdownCompletes(u, past + Closing(p));
    Extends(s, Closing(p), owed);
    KeepsWaiting(u, owed, p);
    Extends(Init<T>(), past + Closing(p), owed);
    ReachedInv(t, past + Closing(p) + owed);
  }

  /** From the start: a loop that is started and closed exits. */
  lemma StartAndStop<T>(p: nat) returns (steps: seq<Step<T>>, t: Loop<T>)
    ensures Reached(t, steps) && t.pc == Exited && At(t, p, AwaitsExit)
  {
    var s := Apply(Init<T>(), Start);
    var start: seq<Step<T>> := [Start];
    OneStep(Init<T>(), Start);
    var owed;
    owed, t := CloseStops(s, start, p);
    steps := start + (Closing(p) + owed);
    Extends(Init<T>(), start, Closing(p) + owed);
  }

  /** A loop that is not running is left alone: `Close` returns at once. */
  lemma CloseTwice<T>(s: Loop<T>, p: nat)
    requires !s.running && p !in s.threads
    ensures Enabled(s, CloseBegin(p)) && Apply(s, CloseBegin(p)) == s
  {}
}
