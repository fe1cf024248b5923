/** Runs of the server machine from its start that show what goes wrong where the theorems of Server.dfy draw the line. */
module ServerRuns {
  import opened Bytes
  import opened Connections
  import opened Server
  import R = Reactor

  // ---- Putting runs together ----

  ghost predicate Leads(w: World, steps: seq<Step>, v: World)
  {
    IsRun(w, steps) && Final(w, steps) == v
  }

  lemma {:induction false} Join(u: World, a: seq<Step>, w: World, b: seq<Step>, v: World)
    requires Leads(u, a, w) && Leads(w, b, v)
    ensures Leads(u, a + b, v)
    decreases |a|
  {
    if a == [] {
      assert a + b == b;
    } else {
      assert (a + b)[1..] == a[1..] + b;
      Join(Apply(u, a[0]), a[1..], w, b, v);
    }
  }

  lemma One(w: World, step: Step)
    requires Enabled(w, step)
    ensures Leads(w, [step], Apply(w, step))
  {
    assert [step][1..] == [];
  }

  function WithQueue(w: World, l: nat, q: R.Loop<Task>): World
    requires l < |w.workers|
  {
    w.(workers := w.workers[l := w.workers[l].(queue := q)])
  }

  /** A step that does nothing beyond the queue of its loop. */
  predicate Quiet(q: R.Loop<Task>, s: R.Step<Task>)
  {
    R.Enabled(q, s) && R.Owed(s) && !s.RunTask? && (s.Dispatch? ==> q.batch[q.pc.i] == R.Wakeup)
  }

  lemma QuietStep(w: World, l: nat, s: R.Step<Task>, out: Outside)
    requires l < |w.workers| && Quiet(w.workers[l].queue, s)
    ensures Leads(w, [LoopStep(l, s, out)], WithQueue(w, l, R.Apply(w.workers[l].queue, s)))
  {
    One(w, LoopStep(l, s, out));
  }

  /** The queue after steps that are all quiet. */
  ghost predicate QuietRun(q: R.Loop<Task>, ss: seq<R.Step<Task>>, r: R.Loop<Task>)
    decreases |ss|
  {
    if ss == [] then r == q else Quiet(q, ss[0]) && QuietRun(R.Apply(q, ss[0]), ss[1..], r)
  }

  function Always(out: Outside): nat -> Outside { (_: nat) => out }

  lemma {:induction false} QuietLeads(w: World, l: nat, ss: seq<R.Step<Task>>, r: R.Loop<Task>, out: Outside)
    requires l < |w.workers| && QuietRun(w.workers[l].queue, ss, r)
    ensures Leads(w, Lifted(ss, l, Always(out)), WithQueue(w, l, r))
    decreases |ss|
  {
    if ss == [] {
      assert WithQueue(w, l, r) == w;
    } else {
      var v := WithQueue(w, l, R.Apply(w.workers[l].queue, ss[0]));
      QuietStep(w, l, ss[0], out);
      QuietLeads(v, l, ss[1..], r, out);
      assert WithQueue(v, l, r) == WithQueue(w, l, r);
      Join(w, [LoopStep(l, ss[0], out)], v, Lifted(ss[1..], l, Always(out)), WithQueue(w, l, r));
      assert Lifted(ss, l, Always(out)) == [LoopStep(l, ss[0], out)] + Lifted(ss[1..], l, Always(out));
    }
  }

  // ---- One task on a loop with nothing else to do ----

  predicate Asleep(q: R.Loop<Task>)
  {
    && q.pc == R.Waiting && q.taskQueueW == [] && q.taskQueueR == [] && q.needWake && q.eventfd == 0 && q.running
    && !q.wake && q.threads == map[]
  }

  /** After the task was queued, up to the point where it runs. */
  function Taken(q: R.Loop<Task>, task: Task): R.Loop<Task>
  {
    q.(needWake := true, eventfd := 0, taskQueueW := [], taskQueueR := [task], pc := R.Running(0), batch := [R.Wakeup],
       wake := true, appended := q.appended + [task])
  }

  function Slept(q: R.Loop<Task>, task: Task): R.Loop<Task>
  {
    q.(batch := [R.Wakeup], appended := q.appended + [task], executed := q.executed + [task])
  }

  const BEFORE: seq<R.Step<Task>> :=
    [R.TryClaim(0), R.WriteWake(0), R.Collect([R.Wakeup]), R.Dispatch, R.EndBatch, R.Arm, R.Swap]
  const AFTER: seq<R.Step<Task>> := [R.EndTasks, R.CheckRunning]

  lemma QuietCons(q: R.Loop<Task>, s: R.Step<Task>, ss: seq<R.Step<Task>>, r: R.Loop<Task>)
    requires Quiet(q, s) && QuietRun(R.Apply(q, s), ss, r)
    ensures QuietRun(q, [s] + ss, r)
  {
    assert ([s] + ss)[1..] == ss;
  }

  lemma {:induction false} QuietJoin(q: R.Loop<Task>, a: seq<R.Step<Task>>, m: R.Loop<Task>, b: seq<R.Step<Task>>, r: R.Loop<Task>)
    requires QuietRun(q, a, m) && QuietRun(m, b, r)
    ensures QuietRun(q, a + b, r)
    decreases |a|
  {
    if a == [] {
      assert a + b == b;
    } else {
      QuietJoin(R.Apply(q, a[0]), a[1..], m, b, r);
      assert (a + b)[1..] == a[1..] + b;
    }
  }

  /** The task is queued and the eventfd written. */
  function Woken(q: R.Loop<Task>, task: Task): R.Loop<Task>
  {
    q.(needWake := false, eventfd := 1, taskQueueW := [task], appended := q.appended + [task])
  }

  lemma WakeUp(q: R.Loop<Task>, task: Task)
    requires Asleep(q)
    ensures QuietRun(R.Apply(q, R.Append(0, task)), [R.TryClaim(0), R.WriteWake(0)], Woken(q, task))
  {
    var q0 := R.Apply(q, R.Append(0, task));
    var q1 := R.Apply(q0, R.TryClaim(0));
    var q2 := R.Apply(q1, R.WriteWake(0));
    assert q2.threads == map[] && [] + [task] == [task];
    assert q2 == Woken(q, task);
    QuietCons(q1, R.WriteWake(0), [], q2);
    QuietCons(q0, R.TryClaim(0), [R.WriteWake(0)], q2);
  }

  lemma CollectWake(q: R.Loop<Task>, task: Task)
    requires Asleep(q)
    ensures QuietRun(Woken(q, task), [R.Collect([R.Wakeup]), R.Dispatch, R.EndBatch],
                     Woken(q, task).(eventfd := 0, wake := true, batch := [R.Wakeup], pc := R.Arming))
  {
    var q2 := Woken(q, task);
    var q3 := R.Apply(q2, R.Collect([R.Wakeup]));
    var q4 := R.Apply(q3, R.Dispatch);
    var q5 := R.Apply(q4, R.EndBatch);
    QuietCons(q4, R.EndBatch, [], q5);
    QuietCons(q3, R.Dispatch, [R.EndBatch], q5);
    QuietCons(q2, R.Collect([R.Wakeup]), [R.Dispatch, R.EndBatch], q5);
  }

  lemma ArmAndSwap(q: R.Loop<Task>, task: Task)
    requires Asleep(q)
    ensures QuietRun(Woken(q, task).(eventfd := 0, wake := true, batch := [R.Wakeup], pc := R.Arming), [R.Arm, R.Swap],
                     Taken(q, task))
  {
    var q5 := Woken(q, task).(eventfd := 0, wake := true, batch := [R.Wakeup], pc := R.Arming);
    var q6 := R.Apply(q5, R.Arm);
    var q7 := R.Apply(q6, R.Swap);
    assert q7 == Taken(q, task);
    QuietCons(q6, R.Swap, [], q7);
    QuietCons(q5, R.Arm, [R.Swap], q7);
  }

  lemma UpToSwap(q: R.Loop<Task>, task: Task)
    requires Asleep(q)
    ensures QuietRun(R.Apply(q, R.Append(0, task)), BEFORE, Taken(q, task))
  {
    WakeUp(q, task);
    CollectWake(q, task);
    ArmAndSwap(q, task);
    var a: seq<R.Step<Task>>, b: seq<R.Step<Task>> := [R.TryClaim(0), R.WriteWake(0)], [R.Collect([R.Wakeup]), R.Dispatch, R.EndBatch];
    var armed := Woken(q, task).(eventfd := 0, wake := true, batch := [R.Wakeup], pc := R.Arming);
    QuietJoin(R.Apply(q, R.Append(0, task)), a, Woken(q, task), b, armed);
    QuietJoin(R.Apply(q, R.Append(0, task)), a + b, armed, [R.Arm, R.Swap], Taken(q, task));
    assert a + b + [R.Arm, R.Swap] == BEFORE;
  }

  lemma BackToSleep(q: R.Loop<Task>, task: Task)
    requires Asleep(q)
    ensures R.Enabled(Taken(q, task), R.RunTask) && QuietRun(R.Apply(Taken(q, task), R.RunTask), AFTER, Slept(q, task))
  {
    var q0 := R.Apply(Taken(q, task), R.RunTask);
    var q1 := R.Apply(q0, R.EndTasks);
    var q2 := R.Apply(q1, R.CheckRunning);
    assert q2 == Slept(q, task);
    QuietCons(q1, R.CheckRunning, [], q2);
    QuietCons(q0, R.EndTasks, [R.CheckRunning], q2);
  }

  /** The world in which the task is queued: `handleNewConnection` knows that it has queued the registration. */
  function Queueing(w: World, task: Task): World
  {
    if task.RegisterTask? && Known(w, task.c) then Enlist(w, task.c) else w
  }

  lemma WatchableWithQueue(w: World, l: nat, q: R.Loop<Task>, fd: nat)
    requires l < |w.workers|
    ensures Watchable(WithQueue(w, l, q), l, fd) == Watchable(w, l, fd)
  {
    assert forall d: nat :: Live(WithQueue(w, l, q), d) == Live(w, d);
  }

  lemma PerformWithQueue(w: World, l: nat, task: Task, out: Outside, q: R.Loop<Task>)
    requires l < |w.workers|
    ensures l < |Perform(w, l, task, out).workers|
    ensures Perform(WithQueue(w, l, q), l, task, out) == WithQueue(Perform(w, l, task, out), l, q)
  {
    if task.RegisterTask? && Known(w, task.c) {
      WatchableWithQueue(w, l, q, w.conns[task.c].fd);
    }
  }

  lemma QueueIt(w: World, l: nat, task: Task, out: Outside)
    requires l < |w.workers| && Asleep(w.workers[l].queue) && CanAppend(w, l, task)
    ensures |Queueing(w, task).workers| == |w.workers|
    ensures Leads(w, [LoopStep(l, R.Append(0, task), out)],
                  WithQueue(Queueing(w, task), l, R.Apply(w.workers[l].queue, R.Append(0, task))))
  {
    One(w, LoopStep(l, R.Append(0, task), out));
  }

  lemma TakeIt(w: World, l: nat, task: Task, out: Outside) returns (steps: seq<Step>)
    requires l < |w.workers| && Asleep(w.workers[l].queue) && CanAppend(w, l, task)
    ensures |Queueing(w, task).workers| == |w.workers|
    ensures Leads(w, steps, WithQueue(Queueing(w, task), l, Taken(w.workers[l].queue, task)))
  {
    var q, e := w.workers[l].queue, Queueing(w, task);
    QueueIt(w, l, task, out);
    var w0 := WithQueue(e, l, R.Apply(q, R.Append(0, task)));
    UpToSwap(q, task);
    QuietLeads(w0, l, BEFORE, Taken(q, task), out);
    assert WithQueue(w0, l, Taken(q, task)) == WithQueue(e, l, Taken(q, task));
    Join(w, [LoopStep(l, R.Append(0, task), out)], w0, Lifted(BEFORE, l, Always(out)), WithQueue(e, l, Taken(q, task)));
    steps := [LoopStep(l, R.Append(0, task), out)] + Lifted(BEFORE, l, Always(out));
  }

  /** Queueing a task to a sleeping loop and waiting until it sleeps again does what the task does. */
  lemma Turn(w: World, l: nat, task: Task, out: Outside) returns (steps: seq<Step>, v: World)
    requires l < |w.workers| && Asleep(w.workers[l].queue) && CanAppend(w, l, task)
    ensures Leads(w, steps, v) && l < |Perform(Queueing(w, task), l, task, out).workers|
    ensures v == WithQueue(Perform(Queueing(w, task), l, task, out), l, Slept(w.workers[l].queue, task))
    ensures Asleep(v.workers[l].queue)
  {
    var q, e := w.workers[l].queue, Queueing(w, task);
    var a := TakeIt(w, l, task, out);
    BackToSleep(q, task);
    var w2 := RunIt(e, l, q, task, out);
    Join(w, a, WithQueue(e, l, Taken(q, task)), [LoopStep(l, R.RunTask, out)], w2);
    QuietLeads(w2, l, AFTER, Slept(q, task), out);
    v := WithQueue(w2, l, Slept(q, task));
    steps := a + [LoopStep(l, R.RunTask, out)] + Lifted(AFTER, l, Always(out));
    Join(w, a + [LoopStep(l, R.RunTask, out)], w2, Lifted(AFTER, l, Always(out)), v);
  }

  lemma RunIt(e: World, l: nat, q: R.Loop<Task>, task: Task, out: Outside) returns (v: World)
    requires l < |e.workers| && R.Enabled(Taken(q, task), R.RunTask)
    ensures Leads(WithQueue(e, l, Taken(q, task)), [LoopStep(l, R.RunTask, out)], v)
    ensures l < |Perform(e, l, task, out).workers|
    ensures v == WithQueue(Perform(e, l, task, out), l, R.Apply(Taken(q, task), R.RunTask))
  {
    var w := WithQueue(e, l, Taken(q, task));
    PerformWithQueue(e, l, task, out, Taken(q, task));
    One(w, LoopStep(l, R.RunTask, out));
    v := Apply(w, LoopStep(l, R.RunTask, out));
  }

  // ---- The runs ----

  function Saying(ok: bool, w: WriteResult): Outside
  {
    Outside(ok, Events(false, false, true), Answers(Got(1, []), 0, w, w), [], map[])
  }

  /** A message comes in, and the answer to it is written like this. */
  function Answering(reply: bytes, w: WriteResult): Outside
  {
    Outside(true, Events(false, false, true), Answers(Got(1, reply), 0, w, w), [], map[])
  }

  const FIRST := Buffers(0, 1)

  /** Connections with these buffers, and nothing on the wire yet. */
  predicate Given(w: World, held: seq<Buffers>)
  {
    && w.held == held && w.wire == seq(|held|, _ => []) && w.strays == seq(|held|, _ => 0)
    && w.soiled == {} && w.tainted == {}
  }

  /** Two sleeping loops with these tables. */
  predicate Resting(w: World, sockets0: map<nat, nat>, count0: int, sockets1: map<nat, nat>, count1: int)
  {
    && |w.workers| == 2 && Asleep(w.workers[0].queue) && Asleep(w.workers[1].queue)
    && w.workers[0].sockets == sockets0 && w.workers[0].connCunt == count0
    && w.workers[1].sockets == sockets1 && w.workers[1].connCunt == count1
  }

  lemma Started() returns (steps: seq<Step>, w: World)
    ensures Leads(Init(2), steps, w) && Resting(w, map[], 0, map[], 0) && w.conns == [] && w.owner == map[] && w.file == map[]
    ensures Given(w, [])
  {
    var out := Saying(true, NoRoom);
    var u := Init(2);
    var v := WithQueue(u, 0, R.Apply(u.workers[0].queue, R.Start));
    QuietStep(u, 0, R.Start, out);
    QuietStep(v, 1, R.Start, out);
    w := WithQueue(v, 1, R.Apply(v.workers[1].queue, R.Start));
    steps := [LoopStep(0, R.Start, out)] + [LoopStep(1, R.Start, out)];
    Join(u, [LoopStep(0, R.Start, out)], v, [LoopStep(1, R.Start, out)], w);
  }

  /** A first connection on loop 0. */
  lemma FirstAccepted(fd: nat) returns (steps: seq<Step>, w: World)
    ensures Leads(Init(2), steps, w) && Resting(w, map[], 0, map[], 0)
    ensures w.conns == [NewConnection(fd, 0)] && w.owner == map[fd := 0] && w.file == map[] && Given(w, [FIRST])
  {
    var a, u := Started();
    var step := AcceptConn(fd, 0, FIRST, []);
    One(u, step);
    w := Apply(u, step);
    steps := a + [step];
    Join(Init(2), a, u, [step], w);
  }

  /** Its registration, taken or refused by epoll. */
  lemma FirstRegistered(fd: nat, ok: bool) returns (steps: seq<Step>, w: World)
    ensures Leads(Init(2), steps, w)
    ensures w.conns == [Register(NewConnection(fd, 0), ok)] && w.owner == map[fd := 0] && Given(w, [FIRST])
    ensures w.file == if ok then map[0 := 0] else map[]
    ensures Resting(w, if ok then map[fd := 0] else map[], if ok then 1 else 0, map[], 0)
  {
    var a, u := FirstAccepted(fd);
    var b;
    b, w := Turn(u, 0, RegisterTask(0), Saying(ok, NoRoom));
    var e := Queueing(u, RegisterTask(0));
    assert Watchable(e, 0, fd);
    steps := a + b;
    Join(Init(2), a, u, b, w);
  }

  /** A refused registration followed by a close leaves the counter below the number of sockets listed. */
  lemma CounterTooLow(fd: nat) returns (steps: seq<Step>, w: World)
    ensures Reached(w, 2, steps) && 0 < |w.workers| && w.workers[0].connCunt < |w.workers[0].sockets|
    ensures 0 < |w.conns| && !ClosedEarly(w, 0)
  {
    var a, u := FirstRegistered(fd, false);
    var b;
    b, w := Turn(u, 0, CloseTask(0), Saying(true, NoRoom));
    steps := a + b;
    Join(Init(2), a, u, b, w);
    CallbackOrder(w, 2, steps, 0);
  }

  /** A send with a finish function whose write fails: the function is called after `OnClose`. */
  lemma FinishAfterClose(fd: nat, data: bytes) returns (steps: seq<Step>, w: World)
    ensures Reached(w, 2, steps) && 0 < |w.conns| && w.conns[0].log == [OnConnect, OnClose, OnSent]
  {
    var a, u := FirstRegistered(fd, true);
    var b;
    b, w := Turn(u, 0, SendTask(0, data, true), Saying(true, WriteFails));
    steps := a + b;
    Join(Init(2), a, u, b, w);
  }

  /** A send of which the kernel takes the first n bytes: they are on the wire, and the rest is buffered. */
  lemma PartialSend(fd: nat, data: bytes, n: nat) returns (steps: seq<Step>, w: World)
    requires n < |data|
    ensures Leads(Init(2), steps, w) && Resting(w, map[fd := 0], 1, map[], 0) && |w.conns| == 1 && w.wire == [data[..n]]
    ensures w.conns[0].connected && w.conns[0].sent == data && w.conns[0].outBuffer == data[n..] && Live(w, 0)
    ensures w.conns[0].fd == fd && w.conns[0].loop == 0
  {
    var a, u := FirstRegistered(fd, true);
    assert Live(u, 0);
    var b;
    b, w := Turn(u, 0, SendTask(0, data, false), Saying(true, Wrote(n)));
    assert [] + data == data && [] + data[..n] == data[..n];
    steps := a + b;
    Join(Init(2), a, u, b, w);
  }

  /** The kernel reports that there is room again. */
  lemma RoomAgain(fd: nat, data: bytes, n: nat, out: Outside) returns (steps: seq<Step>, w: World)
    requires n < |data|
    ensures Reached(w, 2, steps) && Enabled(w, LoopStep(0, R.Dispatch, out)) && |w.conns| == 1 && w.wire == [data[..n]]
    ensures w.conns[0].connected && w.conns[0].outBuffer == data[n..]
    ensures var k := w.workers[0]; k.sockets == map[fd := 0] && k.queue.batch[k.queue.pc.i] == R.Io(fd, 0)
  {
    var a, u := PartialSend(fd, data, n);
    var step := LoopStep(0, R.Collect([R.Io(fd, 0)]), out);
    One(u, step);
    w := Apply(u, step);
    steps := a + [step];
    Join(Init(2), a, u, [step], w);
  }

  /** It takes the rest: all of the data is on the wire. */
  lemma FlushedSend(fd: nat, data: bytes, n: nat) returns (steps: seq<Step>, w: World)
    requires n < |data|
    ensures Reached(w, 2, steps) && |w.conns| == 1 && |w.wire| == 1 && w.wire[0] == data && w.conns[0].outBuffer == []
  {
    var out := Outside(true, Events(false, true, false), Answers(NothingYet, 0, Wrote(|data| - n), NoRoom), [], map[]);
    var a, u := RoomAgain(fd, data, n, out);
    var step := LoopStep(0, R.Dispatch, out);
    One(u, step);
    w := Apply(u, step);
    WriteExactly(u.conns[0], |data| - n, Wrote(|data| - n), NoRoom);
    assert data[n..][..|data| - n] == data[n..] && data[..n] + data[n..] == data;
    steps := a + [step];
    Join(Init(2), a, u, [step], w);
  }

  /** The idle timer closes the connection before `handleNewConnection` has queued its registration. */
  lemma ClosedFirst(fd: nat) returns (steps: seq<Step>, w: World)
    ensures Leads(Init(2), steps, w) && Resting(w, map[], -1, map[], 0)
    ensures w.conns == [HandleClose(NewConnection(fd, 0))] && w.owner == map[] && w.file == map[] && Given(w, [FIRST])
  {
    var a, u := FirstAccepted(fd);
    var b;
    b, w := Turn(u, 0, CloseTask(0), Saying(true, NoRoom));
    assert w.wire[0] == [];
    steps := a + b;
    Join(Init(2), a, u, b, w);
  }

  /** The kernel gives its descriptor to a second connection, on loop 1, with these buffers. */
  lemma Reissued(fd: nat, b: Buffers) returns (steps: seq<Step>, w: World)
    requires b.input != b.output
    ensures Leads(Init(2), steps, w) && Resting(w, map[], -1, map[], 0)
    ensures w.conns == [HandleClose(NewConnection(fd, 0)), NewConnection(fd, 1)] && w.owner == map[fd := 1] && w.file == map[]
    ensures Given(w, [FIRST, b])
  {
    var a, u := ClosedFirst(fd);
    var step := AcceptConn(fd, 1, b, []);
    One(u, step);
    w := Apply(u, step);
    steps := a + [step];
    Join(Init(2), a, u, [step], w);
  }

  /** Then the registration task of the first connection runs. */
  lemma Misfiled(fd: nat, b: Buffers) returns (steps: seq<Step>, w: World)
    requires b.input != b.output
    ensures Leads(Init(2), steps, w) && Resting(w, map[fd := 0], 0, map[], 0)
    ensures w.conns == [Register(HandleClose(NewConnection(fd, 0)), true), NewConnection(fd, 1)]
    ensures w.owner == map[fd := 1] && w.file == map[0 := 1] && Given(w, [FIRST, b])
  {
    var a, u := Reissued(fd, b);
    var more;
    more, w := Turn(u, 0, RegisterTask(0), Saying(true, NoRoom));
    var e := Queueing(u, RegisterTask(0));
    assert Watchable(e, 0, fd);
    steps := a + more;
    Join(Init(2), a, u, more, w);
  }

  /** And then that of the second. */
  lemma BothListed(fd: nat, b: Buffers) returns (steps: seq<Step>, w: World)
    requires b.input != b.output
    ensures Leads(Init(2), steps, w) && Resting(w, map[fd := 0], 0, map[fd := 1], 1)
    ensures w.conns == [Register(HandleClose(NewConnection(fd, 0)), true), Register(NewConnection(fd, 1), true)]
    ensures w.owner == map[fd := 1] && w.file == map[0 := 1, 1 := 1] && Given(w, [FIRST, b])
  {
    var a, u := Misfiled(fd, b);
    var more;
    more, w := Turn(u, 1, RegisterTask(1), Saying(true, NoRoom));
    var e := Queueing(u, RegisterTask(1));
    assert Watchable(e, 1, fd);
    steps := a + more;
    Join(Init(2), a, u, more, w);
  }

  /** A close that runs before the registration breaks callback order, ownership and the counter at once: the closed
      connection is listed under a descriptor that belongs to another one, which a second loop lists as well. */
  lemma EarlyCloseBreaks(fd: nat) returns (steps: seq<Step>, w: World)
    ensures Reached(w, 2, steps) && ClosedEarly(w, 0) && 0 < |w.conns| && |w.workers| == 2
    ensures w.conns[0].log == [OnClose, OnConnect]
    ensures fd in w.workers[0].sockets && w.workers[0].sockets[fd] == 0 && !w.conns[0].connected
    ensures fd in w.workers[1].sockets && fd in w.owner && w.owner[fd] == 1
    ensures w.workers[0].connCunt == 0 < |w.workers[0].sockets|
  {
    steps, w := BothListed(fd, Buffers(2, 3));
    CallbackOrder(w, 2, steps, 0);
  }

  /** What the first connection makes of an event, with what it finds in its output buffer. */
  function Ghost(u: World, out: Outside): Conn
    requires |u.conns| > 0
  {
    HandleEvent(Found(u, 0, out.found), out.ev, out.answers)
  }

  /** Epoll of loop 0 reports the descriptor. */
  lemma Reported(fd: nat, b: Buffers, out: Outside) returns (steps: seq<Step>, w: World)
    requires b.input != b.output
    ensures Reached(w, 2, steps) && Enabled(w, LoopStep(0, R.Dispatch, out))
    ensures w.conns == [Register(HandleClose(NewConnection(fd, 0)), true), Register(NewConnection(fd, 1), true)]
    ensures w.owner == map[fd := 1] && Given(w, [FIRST, b])
    ensures var k := w.workers[0]; k.sockets == map[fd := 0] && k.queue.batch[k.queue.pc.i] == R.Io(fd, 0)
  {
    var a, u := BothListed(fd, b);
    var step := LoopStep(0, R.Collect([R.Io(fd, 0)]), out);
    One(u, step);
    w := Apply(u, step);
    steps := a + [step];
    Join(Init(2), a, u, [step], w);
  }

  /** And the event reaches the closed connection. */
  lemma Haunted(fd: nat, b: Buffers, out: Outside) returns (past: seq<Step>, u: World, more: seq<Step>, w: World)
    requires b.input != b.output
    ensures Reached(u, 2, past) && Leads(u, more, w) && Reached(w, 2, past + more)
    ensures u.conns == [Register(HandleClose(NewConnection(fd, 0)), true), Register(NewConnection(fd, 1), true)]
    ensures u.owner == map[fd := 1] && Given(u, [FIRST, b])
    ensures var v := Haunt(u, 0, Ghost(u, out), out.spill);
            w.conns == v.conns && w.wire == v.wire && w.strays == v.strays && w.tainted == v.tainted
  {
    past, u := Reported(fd, b, out);
    var step := LoopStep(0, R.Dispatch, out);
    One(u, step);
    w := Apply(u, step);
    more := [step];
    Join(Init(2), past, u, more, w);
  }

  /** It makes a callback. */
  lemma EarlyCloseIsTouched(fd: nat) returns (past: seq<Step>, u: World, more: seq<Step>, w: World)
    ensures Reached(u, 2, past) && 0 < |u.conns| && !u.conns[0].connected
    ensures Leads(u, more, w) && 0 < |w.conns| && w.conns[0].log == [OnClose, OnConnect, OnMessage]
  {
    past, u, more, w := Haunted(fd, Buffers(2, 3), Answering([], NoRoom));
  }

  lemma AnswersInFull(c: Conn, reply: bytes)
    requires c.outBuffer == [] && c.accepted == [] && reply != []
    ensures var out := Answering(reply, Wrote(|reply|));
            var d := HandleEvent(c, out.ev, out.answers); d.accepted == reply && d.fd == c.fd
  {}

  lemma GivenAway(u: World, fd: nat, d: Conn, reply: bytes)
    requires |u.conns| == 2 && u.conns[0].accepted == [] && u.owner == map[fd := 1] && Given(u, [FIRST, Buffers(2, 3)])
    requires d.accepted == reply && d.fd == fd
    ensures var v := Haunt(u, 0, d, map[]);
            v.wire == [[], reply] && v.strays == [0, |reply|] && v.tainted == {} && |v.conns| == 2 && v.conns[1] == u.conns[1]
  {
    assert forall e: nat :: !Shares(u, 0, e);
    assert [] + reply == reply && u.wire == [[], []];
  }

  /** It answers, and the peer of the second connection is given bytes that nobody sent to it. */
  lemma StrayWrite(fd: nat, reply: bytes) returns (steps: seq<Step>, w: World)
    requires reply != []
    ensures Reached(w, 2, steps) && |w.conns| == 2 && |w.wire| == 2 && |w.strays| == 2
    ensures w.conns[1].connected && 1 !in w.tainted && w.strays[1] > 0
    ensures w.wire[1] == reply && w.conns[1].sent == []
  {
    var past, u, more;
    var out := Answering(reply, Wrote(|reply|));
    past, u, more, w := Haunted(fd, Buffers(2, 3), out);
    AnswersInFull(Found(u, 0, out.found), reply);
    GivenAway(u, fd, Ghost(u, out), reply);
    steps := past + more;
  }

  /** The second connection was given its old output buffer, and now holds output that nobody sent; epoll does not watch it
      for writing. */
  lemma PooledBuffer(fd: nat, reply: bytes) returns (steps: seq<Step>, w: World)
    requires reply != []
    ensures Reached(w, 2, steps) && |w.conns| == 2 && |w.wire| == 2 && |w.strays| == 2
    ensures w.conns[1].connected && 1 in w.tainted && w.strays[1] == 0
    ensures w.conns[1].outBuffer == reply && w.conns[1].sent == [] && w.conns[1].interest == Some(Read)
  {
    var past, u, more;
    past, u, more, w := Haunted(fd, Buffers(2, 1), Answering(reply, NoRoom));
    assert Shares(u, 0, 1);
    assert Holder(u, 0, 0) == Some(1);
    steps := past + more;
  }
}
