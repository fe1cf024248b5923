/** What connections of the server machine send, put on the wire and close, told from the tasks that are run, the events that
    are handed out and what the kernel answers, step by step and over every run. */
module ServerOutput {
  import opened Bytes
  import opened Connections
  import opened Server
  import R = Reactor

  // ---- One step ----

  /** The task a step of a loop runs. */
  function TaskOf(w: World, step: Step): Option<Task>
    requires Enabled(w, step)
  {
    if step.LoopStep? && step.step.RunTask?
    then var q := w.workers[step.l].queue; Some(q.taskQueueR[q.pc.i])
    else None
  }

  /** The connection a step of a loop hands an event to. */
  function EventFor(w: World, step: Step): Option<nat>
    requires Enabled(w, step)
  {
    if step.LoopStep? && step.step.Dispatch?
    then
      var k := w.workers[step.l];
      var item := k.queue.batch[k.queue.pc.i];
      if item.Io? && item.fd in k.sockets then Some(k.sockets[item.fd]) else None
    else None
  }

  /** What the step makes connection c send: the data of a send task, or the answer to what was read. */
  function Says(w: World, step: Step, c: nat): bytes
    requires Enabled(w, step)
  {
    if c >= |w.conns| || !w.conns[c].connected then []
    else
      match TaskOf(w, step)
      case Some(SendTask(d, data, _)) => if d == c then data else []
      case _ => if EventFor(w, step) == Some(c) then EventSends(w.conns[c], step.out.ev, step.out.answers) else []
  }

  /** What the kernel takes from connection c in this step. */
  function Puts(w: World, step: Step, c: nat): bytes
    requires Enabled(w, step)
  {
    if c >= |w.conns| || !w.conns[c].connected then []
    else
      match TaskOf(w, step)
      case Some(SendTask(d, data, _)) =>
        if d == c && w.conns[c].outBuffer == [] then Written(data, step.out.answers.first) else []
      case _ => if EventFor(w, step) == Some(c) then EventWritten(w.conns[c], step.out.ev, step.out.answers) else []
  }

  /** The step closes connection c: a close task, a write that fails, an error or the end of its input. */
  predicate Shuts(w: World, step: Step, c: nat)
    requires Enabled(w, step)
  {
    && c < |w.conns| && w.conns[c].connected
    && match TaskOf(w, step)
       case Some(CloseTask(d)) => d == c
       case Some(SendTask(d, _, _)) => d == c && w.conns[c].outBuffer == [] && step.out.answers.first.WriteFails?
       case _ => EventFor(w, step) == Some(c) && EventCloses(w.conns[c], step.out.ev, step.out.answers)
  }

  /** What a step leaves of an open connection. */
  ghost predicate Leaves(w: World, step: Step, c: nat, d: Conn)
    requires Enabled(w, step) && c < |w.conns|
  {
    && d.sent == w.conns[c].sent + Says(w, step, c) && d.accepted == w.conns[c].accepted + Puts(w, step, c)
    && (d.connected <==> !Shuts(w, step, c))
  }

  lemma PerformExactly(w: World, l: nat, task: Task, out: Outside, c: nat)
    requires Due(w, l, task) && c < |w.conns| && w.conns[c].connected
    ensures var d := w.conns[c];
            && c < |Perform(w, l, task, out).conns|
            && var e := Perform(w, l, task, out).conns[c];
               if task.SendTask? && task.c == c
               then && e.sent == d.sent + task.data
                    && e.accepted == d.accepted + (if d.outBuffer == [] then Written(task.data, out.answers.first) else [])
                    && (e.connected <==> !(d.outBuffer == [] && out.answers.first.WriteFails?))
               else && e.sent == d.sent && e.accepted == d.accepted && (e.connected <==> task != CloseTask(c))
  {
    if task.SendTask? && task.c == c {
      SendExactly(w.conns[c], task.data, out.answers.first);
      assert w.conns[c].accepted + [] == w.conns[c].accepted;
    }
  }

  lemma TaskExactly(w: World, step: Step, c: nat)
    requires Inv(w) && Enabled(w, step) && TaskOf(w, step).Some? && c < |w.conns| && w.conns[c].connected
    ensures c < |Apply(w, step).conns| && Leaves(w, step, c, Apply(w, step).conns[c])
  {
    NextIsDue(w, step.l);
    PerformExactly(w, step.l, TaskOf(w, step).value, step.out, c);
    assert Apply(w, step).conns == Perform(w, step.l, TaskOf(w, step).value, step.out).conns;
    Nothing(w.conns[c].sent);
    Nothing(w.conns[c].accepted);
  }

  lemma Nothing(b: bytes)
    ensures b + [] == b
  {}

  lemma HandleExactly(w: World, l: nat, item: R.Item, out: Outside, c: nat)
    requires l < |w.workers| && EntriesOk(w) && c < |w.conns| && w.conns[c].connected
    ensures var d, k := w.conns[c], w.workers[l].sockets;
            && c < |Handle(w, l, item, out).conns|
            && var e := Handle(w, l, item, out).conns[c];
               if item.Io? && item.fd in k && k[item.fd] == c
               then && e.sent == d.sent + EventSends(d, out.ev, out.answers)
                    && e.accepted == d.accepted + EventWritten(d, out.ev, out.answers)
                    && (e.connected <==> !EventCloses(d, out.ev, out.answers))
               else e.sent == d.sent && e.accepted == d.accepted && e.connected
  {
    var k := w.workers[l].sockets;
    if item.Io? && item.fd in k {
      assert EntryOk(w, l, item.fd);
      var d := k[item.fd];
      if d == c {
        EventExactly(w.conns[c], out.ev, out.answers);
      } else if !w.conns[d].connected {
        HauntSpares(w, d, HandleEvent(Found(w, d, out.found), out.ev, out.answers), out.spill, c);
      }
    }
  }

  lemma EventsExactly(w: World, step: Step, c: nat)
    requires Inv(w) && Enabled(w, step) && step.LoopStep? && step.step.Dispatch? && c < |w.conns| && w.conns[c].connected
    ensures c < |Apply(w, step).conns| && Leaves(w, step, c, Apply(w, step).conns[c])
  {
    var q := w.workers[step.l].queue;
    HandleExactly(w, step.l, q.batch[q.pc.i], step.out, c);
    assert Apply(w, step).conns == Handle(w, step.l, q.batch[q.pc.i], step.out).conns;
    Nothing(w.conns[c].sent);
    Nothing(w.conns[c].accepted);
  }

  /** A closed connection at work changes nothing of an open one but its output buffer. */
  lemma HauntSpares(w: World, d: nat, e: Conn, spill: map<nat, bytes>, c: nat)
    requires d < |w.conns| && c < |w.conns| && c != d
    ensures var v := Haunt(w, d, e, spill).conns; c < |v| && v[c] == w.conns[c].(outBuffer := v[c].outBuffer)
  {}

  /** What every step does to an open connection, from the tasks, the events and the answers alone. */
  lemma StepExactly(w: World, step: Step, c: nat)
    requires Inv(w) && Enabled(w, step) && c < |w.conns| && w.conns[c].connected
    ensures c < |Apply(w, step).conns| && Leaves(w, step, c, Apply(w, step).conns[c])
  {
    if TaskOf(w, step).Some? {
      TaskExactly(w, step, c);
    } else if step.LoopStep? && step.step.Dispatch? {
      EventsExactly(w, step, c);
    } else {
      Nothing(w.conns[c].sent);
      Nothing(w.conns[c].accepted);
    }
  }

  // ---- Whole runs ----

  ghost function AllSaid(w: World, steps: seq<Step>, c: nat): bytes
    requires IsRun(w, steps)
    decreases |steps|
  {
    if steps == [] then [] else Says(w, steps[0], c) + AllSaid(Apply(w, steps[0]), steps[1..], c)
  }

  ghost function AllPut(w: World, steps: seq<Step>, c: nat): bytes
    requires IsRun(w, steps)
    decreases |steps|
  {
    if steps == [] then [] else Puts(w, steps[0], c) + AllPut(Apply(w, steps[0]), steps[1..], c)
  }

  ghost predicate EverShut(w: World, steps: seq<Step>, c: nat)
    requires IsRun(w, steps)
    decreases |steps|
  {
    steps != [] && (Shuts(w, steps[0], c) || EverShut(Apply(w, steps[0]), steps[1..], c))
  }

  lemma HastyStays(w: World, step: Step, c: nat)
    requires Inv(w) && Enabled(w, step) && c < |w.conns| && Hasty(w.conns[c])
    ensures c < |Apply(w, step).conns| && Hasty(Apply(w, step).conns[c])
  {
    if step.LoopStep? {
      EffectEvolves(w, step.l, step.step, step.out, c);
      assert Apply(w, step).conns == Effect(w, step.l, step.step, step.out).conns;
    }
  }

  lemma {:induction false} HastyForGood(w: World, steps: seq<Step>, c: nat)
    requires Inv(w) && IsRun(w, steps) && c < |w.conns| && Hasty(w.conns[c])
    ensures c < |Final(w, steps).conns| && Hasty(Final(w, steps).conns[c])
    decreases |steps|
  {
    if steps != [] {
      HastyStays(w, steps[0], c);
      InvStep(w, steps[0]);
      HastyForGood(Apply(w, steps[0]), steps[1..], c);
    }
  }

  lemma NothingSaid(w: World, steps: seq<Step>, c: nat)
    requires Inv(w) && IsRun(w, steps) && c < |w.conns| && !w.conns[c].connected && !Hasty(w.conns[c])
    ensures AllSaid(w, steps, c) == [] && AllPut(w, steps, c) == [] && !EverShut(w, steps, c)
    decreases |steps|
  {
    if steps != [] {
      ClosedStep(w, steps[0], c);
      InvStep(w, steps[0]);
      NothingSaid(Apply(w, steps[0]), steps[1..], c);
    }
  }

  /** The state of a connection after a run, from its state before and what the run did. */
  ghost predicate Told(c: Conn, d: Conn, said: bytes, put: bytes, shut: bool)
  {
    d.sent == c.sent + said && d.accepted == c.accepted + put && (d.connected <==> c.connected && !shut)
  }

  lemma Regroup(a: bytes, b: bytes, c: bytes)
    ensures (a + b) + c == a + (b + c) && a + [] == a
  {}

  lemma TellStep(c: Conn, d: Conn, e: Conn, said: bytes, put: bytes, shut: bool, said': bytes, put': bytes, shut': bool)
    requires c.connected && Told(c, d, said, put, shut) && Told(d, e, said', put', shut')
    ensures Told(c, e, said + said', put + put', shut || shut')
  {
    Regroup(c.sent, said, said');
    Regroup(c.accepted, put, put');
  }

  lemma {:induction false} RunTells(w: World, steps: seq<Step>, c: nat)
    requires Inv(w) && IsRun(w, steps) && c < |w.conns| && w.conns[c].connected
    ensures c < |Final(w, steps).conns|
    ensures !Hasty(Final(w, steps).conns[c]) ==>
              Told(w.conns[c], Final(w, steps).conns[c], AllSaid(w, steps, c), AllPut(w, steps, c), EverShut(w, steps, c))
    decreases |steps|, 0
  {
    if steps == [] {
      Regroup(w.conns[c].sent, [], []);
      Regroup(w.conns[c].accepted, [], []);
    } else {
      var v := Apply(w, steps[0]);
      StepExactly(w, steps[0], c);
      InvStep(w, steps[0]);
      TellRest(v, steps[1..], c);
      if !Hasty(Final(v, steps[1..]).conns[c]) {
        TellStep(w.conns[c], v.conns[c], Final(v, steps[1..]).conns[c], Says(w, steps[0], c), Puts(w, steps[0], c),
                 Shuts(w, steps[0], c), AllSaid(v, steps[1..], c), AllPut(v, steps[1..], c), EverShut(v, steps[1..], c));
      }
    }
  }

  /** The same for a connection that may be closed already. */
  lemma {:induction false} TellRest(w: World, steps: seq<Step>, c: nat)
    requires Inv(w) && IsRun(w, steps) && c < |w.conns|
    ensures c < |Final(w, steps).conns|
    ensures !Hasty(Final(w, steps).conns[c]) ==>
              Told(w.conns[c], Final(w, steps).conns[c], AllSaid(w, steps, c), AllPut(w, steps, c), EverShut(w, steps, c))
    decreases |steps|, 1
  {
    if w.conns[c].connected {
      RunTells(w, steps, c);
    } else if Hasty(w.conns[c]) {
      HastyForGood(w, steps, c);
    } else {
      ClosedRun(w, steps, c);
      NothingSaid(w, steps, c);
      Regroup(w.conns[c].sent, [], []);
      Regroup(w.conns[c].accepted, [], []);
    }
  }

  lemma NewSpeaker(w: World, step: Step)
    requires Enabled(w, step) && step.AcceptConn?
    ensures var c, v := |w.conns|, Apply(w, step);
            c < |v.conns| && v.conns[c].sent == [] && v.conns[c].accepted == [] && v.conns[c].connected
  {}

  lemma {:induction false} FromTheStart(w: World, steps: seq<Step>, c: nat)
    requires Inv(w) && IsRun(w, steps) && |w.conns| <= c < |Final(w, steps).conns| && !Hasty(Final(w, steps).conns[c])
    ensures var d := Final(w, steps).conns[c];
            d.sent == AllSaid(w, steps, c) && d.accepted == AllPut(w, steps, c) && (d.connected <==> !EverShut(w, steps, c))
    decreases |steps|
  {
    var step, v := steps[0], Apply(w, steps[0]);
    InvStep(w, step);
    if c < |v.conns| {
      if step.LoopStep? {
        EffectShape(w, step.l, step.step, step.out);
        assert false;
      }
      NewSpeaker(w, step);
      TellRest(v, steps[1..], c);
    } else {
      FromTheStart(v, steps[1..], c);
    }
  }

  /** Over every run: what a connection has sent is, in order, the data of the send tasks run while it was open and the
      answers to what was read on it; what the kernel took from it is what it answered to the writes of these steps; and it
      is open if and only if none of them closed it. */
  lemma SentExactly(w: World, n: nat, steps: seq<Step>, c: nat)
    requires Reached(w, n, steps) && c < |w.conns| && !ClosedEarly(w, c)
    ensures w.conns[c].sent == AllSaid(Init(n), steps, c) && w.conns[c].accepted == AllPut(Init(n), steps, c)
    ensures w.conns[c].connected <==> !EverShut(Init(n), steps, c)
  {
    ReachedInv(w, n, steps);
    EarlyIsHasty(w, c);
    InitInv(n);
    FromTheStart(Init(n), steps, c);
  }

  // ---- Tasks that are run ----

  /** The connections in v are those in w but for c. */
  predicate OnlyOne(w: World, v: World, c: nat)
  {
    c < |v.conns| == |w.conns| && forall e: nat :: e < |v.conns| && e != c ==> v.conns[e] == w.conns[e]
  }

  predicate Lists(v: World, l: nat, fd: nat, c: nat)
  {
    l < |v.workers| && fd in v.workers[l].sockets && v.workers[l].sockets[fd] == c
  }

  /** What running a task on loop l has done. */
  predicate Did(w: World, l: nat, task: Task, out: Outside, v: World)
  {
    match task
    case UserTask(_) => v.conns == w.conns
    case CloseTask(c) =>
      && OnlyOne(w, v, c) && !v.conns[c].connected
      && v.conns[c].log == w.conns[c].log + (if w.conns[c].connected then [OnClose] else [])
    case SendTask(c, data, finish) =>
      && OnlyOne(w, v, c)
      && if w.conns[c].connected
         then && v.conns[c].sent == w.conns[c].sent + data
              && v.conns[c].log == w.conns[c].log + (if v.conns[c].connected then [] else [OnClose])
                                   + (if finish then [OnSent] else [])
         else v.conns[c] == w.conns[c]
    case RegisterTask(c) =>
      && OnlyOne(w, v, c) && v.conns[c].log == w.conns[c].log + [OnConnect]
      && if out.ok && Watchable(w, l, w.conns[c].fd)
         then v.conns[c].phase == Registered && Lists(v, l, w.conns[c].fd, c)
         else v.conns[c].phase == Failed && Unlisted(v, l, w.conns[c].fd)
  }

  predicate Unlisted(v: World, l: nat, fd: nat)
  {
    l < |v.workers| && fd !in v.workers[l].sockets
  }

  lemma PerformDone(w: World, l: nat, task: Task, out: Outside)
    requires TablesOk(w) && Due(w, l, task)
    ensures Did(w, l, task, out, Perform(w, l, task, out))
  {
    if task.SendTask? && w.conns[task.c].connected {
      assert ConnOk(w, task.c);
      SendTaskKeeps(w.conns[task.c], task.data, task.finish, out.answers.first);
    }
    assert forall x: seq<Callback> :: x + [] == x;
  }

  /** What running a task does, whatever it is: a registration makes `OnConnect` its connection's next callback and lists the
      connection exactly when epoll takes it, a send to an open connection sends its data, a close leaves its connection
      closed, and no other connection is changed. */
  lemma TaskDone(w: World, n: nat, past: seq<Step>, l: nat, out: Outside)
    requires Reached(w, n, past) && Enabled(w, LoopStep(l, R.RunTask, out))
    ensures var step := LoopStep(l, R.RunTask, out); Did(w, l, TaskOf(w, step).value, out, Apply(w, step))
  {
    ReachedInv(w, n, past);
    NextIsDue(w, l);
    PerformDone(w, l, TaskOf(w, LoopStep(l, R.RunTask, out)).value, out);
  }

  // ---- A send is sent ----

  lemma ExecutedStep(w: World, step: Step, l: nat)
    requires Enabled(w, step) && l < |w.workers|
    ensures l < |Apply(w, step).workers|
    ensures Executed(Apply(w, step), l)
            == Executed(w, l) + if step.LoopStep? && step.l == l && TaskOf(w, step).Some? then [TaskOf(w, step).value] else []
  {
    if step.LoopStep? {
      StepFollows(w, step.l, step.step, step.out);
    }
  }

  lemma {:induction false} ExecutedGrows(w: World, steps: seq<Step>, l: nat)
    requires IsRun(w, steps) && l < |w.workers|
    ensures l < |Final(w, steps).workers| && Executed(w, l) <= Executed(Final(w, steps), l)
    decreases |steps|
  {
    if steps != [] {
      ExecutedStep(w, steps[0], l);
      ExecutedGrows(Apply(w, steps[0]), steps[1..], l);
    }
  }

  lemma OpenAllAlong(w: World, steps: seq<Step>, c: nat)
    requires Inv(w) && IsRun(w, steps) && c < |w.conns| && c < |Final(w, steps).conns| && Final(w, steps).conns[c].connected
    ensures w.conns[c].connected
  {
    InvRun(w, steps);
    assert ConnOk(Final(w, steps), c);
    TellRest(w, steps, c);
  }

  ghost predicate Contains(x: bytes, part: bytes)
  {
    exists a: bytes, b: bytes :: x == a + part + b
  }

  lemma ContainsFirst(part: bytes, rest: bytes)
    ensures Contains(part + rest, part)
  {
    assert part + rest == [] + part + rest;
  }

  lemma ContainsLater(first: bytes, x: bytes, part: bytes)
    requires Contains(x, part)
    ensures Contains(first + x, part)
  {
    var a: bytes, b: bytes :| x == a + part + b;
    assert first + x == (first + a) + part + b;
  }

  /** A step that runs a send to an open connection makes it say the data. */
  lemma SaidNow(w: World, step: Step, l: nat, c: nat, task: Task)
    requires Enabled(w, step) && l < |w.workers| && c < |w.conns| && w.conns[c].connected && task.SendTask? && task.c == c
    requires l < |Apply(w, step).workers| && |Executed(w, l)| < |Executed(Apply(w, step), l)|
    requires Executed(Apply(w, step), l)[|Executed(w, l)|] == task
    ensures Says(w, step, c) == task.data
  {
    ExecutedStep(w, step, l);
  }

  /** A send that was run between two worlds is part of what an open connection said in between. */
  lemma {:induction false} SaidIncludes(w: World, steps: seq<Step>, l: nat, c: nat, j: nat, task: Task)
    requires Inv(w) && IsRun(w, steps) && c < |w.conns| && l < |w.workers| && task.SendTask? && task.c == c
    requires c < |Final(w, steps).conns| && Final(w, steps).conns[c].connected && l < |Final(w, steps).workers|
    requires |Executed(w, l)| <= j < |Executed(Final(w, steps), l)| && Executed(Final(w, steps), l)[j] == task
    ensures Contains(AllSaid(w, steps, c), task.data)
    decreases |steps|
  {
    var step, rest, v := steps[0], steps[1..], Apply(w, steps[0]);
    InvStep(w, step);
    StillThere(w, step, c);
    OpenAllAlong(w, steps, c);
    ExecutedStep(w, step, l);
    ExecutedGrows(v, rest, l);
    if j < |Executed(v, l)| {
      assert Executed(v, l)[j] == task;
      SaidNow(w, step, l, c, task);
      ContainsFirst(task.data, AllSaid(v, rest, c));
    } else {
      SaidIncludes(v, rest, l, c, j, task);
      ContainsLater(Says(w, step, c), AllSaid(v, rest, c), task.data);
    }
  }

  lemma StillThere(w: World, step: Step, c: nat)
    requires Enabled(w, step) && c < |w.conns|
    ensures c < |Apply(w, step).conns|
  {
    if step.LoopStep? {
      EffectShape(w, step.l, step.step, step.out);
    }
  }

  lemma QueuedNow(w: World, n: nat, past: seq<Step>, l: nat, p: nat, task: Task, out: Outside) returns (v: World)
    requires Reached(w, n, past) && l < |w.workers| && p !in w.workers[l].queue.threads && CanAppend(w, l, task)
    ensures Enabled(w, LoopStep(l, R.Append(p, task), out)) && v == Apply(w, LoopStep(l, R.Append(p, task), out))
    ensures Reached(v, n, past + [LoopStep(l, R.Append(p, task), out)]) && l < |v.workers|
    ensures Appended(v, l) == Appended(w, l) + [task] && Executed(v, l) == Executed(w, l) && Executed(w, l) <= Appended(w, l)
    ensures v.workers[l].queue.running == w.workers[l].queue.running && v.workers[l].queue.pc == w.workers[l].queue.pc
  {
    var step := LoopStep(l, R.Append(p, task), out);
    v := Apply(w, step);
    StepFollows(w, l, R.Append(p, task), out);
    ProjectStep(w, step, l);
    LongerRun(Init(n), past, step);
    ReachedInv(w, n, past);
    LoopsAreReactors(w, n, past, l);
    R.FifoExactlyOnce(w.workers[l].queue, Projection(past, l));
  }

  lemma {:induction false} LongerRun(w: World, steps: seq<Step>, step: Step)
    requires IsRun(w, steps) && Enabled(Final(w, steps), step)
    ensures IsRun(w, steps + [step]) && Final(w, steps + [step]) == Apply(Final(w, steps), step)
    decreases |steps|
  {
    if steps == [] {
      assert steps + [step] == [step] && [step][1..] == [];
    } else {
      assert (steps + [step])[1..] == steps[1..] + [step];
      LongerRun(Apply(w, steps[0]), steps[1..], step);
    }
  }

  /** From every reachable world: a send queued to an open connection can be run, after everything queued before it, by the
      steps of its running loop and the eventfd writes already owed, whatever the outside answers; and then its data is part
      of what the connection has sent since, unless something closed the connection first. */
  lemma SendIsSent(w: World, n: nat, past: seq<Step>, l: nat, p: nat, c: nat, data: bytes, finish: bool, out: Outside,
                   outs: nat -> Outside) returns (steps: seq<Step>, v: World)
    requires Reached(w, n, past) && c < |w.conns| && w.conns[c].loop == l < |w.workers| && w.conns[c].phase != Created
    requires (w.workers[l].queue.running || w.workers[l].queue.pc == R.Starting) && p !in w.workers[l].queue.threads
    ensures var step := LoopStep(l, R.Append(p, SendTask(c, data, finish)), out);
            Enabled(w, step) && IsRun(Apply(w, step), steps) && v == Final(Apply(w, step), steps)
    ensures l < |v.workers| && Executed(v, l) == Appended(w, l) + [SendTask(c, data, finish)]
    ensures c < |v.conns|
    ensures v.conns[c].connected ==> exists more :: v.conns[c].sent == w.conns[c].sent + more && Contains(more, data)
  {
    var task := SendTask(c, data, finish);
    var u := QueuedNow(w, n, past, l, p, task, out);
    ReachedInv(u, n, past + [LoopStep(l, R.Append(p, task), out)]);
    steps, v := TasksCanRun(u, n, past + [LoopStep(l, R.Append(p, task), out)], l, outs);
    TellRest(u, steps, c);
    if v.conns[c].connected {
      InvRun(u, steps);
      assert ConnOk(v, c);
      SaidIncludes(u, steps, l, c, |Appended(w, l)|, task);
      assert v.conns[c].sent == w.conns[c].sent + AllSaid(u, steps, c);
    }
  }

  /** A close task that was run between two worlds has closed its connection. */
  lemma {:induction false} ShutIncludes(w: World, steps: seq<Step>, l: nat, c: nat, j: nat)
    requires Inv(w) && IsRun(w, steps) && c < |w.conns| && l < |w.workers| && l < |Final(w, steps).workers|
    requires |Executed(w, l)| <= j < |Executed(Final(w, steps), l)| && Executed(Final(w, steps), l)[j] == CloseTask(c)
    ensures c < |Final(w, steps).conns| && !Final(w, steps).conns[c].connected
    decreases |steps|
  {
    var step, rest, v := steps[0], steps[1..], Apply(w, steps[0]);
    InvStep(w, step);
    StillThere(w, step, c);
    ExecutedStep(w, step, l);
    ExecutedGrows(v, rest, l);
    TellRest(v, rest, c);
    if j < |Executed(v, l)| {
      assert Executed(v, l)[j] == CloseTask(c);
      ShutNow(w, step, c);
      if Final(v, rest).conns[c].connected {
        OpenAllAlong(v, rest, c);
        assert false;
      }
    } else {
      ShutIncludes(v, rest, l, c, j);
    }
  }

  lemma ShutNow(w: World, step: Step, c: nat)
    requires Inv(w) && Enabled(w, step) && TaskOf(w, step) == Some(CloseTask(c)) && c < |w.conns|
    ensures c < |Apply(w, step).conns| && !Apply(w, step).conns[c].connected
  {
    NextIsDue(w, step.l);
    PerformDone(w, step.l, CloseTask(c), step.out);
    assert Apply(w, step).conns == Perform(w, step.l, CloseTask(c), step.out).conns;
  }

  /** From every reachable world: a close queued to a connection can be run in the same way, and leaves it closed. */
  lemma CloseIsDone(w: World, n: nat, past: seq<Step>, l: nat, p: nat, c: nat, out: Outside, outs: nat -> Outside)
    returns (steps: seq<Step>, v: World)
    requires Reached(w, n, past) && c < |w.conns| && w.conns[c].loop == l < |w.workers|
    requires (w.workers[l].queue.running || w.workers[l].queue.pc == R.Starting) && p !in w.workers[l].queue.threads
    ensures var step := LoopStep(l, R.Append(p, CloseTask(c)), out);
            Enabled(w, step) && IsRun(Apply(w, step), steps) && v == Final(Apply(w, step), steps)
    ensures c < |v.conns| && !v.conns[c].connected
  {
    var u := QueuedNow(w, n, past, l, p, CloseTask(c), out);
    ReachedInv(u, n, past + [LoopStep(l, R.Append(p, CloseTask(c)), out)]);
    steps, v := TasksCanRun(u, n, past + [LoopStep(l, R.Append(p, CloseTask(c)), out)], l, outs);
    ShutIncludes(u, steps, l, c, |Appended(w, l)|);
  }
}
