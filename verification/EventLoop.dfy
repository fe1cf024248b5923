/** eventloop/eventloop.go as an object: the two task slices over their backing arrays, the wake flag, the socket table
    and the counter. Reactor.dfy has the same steps interleaved with other goroutines; here one call runs to its end. */
module EventLoops {
  import opened Bytes
  import opened Connections

  /** A queued function; running it may queue more. */
  datatype Task = Task(id: nat, queues: seq<Task>)

  /** Queueing these tasks took `needWake` and the eventfd counter from one value to the other. */
  predicate Waking(queued: seq<Task>, need: bool, fd: nat, need': bool, fd': nat)
  {
    if queued == [] then need' == need && fd' == fd else !need' && fd' == fd + if need then 1 else 0
  }

  /** The tasks a list of tasks queues when they run one after the other. */
  function QueuedBy(tasks: seq<Task>): seq<Task>
  {
    if tasks == [] then [] else QueuedBy(tasks[..|tasks| - 1]) + tasks[|tasks| - 1].queues
  }

  lemma QueuedBySnoc(tasks: seq<Task>, i: nat)
    requires i < |tasks|
    ensures QueuedBy(tasks[..i + 1]) == QueuedBy(tasks[..i]) + tasks[i].queues
  {
    assert tasks[..i + 1][..i] == tasks[..i];
  }

  class EventLoop {
    var taskQueueW: array<Task>
    var lenW: nat
    var taskQueueR: array<Task>
    var lenR: nat
    var needWake: bool
    var eventfd: nat
    var sockets: map<nat, nat>
    var connCunt: int
    /** What epoll watches each registered descriptor for. */
    var watched: map<nat, Interest>
    ghost var executed: seq<Task>
    /** How often a descriptor was deleted that epoll did not watch. */
    ghost var strays: nat

    /** The two slices never share storage. Whatever is listed is watched, and the counter is the number of watched
        descriptors less the deletions of descriptors that were not. */
    ghost predicate Valid()
      reads this
    {
      && taskQueueW != taskQueueR && lenW <= taskQueueW.Length && lenR <= taskQueueR.Length
      && sockets.Keys <= watched.Keys && connCunt == |watched| - strays
    }

    ghost function W(): seq<Task>
      requires Valid()
      reads this, taskQueueW
    {
      taskQueueW[..lenW]
    }

    ghost function R(): seq<Task>
      requires Valid()
      reads this, taskQueueR
    {
      taskQueueR[..lenR]
    }

    constructor (capacity: nat)
      ensures Valid() && fresh(taskQueueW) && fresh(taskQueueR)
      ensures W() == [] && R() == [] && needWake && eventfd == 0 && sockets == map[] && connCunt == 0 && executed == []
    {
      taskQueueW, taskQueueR := new Task[capacity](_ => Task(0, [])), new Task[capacity](_ => Task(0, []));
      lenW, lenR, needWake, eventfd, connCunt := 0, 0, true, 0, 0;
      sockets, watched, executed, strays := map[], map[], [], 0;
    }

    /** `append(l.taskQueueW, f)` under the lock: in place if there is room, else into a larger new array. */
    method Append(f: Task)
      requires Valid()
      modifies `taskQueueW, `lenW, taskQueueW
      ensures Valid() && (taskQueueW == old(taskQueueW) || fresh(taskQueueW))
      ensures W() == old(W()) + [f] && taskQueueR[..] == old(taskQueueR[..])
    {
      if lenW == taskQueueW.Length {
        var bigger := new Task[2 * lenW + 1](_ => f);
        forall i | 0 <= i < lenW {
          bigger[i] := taskQueueW[i];
        }
        taskQueueW := bigger;
      }
      taskQueueW[lenW] := f;
      lenW := lenW + 1;
    }

    /** Append, then wake the loop unless somebody already has. */
    method QueueInLoop(f: Task)
      requires Valid()
      modifies `taskQueueW, `lenW, `needWake, `eventfd, taskQueueW
      ensures Valid() && (taskQueueW == old(taskQueueW) || fresh(taskQueueW))
      ensures W() == old(W()) + [f] && taskQueueR[..] == old(taskQueueR[..])
      ensures !needWake && eventfd == old(eventfd) + (if old(needWake) then 1 else 0)
    {
      Append(f);
      if needWake {
        needWake := false;
        eventfd := eventfd + 1;
      }
    }

    /** Run a task: everything it queues goes to the end of taskQueueW. */
    method Run(task: Task)
      requires Valid()
      modifies `taskQueueW, `lenW, `needWake, `eventfd, `executed, taskQueueW
      ensures Valid() && (taskQueueW == old(taskQueueW) || fresh(taskQueueW))
      ensures W() == old(W()) + task.queues && taskQueueR[..] == old(taskQueueR[..])
      ensures executed == old(executed) + [task] && Waking(task.queues, old(needWake), old(eventfd), needWake, eventfd)
    {
      executed := executed + [task];
      for i := 0 to |task.queues|
        invariant Valid() && (taskQueueW == old(taskQueueW) || fresh(taskQueueW))
        invariant W() == old(W()) + task.queues[..i] && taskQueueR[..] == old(taskQueueR[..])
        invariant executed == old(executed) + [task] && Waking(task.queues[..i], old(needWake), old(eventfd), needWake, eventfd)
      {
        QueueInLoop(task.queues[i]);
        assert task.queues[..i + 1] == task.queues[..i] + [task.queues[i]];
      }
    }

    /** The loop over taskQueueR. What the tasks queue meanwhile ends up in the other slice and disturbs nothing. */
    method RunAll(ghost tasks: seq<Task>)
      requires Valid() && R() == tasks && W() == []
      modifies `taskQueueW, `lenW, `needWake, `eventfd, `executed, taskQueueW
      ensures Valid() && (taskQueueW == old(taskQueueW) || fresh(taskQueueW)) && R() == tasks
      ensures executed == old(executed) + tasks && W() == QueuedBy(tasks)
      ensures Waking(QueuedBy(tasks), old(needWake), old(eventfd), needWake, eventfd)
    {
      var length := lenR;
      for i := 0 to length
        invariant Valid() && (taskQueueW == old(taskQueueW) || fresh(taskQueueW)) && R() == tasks
        invariant W() == QueuedBy(tasks[..i]) && executed == old(executed) + tasks[..i]
        invariant Waking(W(), old(needWake), old(eventfd), needWake, eventfd)
      {
        assert taskQueueR[i] == R()[i];
        Run(taskQueueR[i]);
        QueuedBySnoc(tasks, i);
        assert tasks[..i + 1] == tasks[..i] + [tasks[i]];
      }
      assert tasks[..length] == tasks;
    }

    /** Swap the slices, run what was queued at that moment, in order and once, and truncate. The eventfd is written for
        the tasks that these tasks queue, once and only if nobody else has a wake pending. */
    method DoPendingFunc()
      requires Valid() && R() == []
      modifies `taskQueueW, `lenW, `taskQueueR, `lenR, `needWake, `eventfd, `executed, taskQueueW, taskQueueR
      ensures Valid() && R() == []
      ensures executed == old(executed) + old(W()) && W() == QueuedBy(old(W()))
      ensures Waking(W(), old(needWake), old(eventfd), needWake, eventfd)
    {
      ghost var tasks := W();
      taskQueueW, taskQueueR := taskQueueR, taskQueueW;
      lenW, lenR := lenR, lenW;
      RunAll(tasks);
      lenR := 0;
    }

    /** The part of `handlerEvent` that runs after a batch with the eventfd in it. */
    method HandleWake()
      requires Valid() && R() == []
      modifies `taskQueueW, `lenW, `taskQueueR, `lenR, `needWake, `eventfd, `executed, taskQueueW, taskQueueR
      ensures Valid() && R() == []
      ensures executed == old(executed) + old(W()) && W() == QueuedBy(old(W()))
      ensures (needWake <==> W() == []) && eventfd == old(eventfd) + (if W() == [] then 0 else 1)
    {
      needWake := true;
      DoPendingFunc();
    }

    /** `EPOLL_CTL_ADD` fails for a descriptor already registered, and may fail otherwise; the table entry is taken
        back then and the counter is not raised. */
    method AddSocketAndEnableRead(fd: nat, s: nat, refused: bool) returns (ok: bool)
      requires Valid()
      modifies `sockets, `connCunt, `watched
      ensures Valid() && (ok <==> fd !in old(watched) && !refused)
      ensures ok ==> sockets == old(sockets)[fd := s] && watched == old(watched)[fd := Read]
      ensures !ok ==> sockets == old(sockets) - {fd} && watched == old(watched)
    {
      sockets := sockets[fd := s];
      ok := fd !in watched && !refused;
      if !ok {
        sockets := sockets - {fd};
        return;
      }
      watched := watched[fd := Read];
      assert watched.Keys == old(watched.Keys) + {fd};
      connCunt := connCunt + 1;
    }

    /** The descriptor is neither listed nor watched afterwards, and nothing else changes; the counter still counts what is
        watched, except that a descriptor that was not watched puts it one too low for good. */
    method DeleteFdInLoop(fd: nat)
      requires Valid()
      modifies `sockets, `connCunt, `watched, `strays
      ensures Valid() && strays == old(strays) + if fd in old(watched) then 0 else 1
      ensures fd !in watched && forall f :: f != fd ==> (f in watched <==> f in old(watched)) && (f in sockets <==> f in old(sockets))
      ensures forall f <- sockets :: sockets[f] == old(sockets)[f]
    {
      if fd !in watched {
        strays := strays + 1;
      }
      watched := watched - {fd};
      assert watched.Keys == old(watched.Keys) - {fd};
      sockets := sockets - {fd};
      connCunt := connCunt - 1;
    }
  }
}
