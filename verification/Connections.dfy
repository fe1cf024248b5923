/** A connection as the event loop sees it: its descriptor, what epoll watches it for, its output, and the callbacks
    made so far. Every handler of connection.go is a function of the connection and of what the kernel answers. */
module Connections {
  import opened Bytes

  /** What epoll watches a registered descriptor for. */
  datatype Interest = Read | ReadWrite

  /** `OnSent` is the function a `Send` may be given to be called when it is done (`sendInLoopFinish`). */
  datatype Callback = OnConnect | OnMessage | OnSent | OnClose

  /** How far the registration task queued by `handleNewConnection` has come. */
  datatype Phase = Created | Queued | Registered | Failed

  /** `unix.Write`: the kernel takes up to n bytes, has no room, or reports an error. */
  datatype WriteResult = Wrote(n: nat) | NoRoom | WriteFails

  /** `unix.Read`, together with what the protocol and the callbacks make of the bytes: so many messages, and so many
      bytes of replies. */
  datatype ReadResult = Got(messages: nat, reply: bytes) | NothingYet | Ended

  datatype Events = Events(err: bool, write: bool, read: bool)

  /** Answers of the kernel during one `HandleEvent`; `cut` is where the output ring buffer wraps. */
  datatype Answers = Answers(input: ReadResult, cut: nat, first: WriteResult, second: WriteResult)

  datatype Conn = Conn(
    fd: nat,
    loop: nat,
    phase: Phase,
    connected: bool,
    interest: Option<Interest>,
    outBuffer: bytes,
    sent: bytes,            // everything ever passed to sendInLoop
    accepted: bytes,        // everything the kernel ever took from this connection
    log: seq<Callback>)

  function NewConnection(fd: nat, loop: nat): Conn
  {
    Conn(fd, loop, Created, true, None, [], [], [], [])
  }

  /** `EPOLL_CTL_MOD`: fails, changing nothing, when the descriptor is not registered. */
  function Watch(c: Conn, i: Interest): (d: Conn)
    ensures SameIdentity(c, d)
  {
    if c.interest.None? then c else c.(interest := Some(i))
  }

  /** The buffers go back to the pool. */
  function HandleClose(c: Conn): (d: Conn)
    ensures SameIdentity(c, d)
  {
    if c.connected then c.(connected := false, interest := None, outBuffer := [], log := c.log + [OnClose]) else c
  }

  function Accept(c: Conn, data: bytes): Conn
  {
    c.(accepted := c.accepted + data)
  }

  function SendInLoop(c: Conn, data: bytes, w: WriteResult): (d: Conn)
    ensures SameIdentity(c, d)
  {
    var d := c.(sent := c.sent + data);
    if c.outBuffer != [] then d.(outBuffer := c.outBuffer + data)
    else
      match w
      case WriteFails => HandleClose(d)
      case NoRoom => if data == [] then d else Watch(d.(outBuffer := data), ReadWrite)
      case Wrote(n) =>
        var m := Min(n, |data|);
        var e := Accept(d, data[..m]);
        if m == |data| then e else Watch(e.(outBuffer := data[m..]), ReadWrite)
  }

  /** The task `Send` queues: nothing if the connection is closed by then; otherwise the finish function is called after
      `sendInLoop`, whose result is not looked at. */
  function SendTask(c: Conn, data: bytes, finish: bool, w: WriteResult): (d: Conn)
    ensures SameIdentity(c, d)
  {
    if !c.connected then c
    else
      var d := SendInLoop(c, data, w);
      if finish then d.(log := d.log + [OnSent]) else d
  }

  /** One `unix.Write` of a segment of the output buffer, from its front; the second result tells whether to go on. */
  function Flush(c: Conn, segment: nat, w: WriteResult): (r: (Conn, bool))
    requires segment <= |c.outBuffer|
    ensures SameIdentity(c, r.0)
  {
    match w
    case WriteFails => (HandleClose(c), false)
    case NoRoom => (c, false)
    case Wrote(n) =>
      var m := Min(n, segment);
      (Accept(c, c.outBuffer[..m]).(outBuffer := c.outBuffer[m..]), m == segment)
  }

  function Unwatch(c: Conn): (d: Conn)
    ensures SameIdentity(c, d)
  {
    if c.outBuffer == [] then Watch(c, Read) else c
  }

  function HandleWrite(c: Conn, cut: nat, first: WriteResult, second: WriteResult): (d: Conn)
    requires cut <= |c.outBuffer|
    ensures SameIdentity(c, d)
  {
    var (d, full) := Flush(c, cut, first);
    if !d.connected || first == NoRoom then d
    else if full && cut < |c.outBuffer| then
      var (e, _) := Flush(d, |d.outBuffer|, second);
      if !e.connected || second == NoRoom then e else Unwatch(e)
    else Unwatch(d)
  }

  function Messages(n: nat): seq<Callback>
  {
    seq(n, _ => OnMessage)
  }

  lemma MessagesSnoc(log: seq<Callback>, n: nat)
    ensures (log + Messages(n)) + [OnMessage] == log + Messages(n + 1)
  {}

  function HandleRead(c: Conn, input: ReadResult, w: WriteResult): (d: Conn)
    ensures SameIdentity(c, d)
  {
    match input
    case NothingYet => c
    case Ended => HandleClose(c)
    case Got(messages, reply) =>
      var d := c.(log := c.log + Messages(messages));
      if reply == [] then d else SendInLoop(d, reply, w)
  }

  /** Length of the first of the two segments a peek returns: all of it unless the storage wraps inside. */
  function FirstSegment(out: bytes, cut: nat): nat
  {
    if 0 < cut < |out| then cut else |out|
  }

  function HandleEvent(c: Conn, ev: Events, k: Answers): (d: Conn)
    ensures SameIdentity(c, d)
  {
    if ev.err then HandleClose(c)
    else if c.outBuffer != [] then
      if ev.write then HandleWrite(c, FirstSegment(c.outBuffer, k.cut), k.first, k.second) else c
    else if ev.read then HandleRead(c, k.input, k.first)
    else c
  }

  /** The registration task: `OnConnect`, then `AddSocketAndEnableRead`, which fails when epoll refuses the descriptor. */
  function Register(c: Conn, ok: bool): Conn
  {
    c.(log := c.log + [OnConnect], phase := if ok then Registered else Failed, interest := if ok then Some(Read) else None)
  }

  // ---- What holds of every connection between loop steps ----

  /** Bytes are neither lost, repeated nor reordered on the way out. */
  ghost predicate Conserved(c: Conn)
  {
    && c.accepted <= c.sent
    && (c.connected ==> c.accepted + c.outBuffer == c.sent)
  }

  /** Write interest exactly while there is output to flush. */
  predicate InterestMatches(c: Conn)
  {
    c.interest == if !c.connected || c.phase != Registered then None
                  else Some(if c.outBuffer == [] then Read else ReadWrite)
  }

  /** `OnConnect` first and only there; `OnClose` once, last but for the finish function of the send that closed. */
  predicate Ordered(log: seq<Callback>)
  {
    && log != [] && log[0] == OnConnect
    && forall i :: 1 <= i < |log| ==>
         && log[i] != OnConnect
         && (log[i] == OnClose ==> i == |log| - 1 || (i == |log| - 2 && log[|log| - 1] == OnSent))
  }

  /** No callback before the registration task; after it they are in order, and `OnClose` is among them exactly when the
      connection is closed. */
  predicate Lifecycle(c: Conn)
  {
    if !Settled(c) then c.connected && c.log == [] && c.sent == []
    else Ordered(c.log) && (c.connected <==> OnClose !in c.log)
  }

  /** Closed before its registration task ran. */
  predicate Hasty(c: Conn) { c.log != [] && c.log[0] == OnClose }

  /** What holds whatever happens to the buffers: the callbacks are in order, and epoll watches exactly the registered. */
  predicate ConnInv(c: Conn)
  {
    if Hasty(c) then !c.connected else Lifecycle(c) && (c.interest.Some? <==> c.connected && c.phase == Registered)
  }

  /** What holds as long as nobody else works on the connection's buffers. */
  ghost predicate Flow(c: Conn) { Conserved(c) && InterestMatches(c) }

  /** Handlers never change which descriptor, loop and registration a connection has, nor add the descriptor to epoll, and
      what the kernel took it has taken. */
  predicate SameIdentity(c: Conn, d: Conn)
  {
    && d.fd == c.fd && d.loop == c.loop && d.phase == c.phase && (d.interest.Some? ==> c.interest.Some?)
    && c.accepted <= d.accepted
  }

  /** The registration task has run. */
  predicate Settled(c: Conn)
  {
    c.phase == Registered || c.phase == Failed
  }

  /** Closing keeps the invariant, and makes a connection hasty exactly when its registration task has not run. */
  lemma CloseKeeps(c: Conn)
    requires ConnInv(c)
    ensures var d := HandleClose(c);
            ConnInv(d) && !d.connected && (Hasty(d) <==> Hasty(c) || !Settled(c)) && (Flow(c) ==> Flow(d))
  {}

  lemma SendConserves(c: Conn, data: bytes, w: WriteResult)
    requires Conserved(c) && c.connected
    ensures Conserved(SendInLoop(c, data, w))
  {}

  /** Sending keeps the invariant; it closes the connection exactly when nothing was buffered and the write fails. */
  lemma SendKeeps(c: Conn, data: bytes, w: WriteResult)
    requires ConnInv(c) && c.connected && Settled(c)
    ensures var d := SendInLoop(c, data, w);
            && ConnInv(d) && !Hasty(d) && (Flow(c) ==> Flow(d)) && d.sent == c.sent + data
            && d.connected == !(c.outBuffer == [] && w.WriteFails?)
            && d.log == if d.connected then c.log else c.log + [OnClose]
  {
    if Flow(c) {
      SendConserves(c, data, w);
    }
  }

  /** The task `Send` queues keeps the invariant. A callback follows `OnClose` exactly when nothing was buffered, the write
      failed and there is a finish function. */
  lemma SendTaskKeeps(c: Conn, data: bytes, finish: bool, w: WriteResult)
    requires ConnInv(c) && c.connected && Settled(c)
    ensures var d := SendTask(c, data, finish, w);
            && ConnInv(d) && !Hasty(d) && (Flow(c) ==> Flow(d)) && d.sent == c.sent + data
            && d.connected == !(c.outBuffer == [] && w.WriteFails?)
            && d.log == c.log + (if d.connected then [] else [OnClose]) + (if finish then [OnSent] else [])
  {
    SendKeeps(c, data, w);
    assert forall l: seq<Callback> :: l + [] == l;
    if finish {
      FinishOrdered(SendInLoop(c, data, w).log);
    }
  }

  lemma FinishOrdered(log: seq<Callback>)
    requires Ordered(log) && (OnClose in log ==> log[|log| - 1] == OnClose)
    ensures Ordered(log + [OnSent]) && (OnClose in log <==> OnClose in log + [OnSent])
  {}

  lemma FlushConserves(c: Conn, segment: nat, w: WriteResult)
    requires Conserved(c) && segment <= |c.outBuffer| && c.connected
    ensures Conserved(Flush(c, segment, w).0)
  {}

  lemma WriteConserves(c: Conn, cut: nat, first: WriteResult, second: WriteResult)
    requires Conserved(c) && c.connected && cut <= |c.outBuffer|
    ensures Conserved(HandleWrite(c, cut, first, second))
  {
    FlushConserves(c, cut, first);
    var d := Flush(c, cut, first).0;
    if d.connected {
      FlushConserves(d, |d.outBuffer|, second);
    }
  }

  lemma WriteKeeps(c: Conn, cut: nat, first: WriteResult, second: WriteResult)
    requires ConnInv(c) && c.connected && c.phase == Registered && 0 < cut <= |c.outBuffer|
    ensures var d := HandleWrite(c, cut, first, second); ConnInv(d) && !Hasty(d) && (Flow(c) ==> Flow(d))
  {
    if Flow(c) {
      WriteConserves(c, cut, first, second);
    }
  }

  lemma MessagesOrdered(log: seq<Callback>, n: nat)
    requires Ordered(log) && OnClose !in log
    ensures Ordered(log + Messages(n)) && OnClose !in log + Messages(n)
  {}

  lemma ReadKeeps(c: Conn, input: ReadResult, w: WriteResult)
    requires ConnInv(c) && c.connected && Settled(c)
    ensures var d := HandleRead(c, input, w); ConnInv(d) && !Hasty(d) && (Flow(c) ==> Flow(d))
  {
    match input
    case Got(messages, reply) =>
      MessagesOrdered(c.log, messages);
      if reply != [] {
        SendKeeps(c.(log := c.log + Messages(messages)), reply, w);
      }
    case Ended => CloseKeeps(c);
    case NothingYet =>
  }

  /** Every event a registered connection can be handed keeps the invariant, whatever the kernel answers. */
  lemma EventKeeps(c: Conn, ev: Events, k: Answers)
    requires ConnInv(c) && c.connected && c.phase == Registered
    ensures var d := HandleEvent(c, ev, k); ConnInv(d) && !Hasty(d) && (Flow(c) ==> Flow(d))
  {
    if ev.err {
      CloseKeeps(c);
    } else if c.outBuffer != [] {
      if ev.write {
        WriteKeeps(c, FirstSegment(c.outBuffer, k.cut), k.first, k.second);
      }
    } else if ev.read {
      ReadKeeps(c, k.input, k.first);
    }
  }

  // ---- What the handlers do, from what the kernel answers alone ----

  /** The bytes that a `unix.Write` of `data` with this result has put on the wire. */
  function Written(data: bytes, w: WriteResult): (r: bytes)
    ensures r <= data
  {
    if w.Wrote? then data[..Min(w.n, |data|)] else []
  }

  /** Sending, exactly: behind output that is still buffered nothing is written; otherwise the wire gets what the kernel took
      and the rest is buffered, unless the write failed, which closes the connection. */
  lemma SendExactly(c: Conn, data: bytes, w: WriteResult)
    requires c.connected
    ensures var d := SendInLoop(c, data, w);
            && d.sent == c.sent + data
            && (c.outBuffer != [] ==> d.connected && d.accepted == c.accepted && d.outBuffer == c.outBuffer + data && d.log == c.log)
            && (c.outBuffer == [] ==>
                  && d.accepted == c.accepted + Written(data, w) && (d.connected <==> !w.WriteFails?)
                  && d.log == c.log + (if d.connected then [] else [OnClose])
                  && (d.connected ==> d.outBuffer == data[|Written(data, w)|..]))
  {
    assert forall l: seq<Callback> :: l + [] == l;
  }

  /** Flushing, exactly: the wire gets what the kernel took of the first segment and, if that was all of it and there is a
      second, what it took of that; the rest stays buffered. A write that fails closes the connection. */
  lemma WriteExactly(c: Conn, cut: nat, first: WriteResult, second: WriteResult)
    requires c.connected && 0 < cut <= |c.outBuffer|
    ensures var d, a := HandleWrite(c, cut, first, second), Written(c.outBuffer[..cut], first);
            var more := |a| == cut < |c.outBuffer|;
            var b := if more then Written(c.outBuffer[cut..], second) else [];
            && d.sent == c.sent && d.accepted == c.accepted + a + b
            && (d.connected <==> !first.WriteFails? && !(more && second.WriteFails?))
            && d.log == c.log + (if d.connected then [] else [OnClose])
            && (d.connected ==> d.outBuffer == c.outBuffer[|a| + |b|..])
  {
    assert forall l: seq<Callback> :: l + [] == l;
    FlushExactly(c, cut, first);
    var (d, full) := Flush(c, cut, first);
    if d.connected && first != NoRoom && full && cut < |c.outBuffer| {
      FlushExactly(d, |d.outBuffer|, second);
      assert d.outBuffer == c.outBuffer[cut..] && d.outBuffer[..|d.outBuffer|] == d.outBuffer;
    }
  }

  lemma FlushExactly(c: Conn, segment: nat, w: WriteResult)
    requires c.connected && segment <= |c.outBuffer|
    ensures var (d, full) := Flush(c, segment, w);
            var a := Written(c.outBuffer[..segment], w);
            && d.accepted == c.accepted + a && d.sent == c.sent && (d.connected <==> !w.WriteFails?)
            && d.log == c.log + (if d.connected then [] else [OnClose])
            && (d.connected ==> d.outBuffer == c.outBuffer[|a|..] && (full <==> w.Wrote? && |a| == segment))
  {
    assert forall l: seq<Callback> :: l + [] == l;
    assert forall l: bytes :: l + [] == l;
  }

  /** What an event puts on the wire. */
  function EventWritten(c: Conn, ev: Events, k: Answers): bytes
  {
    if ev.err then []
    else if c.outBuffer != [] then
      if !ev.write then []
      else
        var cut := FirstSegment(c.outBuffer, k.cut);
        var a := Written(c.outBuffer[..cut], k.first);
        a + (if |a| == cut < |c.outBuffer| then Written(c.outBuffer[cut..], k.second) else [])
    else if ev.read && k.input.Got? && k.input.reply != [] then Written(k.input.reply, k.first)
    else []
  }

  /** What an event makes the connection send. */
  function EventSends(c: Conn, ev: Events, k: Answers): bytes
  {
    if !ev.err && c.outBuffer == [] && ev.read && k.input.Got? then k.input.reply else []
  }

  /** An event makes the connection close: an error, a peer that has ended, or a write that fails. */
  predicate EventCloses(c: Conn, ev: Events, k: Answers)
  {
    if ev.err then true
    else if c.outBuffer != [] then
      && ev.write
      && var cut := FirstSegment(c.outBuffer, k.cut);
         k.first.WriteFails? || (cut < |c.outBuffer| && |Written(c.outBuffer[..cut], k.first)| == cut && k.second.WriteFails?)
    else ev.read && (k.input.Ended? || (k.input.Got? && k.input.reply != [] && k.first.WriteFails?))
  }

  /** Events, exactly: what is sent, what goes on the wire, when the connection closes and which callbacks are made. Nothing
      is read while output is buffered. */
  lemma EventExactly(c: Conn, ev: Events, k: Answers)
    requires c.connected
    ensures var d := HandleEvent(c, ev, k);
            && d.sent == c.sent + EventSends(c, ev, k)
            && d.accepted == c.accepted + EventWritten(c, ev, k)
            && (d.connected <==> !EventCloses(c, ev, k))
            && d.log == c.log + (if !ev.err && c.outBuffer == [] && ev.read && k.input.Got? then Messages(k.input.messages) else [])
                        + (if d.connected then [] else [OnClose])
  {
    assert forall l: seq<Callback> :: l + [] == l;
    assert forall l: bytes :: l + [] == l;
    if !ev.err && c.outBuffer != [] && ev.write {
      WriteExactly(c, FirstSegment(c.outBuffer, k.cut), k.first, k.second);
    } else if !ev.err && c.outBuffer == [] && ev.read && k.input.Got? {
      SendExactly(c.(log := c.log + Messages(k.input.messages)), k.input.reply, k.first);
    }
  }

  /** Nothing opens a closed connection again, or changes its first callback. */
  lemma ClosedEvent(c: Conn, ev: Events, k: Answers)
    requires !c.connected && c.log != []
    ensures var d := HandleEvent(c, ev, k);
            !d.connected && d.log != [] && d.log[0] == c.log[0] && (d.interest.Some? <==> c.interest.Some?)
  {}

  lemma RegisterKeeps(c: Conn, ok: bool)
    requires ConnInv(c) && !Settled(c)
    ensures var d := Register(c, ok);
            && ConnInv(d) && Settled(d) && (Hasty(d) <==> Hasty(c)) && d.connected == c.connected
            && (!Hasty(c) && Flow(c) ==> Flow(d))
  {}

  /** A close from inside an event is the last callback. */
  lemma EventClosesLast(c: Conn, ev: Events, k: Answers)
    requires c.connected && !HandleEvent(c, ev, k).connected
    ensures var log := HandleEvent(c, ev, k).log; log != [] && log[|log| - 1] == OnClose
  {}

  /** An event hands something to `sendInLoop` exactly when it is the answer to what was read. */
  lemma EventSent(c: Conn, ev: Events, k: Answers)
    ensures HandleEvent(c, ev, k).sent
            == c.sent + if !ev.err && c.outBuffer == [] && ev.read && k.input.Got? then k.input.reply else []
  {}
}
