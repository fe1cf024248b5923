/** connection.go as an object. The handlers mutate the connection and its ring buffers in place; each is proved to do
    what the function of the same name in Connections.dfy says, and to touch no buffer that went back to the pool. */
module ConnectionObjects {
  import opened Bytes
  import opened RingBuffers
  import opened Framing
  import C = Connections

  /** `unix.Read` into the loop's packet buffer. */
  datatype Input = Bytes(data: bytes) | NothingYet | Ended

  /** One event of the connection and what the kernel answers to it. */
  datatype Happening = Happening(ev: C.Events, input: Input, first: C.WriteResult, second: C.WriteResult)
  {
    predicate Fits(size: nat)
    {
      input.Bytes? ==> 0 < |input.data| <= size
    }
  }

  /** Everything about a connection that its events decide: what the loop sees, and the protocol state, frames delivered,
      bytes left over (while it is open) and reads so far. */
  datatype Snapshot<S, F> = Snapshot(conn: C.Conn, state: S, delivered: seq<F>, rest: bytes, parts: seq<bytes>)

  /** The event makes the connection read the bytes of the happening. */
  predicate Reading(c: C.Conn, h: Happening)
  {
    !h.ev.err && c.outBuffer == [] && h.ev.read && h.input.Bytes?
  }

  /** What reading amounts to, given what it completes. */
  function Heard<S(!new), F(!new)>(u: UnPacket<S, F>, m: Handler<F>, s: Snapshot<S, F>, input: Input): C.ReadResult
    requires Progress(u)
  {
    match input
    case NothingYet => C.NothingYet
    case Ended => C.Ended
    case Bytes(data) =>
      var o := Drain(u, s.state, s.rest + data);
      C.Got(|o.frames|, Answers(m, s.delivered, o.frames))
  }

  /** One event; `cut` is where the output wraps. A closed connection gets none. */
  ghost function Happens<S(!new), F(!new)>(u: UnPacket<S, F>, m: Handler<F>, s: Snapshot<S, F>, h: Happening, cut: nat): Snapshot<S, F>
    requires Progress(u)
  {
    if !s.conn.connected then s
    else
      var c := C.HandleEvent(s.conn, h.ev, C.Answers(Heard(u, m, s, h.input), cut, h.first, h.second));
      var o := if Reading(s.conn, h) then Drain(u, s.state, s.rest + h.input.data) else Outcome(s.state, [], s.rest);
      Snapshot(c, o.state, s.delivered + o.frames, if c.connected then o.rest else [],
               s.parts + if Reading(s.conn, h) then [h.input.data] else [])
  }

  /** A list of events, one after the other. */
  ghost function Play<S(!new), F(!new)>(
      u: UnPacket<S, F>, m: Handler<F>, s: Snapshot<S, F>, script: seq<Happening>, cuts: seq<nat>): Snapshot<S, F>
    requires Progress(u) && |cuts| == |script|
    decreases |script|
  {
    if script == [] then s
    else
      var n := |script| - 1;
      Happens(u, m, Play(u, m, s, script[..n], cuts[..n]), script[n], cuts[n])
  }

  class Connection<S(!new), F(!new)> {
    /** The protocol's `UnPacket`, and `OnMessage` followed by `Packet`. */
    const unpack: UnPacket<S, F>
    const onMessage: Handler<F>
    const fd: nat
    const loop: nat
    /** The loop's packet buffer, shared by its connections. */
    const packet: array<byte>
    const inBuffer: RingBuffer
    const outBuffer: RingBuffer
    var connected: bool
    var state: S
    var phase: C.Phase
    var interest: Option<C.Interest>
    ghost var sent: bytes
    ghost var accepted: bytes
    ghost var log: seq<C.Callback>
    /** The frames `OnMessage` has been given; its answers may depend on all of them. */
    var delivered: seq<F>
    /** Everything read so far, read by read. */
    ghost var parts: seq<bytes>

    ghost predicate Valid()
      reads this, inBuffer, outBuffer
    {
      && Progress(unpack) && inBuffer != outBuffer
      && (if connected then inBuffer.Valid() && inBuffer.virtual == 0 && outBuffer.Valid()
          else inBuffer.pooled && outBuffer.pooled && outBuffer.data == [])
    }

    ghost function Now(): Snapshot<S, F>
      reads this, inBuffer, outBuffer
    {
      Snapshot(View(), state, delivered, if connected then inBuffer.data else [], parts)
    }

    ghost function View(): C.Conn
      reads this, outBuffer
    {
      C.Conn(fd, loop, phase, connected, interest, outBuffer.data, sent, accepted, log)
    }

    constructor (fd: nat, loop: nat, packet: array<byte>, unpack: UnPacket<S, F>, onMessage: Handler<F>, state: S)
      requires Progress(unpack)
      ensures Valid() && fresh(inBuffer) && fresh(outBuffer) && inBuffer.data == [] && delivered == []
      ensures View() == C.NewConnection(fd, loop) && this.state == state && this.packet == packet
      ensures this.unpack == unpack && this.onMessage == onMessage
      ensures Accounted(unpack, onMessage, state, Now())
    {
      this.fd, this.loop, this.packet, this.unpack, this.onMessage, this.state := fd, loop, packet, unpack, onMessage, state;
      inBuffer := new RingBuffer();
      outBuffer := new RingBuffer();
      connected, phase, interest := true, C.Created, None;
      sent, accepted, log, delivered := [], [], [], [];
      parts := [];
    }

    /** `EPOLL_CTL_MOD` on the descriptor. */
    method Watch(i: C.Interest)
      modifies `interest
      ensures View() == C.Watch(old(View()), i)
    {
      if interest.Some? {
        interest := Some(i);
      }
    }

    method HandleClose()
      requires Valid()
      modifies `connected, `interest, `log, inBuffer, outBuffer
      ensures Valid() && !connected && View() == C.HandleClose(old(View()))
    {
      if connected {
        connected := false;
        interest := None;
        log := log + [C.OnClose];
        inBuffer.PutInPool();
        outBuffer.PutInPool();
      }
    }

    method SendInLoop(data: bytes, w: C.WriteResult) returns (closed: bool)
      requires Valid() && connected
      modifies `connected, `interest, `log, `sent, `accepted, inBuffer, outBuffer
      ensures Valid() && View() == C.SendInLoop(old(View()), data, w)
      ensures closed <==> !connected
      ensures !closed ==> inBuffer.data == old(inBuffer.data)
    {
      closed := false;
      sent := sent + data;
      if outBuffer.data != [] {
        outBuffer.Write(data);
      } else {
        if w.WriteFails? {
          HandleClose();
          closed := true;
          return;
        }
        var n := if w.Wrote? then Min(w.n, |data|) else -1;
        if n <= 0 {
          assert data[..0] == [] && accepted + [] == accepted;
          outBuffer.Write(data);
        } else {
          accepted := accepted + data[..n];
          if n < |data| {
            outBuffer.Write(data[n..]);
          }
        }
        if outBuffer.data != [] {
          Watch(C.ReadWrite);
        }
      }
    }

    /** Flush the output ring buffer, in two writes when its storage wraps. */
    method HandleWrite(first: C.WriteResult, second: C.WriteResult) returns (closed: bool)
      requires Valid() && connected && outBuffer.data != []
      modifies `connected, `interest, `log, `accepted, inBuffer, outBuffer
      ensures Valid() && View() == C.HandleWrite(old(View()), old(outBuffer.cut), first, second)
      ensures closed <==> !connected
      ensures !closed ==> inBuffer.data == old(inBuffer.data)
    {
      var head, end := outBuffer.PeekAll();
      closed := false;
      ghost var out := outBuffer.data;
      if first.NoRoom? {
        return;
      }
      if first.WriteFails? {
        HandleClose();
        closed := true;
        return;
      }
      var n := Min(first.n, |head|);
      accepted := accepted + head[..n];
      assert head[..n] == out[..n];
      outBuffer.Retrieve(n);
      if n == |head| && |end| > 0 {
        if second.NoRoom? {
          return;
        }
        if second.WriteFails? {
          HandleClose();
          closed := true;
          return;
        }
        n := Min(second.n, |end|);
        accepted := accepted + end[..n];
        outBuffer.Retrieve(n);
      }
      if outBuffer.data == [] {
        Watch(C.Read);
      }
    }

    /** `OnMessage`, with its packed answer appended to the output slice. */
    method Deliver(f: F, buf: Slice) returns (r: Slice)
      requires buf.Fits()
      modifies `log, `delivered, buf.arr
      ensures r.Fits() && (fresh(r.arr) || (r.arr == buf.arr && r.off == buf.off))
      ensures buf.arr[..buf.off + buf.len] == old(buf.arr[..buf.off + buf.len])
      ensures delivered == old(delivered) + [f] && log == old(log) + [C.OnMessage]
      ensures r.Contents() == old(buf.Contents()) + Answer(onMessage, delivered)
    {
      delivered, log := delivered + [f], log + [C.OnMessage];
      r := buf;
      var sendData := onMessage(delivered);
      if sendData.Some? {
        r := Append(buf, sendData.value);
      }
    }

    /** Half way through the loop: `got` has been delivered, its answers are in `buf`, and call k has just returned;
        `past` and `callbacks` are what had been delivered and logged before, and o is where it all must end. */
    ghost predicate Midway(o: Outcome<S, F>, past: seq<F>, callbacks: seq<C.Callback>,
                           got: seq<F>, k: Taken<S, F>, rest: bytes, buf: Slice)
      reads this, buf.arr
    {
      && Progress(unpack) && buf.Fits()
      && state == k.next && delivered == past + got && log == callbacks + C.Messages(|got|)
      && Partway(unpack, onMessage, o, past, got, k, rest, buf.Contents())
    }

    /** The input occupies packet[..n], `rest` at packet[r..n] is unread, and answers follow it or have outgrown the array. */
    predicate Window(n: nat, r: nat, input: bytes, rest: bytes, buf: Slice)
      reads packet
    {
      r <= n <= packet.Length && packet[..n] == input && packet[r..n] == rest && (buf.arr == packet ==> buf.off == n)
    }

    lemma MidwayEnds(o: Outcome<S, F>, past: seq<F>, callbacks: seq<C.Callback>,
                     got: seq<F>, k: Taken<S, F>, rest: bytes, buf: Slice)
      requires Midway(o, past, callbacks, got, k, rest, buf) && k.frame.None?
      ensures state == o.state && delivered == past + o.frames && rest == o.rest && log == callbacks + C.Messages(|o.frames|)
      ensures buf.Contents() == Answers(onMessage, past, o.frames)
    {
      PartwayEnd(unpack, onMessage, o, past, got, k, rest, buf.Contents());
    }

    /** Deliver the frame of call k and collect its answer, so that a call on the rest is Midway again.
        Nothing in front of the collected answers changes. */
    method Turn(k: Taken<S, F>, buf: Slice, ghost o: Outcome<S, F>, ghost past: seq<F>, ghost callbacks: seq<C.Callback>,
                ghost got: seq<F>, ghost rest: bytes) returns (next: Slice)
      requires Midway(o, past, callbacks, got, k, rest, buf) && k.frame.Some?
      modifies `log, `delivered, buf.arr
      ensures buf.arr[..buf.off] == old(buf.arr[..buf.off])
      ensures fresh(next.arr) || (next.arr == buf.arr && next.off == buf.off)
      ensures Ready(o, past, callbacks, got + [k.frame.value], rest, next)
    {
      ghost var f := k.frame.value;
      C.MessagesSnoc(callbacks, |got|);
      assert past + got + [f] == past + (got + [f]);
      PartwayStep(unpack, onMessage, o, past, got, k, rest, buf.Contents());
      ghost var end, front := buf.off + buf.len, buf.arr[..buf.off];
      assert front == buf.arr[..end][..buf.off];
      next := Deliver(k.frame.value, buf);
      assert buf.arr[..buf.off] == buf.arr[..end][..buf.off];
    }

    /** `UnPacket` is due on `rest`. */
    ghost predicate Ready(o: Outcome<S, F>, past: seq<F>, callbacks: seq<C.Callback>, got: seq<F>, rest: bytes, buf: Slice)
      reads this, buf.arr
    {
      && Progress(unpack) && buf.Fits()
      && delivered == past + got && log == callbacks + C.Messages(|got|)
      && var l := unpack(state, rest);
         Partway(unpack, onMessage, o, past, got, l, rest[l.used..], buf.Contents())
    }

    static lemma SameSlice(p: bytes, n: nat, r: nat, k: nat)
      requires r + k <= n <= |p|
      ensures p[r..n] == p[..n][r..] && p[r + k..n] == p[r..n][k..]
    {}

    /** One turn of the loop over the packet buffer: the next call reads packet[r..n] after the answer was appended. */
    method TurnInPlace(n: nat, r: nat, k: Taken<S, F>, buf: Slice, ghost input: bytes, ghost rest: bytes, ghost o: Outcome<S, F>,
                       ghost past: seq<F>, ghost callbacks: seq<C.Callback>, ghost got: seq<F>)
      returns (l: Taken<S, F>, next: Slice, r': nat, ghost rest': bytes, ghost got': seq<F>)
      requires Window(n, r, input, rest, buf) && Midway(o, past, callbacks, got, k, rest, buf) && k.frame.Some?
      modifies `state, `log, `delivered, buf.arr
      ensures r <= r' <= n && (l.frame.Some? ==> r < r')
      ensures Window(n, r', input, rest', next) && (fresh(next.arr) || next.arr == buf.arr)
      ensures Midway(o, past, callbacks, got', l, rest', next)
    {
      SameSlice(packet[..], n, r, 0);
      next := Turn(k, buf, o, past, callbacks, got, rest);
      SameSlice(packet[..], n, r, 0);
      l := unpack(state, packet[r..n]);
      SameSlice(packet[..], n, r, l.used);
      state := l.next;
      r', rest', got' := r + l.used, rest[l.used..], got + [k.frame.value];
    }

    /** The first call of `UnPacket` on packet[..n]; answers will go behind it. */
    method StartInPlace(n: nat, ghost input: bytes) returns (k: Taken<S, F>, buf: Slice)
      requires Progress(unpack) && n <= packet.Length && packet[..n] == input
      modifies `state
      ensures buf.arr == packet && k.used <= n && Window(n, k.used, input, input[k.used..], buf)
      ensures Midway(Drain(unpack, old(state), input), delivered, log, [], k, input[k.used..], buf)
    {
      PartwayStart(unpack, onMessage, state, input, delivered);
      buf := Slice(packet, n, 0);
      k := unpack(state, packet[..n]);
      state := k.next;
      assert packet[k.used..n] == input[k.used..];
    }

    /** The loop of `handlerProtocol` over the packet buffer itself, from its first call k on. */
    method LoopInPlace(n: nat, k0: Taken<S, F>, buf0: Slice, ghost input: bytes, ghost o: Outcome<S, F>, ghost past: seq<F>,
                       ghost callbacks: seq<C.Callback>) returns (buf: Slice, r: nat)
      requires k0.used <= n == |input| && buf0.arr == packet && Window(n, k0.used, input, input[k0.used..], buf0)
      requires Midway(o, past, callbacks, [], k0, input[k0.used..], buf0)
      modifies `state, `log, `delivered, packet
      ensures r <= n <= packet.Length && packet[..n] == input && packet[r..n] == o.rest && buf.Fits()
      ensures state == o.state && delivered == past + o.frames && log == callbacks + C.Messages(|o.frames|)
      ensures buf.Contents() == Answers(onMessage, past, o.frames)
    {
      var k := k0;
      buf, r := buf0, k.used;
      ghost var got, rest := [], input[r..];
      while k.frame.Some?
        invariant Window(n, r, input, rest, buf) && (fresh(buf.arr) || buf.arr == packet)
        invariant Midway(o, past, callbacks, got, k, rest, buf)
        decreases n - r, k.frame.Some?
      {
        k, buf, r, rest, got := TurnInPlace(n, r, k, buf, input, rest, o, past, callbacks, got);
      }
      MidwayEnds(o, past, callbacks, got, k, rest, buf);
    }

    /** `handlerProtocol` over the packet buffer itself: the input occupies packet[..n] and answers are appended from
        packet[n..] on. The appends leave the input as it was, so every frame comes from the bytes that were read. */
    method HandlerProtocolInPlace(n: nat) returns (buf: Slice, r: nat)
      requires Valid() && connected && n <= packet.Length
      modifies `state, `log, `delivered, packet
      ensures Valid() && r <= n && packet[..n] == old(packet[..n])
      ensures buf.Fits()
      ensures var o := Drain(unpack, old(state), old(packet[..n]));
              && state == o.state && delivered == old(delivered) + o.frames && packet[r..n] == o.rest
              && log == old(log) + C.Messages(|o.frames|)
              && buf.Contents() == Answers(onMessage, old(delivered), o.frames)
    {
      ghost var input, past, callbacks := packet[..n], delivered, log;
      ghost var o := Drain(unpack, state, input);
      var k;
      k, buf := StartInPlace(n, input);
      buf, r := LoopInPlace(n, k, buf, input, o, past, callbacks);
    }

    /** One call of `UnPacket` on the input ring buffer. */
    method TakeBuffered() returns (k: Taken<S, F>)
      requires Valid() && connected
      modifies `state, inBuffer
      ensures Valid() && k == unpack(old(state), old(inBuffer.data))
      ensures state == k.next && inBuffer.data == old(inBuffer.data)[k.used..]
    {
      k := unpack(state, inBuffer.data);
      state := k.next;
      inBuffer.Retrieve(k.used);
    }

    /** One turn of the loop over the input ring buffer, which holds `rest`. */
    method TurnBuffered(k: Taken<S, F>, buf: Slice, ghost rest: bytes, ghost o: Outcome<S, F>, ghost past: seq<F>,
                        ghost callbacks: seq<C.Callback>, ghost got: seq<F>)
      returns (l: Taken<S, F>, next: Slice, ghost rest': bytes, ghost got': seq<F>)
      requires Valid() && connected && inBuffer.data == rest && Midway(o, past, callbacks, got, k, rest, buf) && k.frame.Some?
      modifies `state, `log, `delivered, buf.arr, inBuffer
      ensures Valid() && (fresh(next.arr) || next.arr == buf.arr)
      ensures |rest'| <= |rest| && (l.frame.Some? ==> |rest'| < |rest|) && inBuffer.data == rest'
      ensures Midway(o, past, callbacks, got', l, rest', next)
    {
      next := Turn(k, buf, o, past, callbacks, got, rest);
      ghost var replies := next.Contents();
      l := TakeBuffered();
      assert next.Contents() == replies;
      rest', got' := rest[l.used..], got + [k.frame.value];
    }

    /** The first call of `UnPacket` on the input ring buffer. */
    method StartBuffered(ghost input: bytes) returns (k: Taken<S, F>)
      requires Valid() && connected && inBuffer.data == input
      modifies `state, inBuffer
      ensures Valid() && k.used <= |input| && inBuffer.data == input[k.used..]
      ensures Midway(Drain(unpack, old(state), input), delivered, log, [], k, input[k.used..], Slice(packet, 0, 0))
    {
      PartwayStart(unpack, onMessage, state, input, delivered);
      k := TakeBuffered();
    }

    /** The loop of `handlerProtocol` over the input ring buffer, from its first call k on. */
    method LoopBuffered(k0: Taken<S, F>, ghost rest0: bytes, ghost o: Outcome<S, F>, ghost past: seq<F>,
                        ghost callbacks: seq<C.Callback>) returns (buf: Slice)
      requires Valid() && connected && inBuffer.data == rest0
      requires Midway(o, past, callbacks, [], k0, rest0, Slice(packet, 0, 0))
      modifies `state, `log, `delivered, packet, inBuffer
      ensures Valid() && inBuffer.data == o.rest && buf.Fits()
      ensures state == o.state && delivered == past + o.frames && log == callbacks + C.Messages(|o.frames|)
      ensures buf.Contents() == Answers(onMessage, past, o.frames)
    {
      var k := k0;
      buf := Slice(packet, 0, 0);
      ghost var got, rest := [], rest0;
      while k.frame.Some?
        invariant Valid() && inBuffer.data == rest && (fresh(buf.arr) || buf.arr == packet)
        invariant Midway(o, past, callbacks, got, k, rest, buf)
        decreases |rest|, k.frame.Some?
      {
        k, buf, rest, got := TurnBuffered(k, buf, rest, o, past, callbacks, got);
      }
      MidwayEnds(o, past, callbacks, got, k, rest, buf);
    }

    /** `handlerProtocol` over the input ring buffer; answers are collected from the start of the packet buffer. */
    method HandlerProtocolBuffered() returns (buf: Slice)
      requires Valid() && connected
      modifies `state, `log, `delivered, packet, inBuffer
      ensures Valid()
      ensures buf.Fits()
      ensures var o := Drain(unpack, old(state), old(inBuffer.data));
              && state == o.state && delivered == old(delivered) + o.frames && inBuffer.data == o.rest
              && log == old(log) + C.Messages(|o.frames|)
              && buf.Contents() == Answers(onMessage, old(delivered), o.frames)
    {
      ghost var past, callbacks, input := delivered, log, inBuffer.data;
      ghost var o := Drain(unpack, state, input);
      var k := StartBuffered(input);
      buf := LoopBuffered(k, input[k.used..], o, past, callbacks);
    }

    /** The bytes just read, unpacked. With an empty input buffer the packet buffer is unpacked where it is and only what
        is left over is copied; otherwise the bytes join those left over before. Either way the outcome is that of
        unpacking everything left over and everything just read, in one go. */
    method Unpack(data: bytes) returns (buf: Slice)
      requires Valid() && connected && 0 < |data| <= packet.Length
      modifies `state, `log, `delivered, packet, inBuffer
      ensures Valid() && buf.Fits() && inBuffer.pooled == old(inBuffer.pooled)
      ensures var o := Drain(unpack, old(state), old(inBuffer.data) + data);
              && state == o.state && delivered == old(delivered) + o.frames && inBuffer.data == o.rest
              && log == old(log) + C.Messages(|o.frames|)
              && buf.Contents() == Answers(onMessage, old(delivered), o.frames)
    {
      var n := Copy(packet, 0, data);
      assert packet[..n] == data;
      if inBuffer.data == [] {
        assert inBuffer.data + data == data;
        var r;
        buf, r := HandlerProtocolInPlace(n);
        inBuffer.Write(packet[r..n]);
      } else {
        inBuffer.Write(packet[..n]);
        buf := HandlerProtocolBuffered();
      }
    }

    /** Unpack what was read and send the answers. */
    method UnpackAndSend(data: bytes, w: C.WriteResult) returns (closed: bool)
      requires Valid() && connected && 0 < |data| <= packet.Length
      modifies this, packet, inBuffer, outBuffer
      ensures Valid() && (closed <==> !connected) && parts == old(parts) + [data]
      ensures var o := Drain(unpack, old(state), old(inBuffer.data) + data);
              && state == o.state && delivered == old(delivered) + o.frames && (connected ==> inBuffer.data == o.rest)
              && View() == C.HandleRead(old(View()), C.Got(|o.frames|, Answers(onMessage, old(delivered), o.frames)), w)
    {
      closed := false;
      var buf := Unpack(data);
      parts := parts + [data];
      if buf.len != 0 {
        closed := SendInLoop(buf.Contents(), w);
      }
    }

    /** Read, unpack, answer. */
    method HandleRead(input: Input, w: C.WriteResult) returns (closed: bool)
      requires Valid() && connected && (input.Bytes? ==> 0 < |input.data| <= packet.Length)
      modifies this, packet, inBuffer, outBuffer
      ensures Valid() && (closed <==> !connected)
      ensures View() == C.HandleRead(old(View()), Heard(unpack, onMessage, old(Now()), input), w)
      ensures parts == old(parts) + if input.Bytes? then [input.data] else []
      ensures !input.Bytes? ==> state == old(state) && delivered == old(delivered)
      ensures input.NothingYet? ==> inBuffer.data == old(inBuffer.data)
      ensures input.Bytes? ==>
                var o := Drain(unpack, old(state), old(inBuffer.data) + input.data);
                state == o.state && delivered == old(delivered) + o.frames && (connected ==> inBuffer.data == o.rest)
    {
      closed := false;
      if input.Ended? {
        HandleClose();
        closed := true;
      } else if input.Bytes? {
        closed := UnpackAndSend(input.data, w);
      }
    }

    /** Events of one batch entry: an error closes, pending output is flushed before anything is read, and reading waits
        until all output is gone. After a close nothing of the connection is touched again. */
    method HandleEvent(h: Happening)
      requires Valid() && connected && h.Fits(packet.Length)
      modifies this, packet, inBuffer, outBuffer
      ensures Valid() && Now() == Happens(unpack, onMessage, old(Now()), h, old(outBuffer.cut))
    {
      ghost var before, past := parts, delivered;
      assert before + [] == before && past + [] == past;
      if h.ev.err {
        HandleClose();
        return;
      }
      if outBuffer.data != [] {
        if h.ev.write {
          var closed := HandleWrite(h.first, h.second);
          if !closed && outBuffer.data == [] {
            outBuffer.Reset();
          }
        }
      } else if h.ev.read {
        var closed := HandleRead(h.input, h.first);
        if !closed && inBuffer.data == [] {
          inBuffer.Reset();
        }
      }
    }

    /** A whole run of events with whatever the kernel answers and wherever the output wraps. */
    method Serve(script: seq<Happening>) returns (ghost cuts: seq<nat>)
      requires Valid() && forall h <- script :: h.Fits(packet.Length)
      modifies this, packet, inBuffer, outBuffer
      ensures Valid() && |cuts| == |script| && Now() == Play(unpack, onMessage, old(Now()), script, cuts)
    {
      cuts := [];
      for i := 0 to |script|
        invariant Valid() && |cuts| == i && Now() == Play(unpack, onMessage, old(Now()), script[..i], cuts)
      {
        ghost var more := cuts + [outBuffer.cut];
        assert script[..i + 1][..i] == script[..i] && more[..i] == cuts && script[i] in script;
        if connected {
          HandleEvent(script[i]);
        }
        cuts := more;
      }
      assert script[..|script|] == script;
    }
  }

  // ---- What a served connection has delivered and sent ----

  /** Protocol state, frames and left-over bytes are those of the reads so far, and everything sent answers them. */
  ghost predicate Accounted<S(!new), F(!new)>(u: UnPacket<S, F>, m: Handler<F>, start: S, s: Snapshot<S, F>)
    requires Progress(u)
  {
    var o := Feed(u, start, [], s.parts);
    && s.state == o.state && s.delivered == o.frames && (s.conn.connected ==> s.rest == o.rest)
    && s.conn.sent == AnswersFed(u, m, start, [], [], s.parts) && Reads(s.parts)
  }

  lemma HappensAccounted<S(!new), F(!new)>(u: UnPacket<S, F>, m: Handler<F>, start: S, s: Snapshot<S, F>, h: Happening, cut: nat)
    requires Progress(u) && Accounted(u, m, start, s) && (h.input.Bytes? ==> h.input.data != [])
    ensures Accounted(u, m, start, Happens(u, m, s, h, cut))
  {
    if s.conn.connected {
      C.EventSent(s.conn, h.ev, C.Answers(Heard(u, m, s, h.input), cut, h.first, h.second));
      if Reading(s.conn, h) {
        FeedSnoc(u, start, [], s.parts, h.input.data);
        AnswersFedSnoc(u, m, start, s.parts, h.input.data);
      } else {
        assert s.parts + [] == s.parts && s.delivered + [] == s.delivered && s.conn.sent + [] == s.conn.sent;
      }
    }
  }

  /** Over every run of events from a new connection on, whatever the kernel answers: frames and left-over bytes are those
      of the reads that took place, in order, and everything sent is the answers to them. */
  lemma {:induction false} PlayAccounted<S(!new), F(!new)>(
      u: UnPacket<S, F>, m: Handler<F>, start: S, s: Snapshot<S, F>, script: seq<Happening>, cuts: seq<nat>, size: nat)
    requires Progress(u) && |cuts| == |script| && Accounted(u, m, start, s) && forall h <- script :: h.Fits(size)
    ensures Accounted(u, m, start, Play(u, m, s, script, cuts))
    decreases |script|
  {
    if script != [] {
      var n := |script| - 1;
      assert script[n].Fits(size);
      PlayAccounted(u, m, start, s, script[..n], cuts[..n], size);
      HappensAccounted(u, m, start, Play(u, m, s, script[..n], cuts[..n]), script[n], cuts[n]);
    }
  }

  /** So where the protocol is independent of segmentation, a connection that served any run of events has delivered what
      one big read of its input would have delivered, and has sent exactly the answers to that. */
  lemma ServedAsOneRead<S(!new), V(!new), F(!new)>(
      u: UnPacket<S, F>, view: View<S, V>, m: Handler<F>, start: S, s: Snapshot<S, F>, script: seq<Happening>, cuts: seq<nat>,
      size: nat)
    requires Progress(u) && |cuts| == |script| && Accounted(u, m, start, s) && forall h <- script :: h.Fits(size)
    ensures var t := Play(u, m, s, script, cuts);
            var o := Drain(u, start, Concat(t.parts));
            t.parts != [] && SegmentationIndependent(u, view, start, Concat(t.parts)) ==>
              && t.delivered == o.frames && (t.conn.connected ==> t.rest == o.rest)
              && t.conn.sent == Answers(m, [], o.frames)
  {
    PlayAccounted(u, m, start, s, script, cuts, size);
    var t := Play(u, m, s, script, cuts);
    if t.parts != [] && SegmentationIndependent(u, view, start, Concat(t.parts)) {
      assert Alike(view, Feed(u, start, [], t.parts), Drain(u, start, Concat(t.parts)));
      AnswersIndependent(u, view, m, start, t.parts);
    }
  }
}
