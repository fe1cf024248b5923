/** plugins/websocket/protocol.go: the opening handshake, then frames. */
module WsProtocol {
  import opened Bytes
  import opened RingBuffers
  import opened Framing
  import opened WsHeader
  import opened Handshake
  import opened HttpText
  import WsCipher

  const SCRATCH_SIZE := MAX_HEADER_SIZE - 2

  type Scratch = b: bytes | |b| == SCRATCH_SIZE witness [0, 0, 0, 0, 0, 0, 0, 0, 0, 0, 0, 0]

  /** What a connection keeps: whether it has been upgraded, and the scratch slice its headers are read into. */
  datatype State = State(upgraded: bool, scratch: Scratch)

  /** What `UnPacket` hands out: the response to the handshake, or a frame with its payload unmasked. */
  datatype Delivery = Response(verdict: Verdict) | Message(header: Header, payload: bytes)

  function Unmasked(h: Header, p: bytes): (r: bytes)
    requires |h.mask| == 4
    ensures |r| == |p|
  {
    if h.masked then WsCipher.Masked(p, h.mask, 0) else p
  }

  lemma ParsedShape(scratch: bytes, b: bytes)
    requires |scratch| == SCRATCH_SIZE && ReadHeader(scratch, b).Parsed?
    ensures var r := ReadHeader(scratch, b);
            |r.scratch| == SCRATCH_SIZE && |r.header.mask| == 4 && r.header.length >= 0 && 0 < r.used <= |b|
  {
    ParsedIsEncodable(b, scratch);
  }

  function TakeFrame(scratch: Scratch, b: bytes): Taken<State, Delivery>
  {
    var r := ReadHeader(scratch, b);
    if r.NotReady? then Taken(State(true, scratch), None, 0)
    else if r.BadLength? then Taken(State(true, r.scratch), None, 0)
    else
      ParsedShape(scratch, b);
      var end := r.used + r.header.length;
      if |b| < end then Taken(State(true, r.scratch), None, 0)
      else Taken(State(true, r.scratch), Some(Message(r.header, Unmasked(r.header, b[r.used..end]))), end)
  }

  /** What becomes of the result r of reading a header with the virtual cursor v bytes ahead, and where that is then. A
      length with its top bit set is logged and leaves it behind the header. */
  function Follow(scratch: Scratch, r: HeaderResult, b: bytes, v: nat): (Taken<State, Delivery>, nat)
    requires !r.NotReady? ==> v + r.used <= |b| && |r.scratch| == SCRATCH_SIZE
    requires r.Parsed? ==> |r.header.mask| == 4 && r.header.length >= 0
  {
    if r.NotReady? then (Taken(State(true, scratch), None, 0), v)
    else if r.BadLength? then (Taken(State(true, r.scratch), None, 0), v + r.used)
    else
      var begin := v + r.used;
      var end := begin + r.header.length;
      if |b| < end then (Taken(State(true, r.scratch), None, 0), 0)
      else (Taken(State(true, r.scratch), Some(Message(r.header, Unmasked(r.header, b[begin..end]))), end), 0)
  }

  /** `TakeFrame` from wherever the virtual cursor stands. */
  function TakeFrameAt(scratch: Scratch, b: bytes, v: nat): (Taken<State, Delivery>, nat)
    requires v <= |b|
  {
    ReadShape(scratch, b, v);
    Follow(scratch, ReadHeaderAt(scratch, b, v), b, v)
  }

  /** From the front the cursor makes no difference, and stays there unless the length is bad. */
  lemma TakeFrameAtStart(scratch: Scratch, b: bytes)
    ensures TakeFrameAt(scratch, b, 0).0 == TakeFrame(scratch, b)
    ensures TakeFrameAt(scratch, b, 0).1 == if ReadHeader(scratch, b).BadLength? then ReadHeader(scratch, b).used else 0
  {
    AtStart(scratch, b);
  }

  /** The outcome of a handshake: frames follow exactly when it was accepted. */
  function Answered(scratch: Scratch, u: Upgraded): Taken<State, Delivery>
  {
    if u.Silent? then Taken(State(false, scratch), None, u.used)
    else Taken(State(u.verdict.Accepted?, scratch), Some(Response(u.verdict)), u.used)
  }

  function TakeHandshake(scratch: Scratch, b: bytes): Taken<State, Delivery>
  {
    Answered(scratch, Upgrading(b))
  }

  /** What `UnPacket` takes off a buffer. */
  function Take(s: State, b: bytes): Taken<State, Delivery>
  {
    if s.upgraded then TakeFrame(s.scratch, b) else TakeHandshake(s.scratch, b)
  }

  /** Where the contents wrap makes a difference to the handshake if and only if the wrap does harm. */
  lemma WrapAndTake(scratch: Scratch, b: bytes, cut: nat)
    requires cut <= |b|
    ensures Answered(scratch, UpgradingAt(b, cut)) == Take(State(false, scratch), b) <==> Harmless(b, cut)
  {
    WrapExactly(b, cut);
    NothingToRead();
    assert b[..0] == [];
  }

  lemma Progresses()
    ensures Progress(Take)
  {
    forall s: State, b: bytes
      ensures Take(s, b).used <= |b| && (Take(s, b).frame.Some? ==> Take(s, b).used > 0)
    {
      if s.upgraded && ReadHeader(s.scratch, b).Parsed? {
        ParsedShape(s.scratch, b);
      }
    }
  }

  /** Any frame of section 5.2 of RFC 6455 with a length that fits into 63 bits, in every form of its length, masked or not,
      and whatever follows: it is taken exactly when all of it is there, with its payload unmasked if it was masked. */
  lemma FrameOffTheWire(scratch: Scratch, b: bytes, h: Header, form: nat)
    requires Wire(b, h, form) && |b| >= 6 && h.length < 0x8000_0000_0000_0000
    ensures var k, n := TakeFrame(scratch, b), 2 + form + (if h.masked then 4 else 0);
            && k.next.upgraded
            && (|b| < n + h.length ==> k.frame.None? && k.used == 0)
            && (|b| >= n + h.length ==>
                  && k.used == n + h.length
                  && k.frame == Some(Message(h, if h.masked then WsCipher.Masked(b[n..n + h.length], h.mask, 0)
                                                else b[n..n + h.length])))
  {
    WireRead(b, h, form, scratch);
  }

  // ---- One short frame ----

  /** A frame as a client sends it: masked, and with fields that fit. */
  predicate Framed(d: Delivery)
  {
    d.Message? && WellTyped(d.header) && Encodable(d.header) && d.header.masked && d.header.length == |d.payload|
  }

  /** Its payload has at most 65535 bytes. */
  predicate Short(d: Delivery) { Framed(d) && d.header.length <= LEN16 }

  /** The header in its shortest form and the masked payload. */
  function Encoded(d: Delivery): bytes
  {
    if d.Message? && |d.header.mask| == 4 then WsHeader.Encode(d.header) + WsCipher.Masked(d.payload, d.header.mask, 0) else []
  }

  lemma HeaderSize(d: Delivery)
    requires Short(d)
    ensures |Encode(d.header)| == (if d.header.length <= LEN7 then 6 else 8)
    ensures |Encoded(d)| == |Encode(d.header)| + |d.payload|
  {}

  /** With its header read, a frame is taken exactly when it is complete. */
  lemma AfterHeader(scratch: Scratch, d: Delivery, b: bytes, n: nat)
    requires Framed(d) && n <= |b|
    requires var r := ReadHeader(scratch, b); r.Parsed? && r.header == d.header && r.used == n
    ensures var k, x := TakeFrame(scratch, b), b[n..];
            && (|x| < |d.payload| ==> k.frame.None? && k.used == 0 && k.next.upgraded)
            && (|x| >= |d.payload| && x[..|d.payload|] == WsCipher.Masked(d.payload, d.header.mask, 0)
                ==> k.frame == Some(d) && k.used == n + |d.payload| && k.next.upgraded)
  {
    if |b| >= n + |d.payload| {
      assert b[n..n + |d.payload|] == b[n..][..|d.payload|];
      WsCipher.MaskedTwice(d.payload, d.header.mask, 0);
    }
  }

  /** Six or seven bytes of an eight-byte header hold its length already, and the reader sees nothing behind them:
      the frame waits, whatever the scratch slice held. */
  lemma HeaderCut(scratch: Scratch, d: Delivery, b: bytes)
    requires Short(d) && b <= Encode(d.header) && 6 <= |b| < |Encode(d.header)|
    ensures var k := TakeFrame(scratch, b); k.frame.None? && k.used == 0 && k.next.upgraded
  {
    var h := d.header;
    HeaderSize(d);
    EncodedIsLaidOut(h, []);
    assert Encode(h) + [] == Encode(h) && Tail(h) + [] == Tail(h);
    assert b[1] == Encode(h)[1];
    SecondByteParts(h, b[1]);
    var bts := Fill(Fill(scratch, b, 2), b[2..], 6);
    assert bts[..2] == b[2..4] == Encode(h)[2..4] == Extended(h);
    ExtendedValue(h);
  }

  lemma PayloadBehind(d: Delivery, b: bytes, rest: bytes)
    requires Short(d) && b <= Encoded(d) + rest && |b| >= |Encoded(d)|
    ensures var n := |Encode(d.header)|;
            n + |d.payload| <= |b| && b[n..][..|d.payload|] == WsCipher.Masked(d.payload, d.header.mask, 0)
  {
    var n := |Encode(d.header)|;
    HeaderSize(d);
    assert b[n..][..|d.payload|] == (Encoded(d) + rest)[n..|Encoded(d)|] == Encoded(d)[n..];
  }

  /** Whatever part of an encoded frame, and of anything behind it, is in the buffer: the frame comes off as soon as it
      is complete, and before that nothing is consumed. */
  lemma ShortCall(s: State, d: Delivery, b: bytes, rest: bytes)
    requires s.upgraded && Short(d) && b <= Encoded(d) + rest
    ensures var k := Take(s, b);
            && k.next.upgraded
            && (|b| < |Encoded(d)| ==> k.frame.None? && k.used == 0)
            && (|b| >= |Encoded(d)| ==> k.frame == Some(d) && k.used == |Encoded(d)|)
  {
    var h, n := d.header, |Encode(d.header)|;
    HeaderSize(d);
    if 6 <= |b| < n {
      assert b <= Encode(h);
      HeaderCut(s.scratch, d, b);
    } else if |b| >= n {
      var x := b[n..];
      assert b == Encode(h) + x;
      ReadsBack(h, x, s.scratch);
      AfterHeader(s.scratch, d, b, n);
      if |b| >= |Encoded(d)| {
        PayloadBehind(d, b, rest);
      }
    }
  }

  // ---- The handshake ----

  lemma HeadIncomplete(request: bytes, headers: seq<bytes>, b: bytes, rest: bytes)
    requires WellFormed(request, headers) && b <= Head(request, headers) + rest && |b| < |Head(request, headers)|
    ensures Find(b, END).None?
  {
    if Find(b, END).Some? {
      var h := Head(request, headers) + rest;
      assert h == b + h[|b|..];
      FindPrefix(b, h[|b|..], END);
      HeadFound(request, headers, rest);
    }
  }

  /** Whatever part of a good request, and of anything behind it, is in the buffer: it is answered as soon as it is
      complete, and before that nothing is consumed. */
  lemma HeadCall(s: State, request: bytes, headers: seq<bytes>, b: bytes, rest: bytes)
    requires !s.upgraded && WellFormed(request, headers) && GoodRequest(request, headers)
    requires b <= Head(request, headers) + rest
    ensures var k := Take(s, b);
            && (|b| < |Head(request, headers)| ==> k == Taken(s, None, 0))
            && (|b| >= |Head(request, headers)| ==>
                  && k.frame == Some(Response(Accepted(Nonce(headers)))) && k.used == |Head(request, headers)| && k.next.upgraded)
  {
    var h := Head(request, headers);
    if |b| < |h| {
      HeadIncomplete(request, headers, b, rest);
    } else {
      var x := b[|h|..];
      assert b == h + x;
      Acceptance(request, headers, x);
      UpgradingHead(request, headers, x);
    }
  }

  // ---- Segmentation ----

  predicate AllShort(fs: seq<Delivery>) { forall d <- fs :: Short(d) }

  /** Part of a stream of short frames. */
  ghost predicate Frames(b: bytes)
  {
    exists fs: seq<Delivery> :: AllShort(fs) && b <= Stream(Encoded, fs)
  }

  /** Part of a good request followed by a stream of short frames. */
  ghost predicate Session(b: bytes)
  {
    exists request, headers, fs: seq<Delivery> ::
      WellFormed(request, headers) && GoodRequest(request, headers) && AllShort(fs)
      && b <= Head(request, headers) + Stream(Encoded, fs)
  }

  const VIEW := (s: State) => s.upgraded

  ghost predicate Promised(upgraded: bool, b: bytes)
  {
    if upgraded then Frames(b) else Session(b)
  }

  lemma FramesOpen(b: bytes) returns (d: Delivery, fs: seq<Delivery>)
    requires Frames(b) && b != []
    ensures Short(d) && AllShort(fs) && b <= Encoded(d) + Stream(Encoded, fs)
  {
    var all: seq<Delivery> :| AllShort(all) && b <= Stream(Encoded, all);
    d, fs := all[0], all[1..];
  }

  lemma PrefixTail(b: bytes, n: nat, c: bytes)
    requires n <= |b| && b <= c
    ensures b[n..] <= c[n..]
  {}

  /** In the promised domain a call either takes a whole frame and stays in the domain, or leaves everything as it is. */
  lemma PromisedCall(s: State, b: bytes)
    requires Promised(s.upgraded, b)
    ensures var k := Take(s, b);
            && (k.frame.None? ==> k.used == 0 && k.next.upgraded == s.upgraded)
            && (k.frame.Some? ==> k.next.upgraded && k.used <= |b| && Promised(true, b[k.used..]))
  {
    if s.upgraded {
      if b != [] {
        var d, fs := FramesOpen(b);
        ShortCall(s, d, b, Stream(Encoded, fs));
        if |b| >= |Encoded(d)| {
          PrefixTail(b, |Encoded(d)|, Encoded(d) + Stream(Encoded, fs));
          assert (Encoded(d) + Stream(Encoded, fs))[|Encoded(d)|..] == Stream(Encoded, fs);
        }
      }
    } else {
      var request, headers, fs: seq<Delivery> :| WellFormed(request, headers) && GoodRequest(request, headers)
        && AllShort(fs) && b <= Head(request, headers) + Stream(Encoded, fs);
      var h := Head(request, headers);
      HeadCall(s, request, headers, b, Stream(Encoded, fs));
      if |b| >= |h| {
        PrefixTail(b, |h|, h + Stream(Encoded, fs));
        assert (h + Stream(Encoded, fs))[|h|..] == Stream(Encoded, fs);
      }
    }
  }

  /** A call that takes a frame does the same with more bytes behind it and with another scratch slice. */
  lemma PromisedExtends(s: State, t: State, b: bytes, x: bytes)
    requires Promised(s.upgraded, b + x) && s.upgraded == t.upgraded && Fires(Take, s, b)
    ensures Agree(Take, VIEW, s, b, t, b + x)
  {
    if s.upgraded {
      if b + x != [] {
        var d, fs := FramesOpen(b + x);
        ShortCall(s, d, b, Stream(Encoded, fs));
        ShortCall(t, d, b + x, Stream(Encoded, fs));
      }
    } else {
      var request, headers, fs: seq<Delivery> :| WellFormed(request, headers) && GoodRequest(request, headers)
        && AllShort(fs) && b + x <= Head(request, headers) + Stream(Encoded, fs);
      HeadCall(s, request, headers, b, Stream(Encoded, fs));
      HeadCall(t, request, headers, b + x, Stream(Encoded, fs));
    }
  }

  lemma PromisedPrefix(v: bool, b: bytes, x: bytes)
    requires Promised(v, b + x)
    ensures Promised(v, b)
  {
    assert b <= b + x;
    if v {
      var fs: seq<Delivery> :| AllShort(fs) && b + x <= Stream(Encoded, fs);
      assert b <= Stream(Encoded, fs);
    } else {
      var request, headers, fs: seq<Delivery> :| WellFormed(request, headers) && GoodRequest(request, headers)
        && AllShort(fs) && b + x <= Head(request, headers) + Stream(Encoded, fs);
      assert b <= Head(request, headers) + Stream(Encoded, fs);
    }
  }

  lemma TakeIsStable()
    ensures Stable(Take, VIEW, Promised)
  {
    Progresses();
    forall v: bool, b: bytes, x: bytes | Promised(v, b + x)
      ensures Promised(v, b)
    {
      PromisedPrefix(v, b, x);
    }
    forall s: State, b: bytes {:trigger Fires(Take, s, b)} | Promised(VIEW(s), b)
      ensures Fires(Take, s, b) ==> Promised(VIEW(Take(s, b).next), b[Take(s, b).used..])
      ensures !Fires(Take, s, b) ==> VIEW(Take(s, b).next) == VIEW(s)
    {
      PromisedCall(s, b);
    }
    forall s: State, t: State, b: bytes, x: bytes {:trigger Agree(Take, VIEW, s, b, t, b + x)}
      | Promised(VIEW(s), b + x) && VIEW(s) == VIEW(t) && Fires(Take, s, b)
      ensures Agree(Take, VIEW, s, b, t, b + x)
    {
      PromisedExtends(s, t, b, x);
    }
  }

  lemma {:induction false} AlwaysDrains(s: State, b: bytes)
    requires Promised(s.upgraded, b)
    ensures Progress(Take) && Drained(Take, s, b)
    decreases |b|
  {
    TakeIsStable();
    PromisedCall(s, b);
    var k := Take(s, b);
    if k.frame.Some? {
      AlwaysDrains(k.next, b[k.used..]);
    } else {
      QuietDrain(Take, VIEW, Promised, s, b);
    }
  }

  /** For every part of a session (the opening handshake and masked frames of at most 65535 bytes in their shortest form)
      what is delivered does not depend on how it is cut into reads, nor on what the scratch slice held. */
  lemma Segmentation(s: State, b: bytes)
    requires Promised(s.upgraded, b)
    ensures Progress(Take) && SegmentationIndependent(Take, VIEW, s, b)
  {
    TakeIsStable();
    AlwaysDrains(s, b);
    DrainedIsIndependent(Take, VIEW, Promised, s, b);
  }

  /** Not all of an encoded frame. */
  predicate Unfinished(tail: bytes, d: Delivery)
  {
    Short(d) && tail <= Encoded(d) && |tail| < |Encoded(d)|
  }

  lemma StreamAndTail(fs: seq<Delivery>, tail: bytes, d: Delivery)
    requires AllShort(fs) && Unfinished(tail, d)
    ensures AllShort(fs + [d]) && Stream(Encoded, fs) + tail <= Stream(Encoded, fs + [d])
  {
    StreamSnoc(Encoded, fs, d);
  }

  lemma FramesUndone(fs: seq<Delivery>)
    requires AllShort(fs)
    ensures Undoes(Take, VIEW, true, Encoded, fs, 0)
  {
    forall s: State, f, x: bytes {:trigger Take(s, Encoded(f) + x)} | VIEW(s) == true && f in fs
      ensures var k := Take(s, Encoded(f) + x); k.frame == Some(f) && k.used == |Encoded(f)| && VIEW(k.next) == true
    {
      assert Short(f);
      ShortCall(s, f, Encoded(f) + x, x);
    }
  }

  lemma TailCall(s: State, tail: bytes, d: Delivery)
    requires s.upgraded && Unfinished(tail, d)
    ensures !Fires(Take, s, tail) && Take(s, tail).next.upgraded
  {
    assert Encoded(d) + [] == Encoded(d);
    ShortCall(s, d, tail, []);
  }

  lemma TailWaits(tail: bytes, d: Delivery)
    requires Unfinished(tail, d)
    ensures Waits(Take, VIEW, true, tail)
  {
    forall s: State {:trigger Take(s, tail)} | VIEW(s) == true
      ensures !Fires(Take, s, tail) && VIEW(Take(s, tail).next) == true
    {
      TailCall(s, tail, d);
    }
  }

  /** After the upgrade: every list of such frames, with an unfinished one behind it, is delivered with its headers and
      unmasked payloads, in order and in full, by every segmentation, and the unfinished frame stays whole. */
  lemma FramesDelivered(s: State, fs: seq<Delivery>, tail: bytes, d: Delivery, parts: seq<bytes>)
    requires s.upgraded && AllShort(fs) && Unfinished(tail, d)
    requires parts != [] && Concat(parts) == Stream(Encoded, fs) + tail
    ensures Progress(Take)
    ensures var o := Feed(Take, s, [], parts); o.frames == fs && o.rest == tail && o.state.upgraded
  {
    TakeIsStable();
    FramesUndone(fs);
    TailWaits(tail, d);
    StreamAndTail(fs, tail, d);
    StreamDelivered(Take, VIEW, Promised, Encoded, s, fs, tail, 0, parts);
  }

  lemma SessionDrained(s: State, request: bytes, headers: seq<bytes>, fs: seq<Delivery>, tail: bytes, d: Delivery)
    requires !s.upgraded && WellFormed(request, headers) && GoodRequest(request, headers)
    requires AllShort(fs) && Unfinished(tail, d)
    ensures Progress(Take)
    ensures var o := Drain(Take, s, Head(request, headers) + (Stream(Encoded, fs) + tail));
            o.frames == [Response(Accepted(Nonce(headers)))] + fs && o.rest == tail && o.state.upgraded
  {
    Progresses();
    var h, x := Head(request, headers), Stream(Encoded, fs) + tail;
    HeadCall(s, request, headers, h + x, x);
    assert (h + x)[|h|..] == x;
    FramesUndone(fs);
    TailWaits(tail, d);
    DrainStream(Take, VIEW, Encoded, Take(s, h + x).next, fs, tail, 0);
  }

  /** From the first byte on: the response to the handshake and then the frames, by every segmentation, including those
      that cut the request or put its end and the first frames into one read. */
  lemma SessionDelivered(
      s: State, request: bytes, headers: seq<bytes>, fs: seq<Delivery>, tail: bytes, d: Delivery, parts: seq<bytes>)
    requires !s.upgraded && WellFormed(request, headers) && GoodRequest(request, headers)
    requires AllShort(fs) && Unfinished(tail, d)
    requires parts != [] && Concat(parts) == Head(request, headers) + (Stream(Encoded, fs) + tail)
    ensures Progress(Take)
    ensures var o := Feed(Take, s, [], parts);
            o.frames == [Response(Accepted(Nonce(headers)))] + fs && o.rest == tail && o.state.upgraded
  {
    StreamAndTail(fs, tail, d);
    var b := Concat(parts);
    assert b <= Head(request, headers) + Stream(Encoded, fs + [d]);
    assert Session(b);
    TakeIsStable();
    AlwaysDrains(s, b);
    assert [] + b == b;
    FeedIsDrain(Take, VIEW, Promised, s, [], parts);
    SessionDrained(s, request, headers, fs, tail, d);
  }

  /** A call takes off no more than there is, and something if it hands out a frame. */
  lemma CallProgress(scratch: Scratch, b: bytes, v: nat, cut: nat)
    requires v <= |b| && cut <= |b|
    ensures var k := TakeFrameAt(scratch, b, v).0; k.used <= |b| && (k.frame.Some? ==> k.used > 0)
    ensures var k := Answered(scratch, UpgradingAt(b, cut)); k.used <= |b| && (k.frame.Some? ==> k.used > 0)
  {
    ReadShape(scratch, b, v);
    NothingToRead();
    assert b[..0] == [];
  }

  /** A short frame has no length that could be bad. */
  lemma NeverBad(scratch: Scratch, d: Delivery, b: bytes, rest: bytes)
    requires Short(d) && b <= Encoded(d) + rest
    ensures !ReadHeader(scratch, b).BadLength?
  {
    if |b| >= 6 {
      HeaderSize(d);
      assert b[1] == Encode(d.header)[1];
      EncodedIsLaidOut(d.header, []);
      assert Encode(d.header) + [] == Encode(d.header);
      SecondByteParts(d.header, b[1]);
    }
  }

  // ---- A session, call by call ----

  /** Before the upgrade a good request and its response; after it a short frame. */
  ghost predicate Item(upgraded: bool, d: Delivery, text: bytes)
  {
    if upgraded then Short(d) && text == Encoded(d)
    else exists request, headers ::
           && WellFormed(request, headers) && GoodRequest(request, headers)
           && d == Response(Accepted(Nonce(headers))) && text == Head(request, headers)
  }

  ghost predicate Remainder(tail: bytes)
  {
    exists d :: Unfinished(tail, d)
  }

  /** What a call does: it delivers d, whose text is n bytes long, if it is due. */
  ghost predicate Calls(k: Taken<State, Delivery>, due: bool, d: Delivery, n: nat, upgraded: bool)
  {
    if due then k.frame == Some(d) && k.used == n && k.next.upgraded
    else k.frame.None? && k.used == 0 && k.next.upgraded == upgraded
  }

  /** A request in contents that do not wrap. */
  lemma RequestCall(s: State, d: Delivery, text: bytes, b: bytes, rest: bytes)
    requires !s.upgraded && Item(false, d, text) && b <= text + rest
    ensures Calls(Answered(s.scratch, UpgradingAt(b, |b|)), |b| >= |text|, d, |text|, false)
  {
    var request, headers :| WellFormed(request, headers) && GoodRequest(request, headers)
      && d == Response(Accepted(Nonce(headers))) && text == Head(request, headers);
    HeadCall(s, request, headers, b, rest);
    Unwrapped(b, |b|);
    WrapAndTake(s.scratch, b, |b|);
  }

  lemma FrameCall(s: State, d: Delivery, text: bytes, b: bytes, rest: bytes)
    requires s.upgraded && Item(true, d, text) && b <= text + rest
    ensures var (k, v) := TakeFrameAt(s.scratch, b, 0); v == 0 && Calls(k, |b| >= |text|, d, |text|, true)
  {
    TakeFrameAtStart(s.scratch, b);
    NeverBad(s.scratch, d, b, rest);
    ShortCall(s, d, b, rest);
  }

  lemma LastCall(s: State, tail: bytes, d: Delivery, b: bytes)
    requires s.upgraded && Unfinished(tail, d) && b <= tail
    ensures var (k, v) := TakeFrameAt(s.scratch, b, 0); v == 0 && Calls(k, false, d, 0, true)
  {
    assert Encoded(d) + [] == Encoded(d);
    FrameCall(s, d, Encoded(d), b, []);
  }

  /** What the code does on contents that do not wrap, with the virtual cursor where the read cursor is. */
  function Call(s: State, b: bytes): (Taken<State, Delivery>, nat)
  {
    if s.upgraded then TakeFrameAt(s.scratch, b, 0) else (Answered(s.scratch, UpgradingAt(b, |b|)), 0)
  }

  lemma DueIsDelivered(s: State, c: Coming<Delivery>, b: bytes, ahead: bytes)
    requires Arriving(Item, Remainder, s.upgraded, c, b, ahead)
    ensures Call(s, b).1 == 0
    ensures Calls(Call(s, b).0, Due(c, b), if Due(c, b) then c.deliveries[0] else Response(Refused(Malformed)),
                  if Due(c, b) then |c.texts[0]| else 0, s.upgraded)
  {
    FirstText(Item, Remainder, s.upgraded, c, b, ahead);
    assert ItemAt(Item, Remainder, s.upgraded, c, 0);
    if c.deliveries == [] {
      var d :| Unfinished(c.tail, d);
      LastCall(s, c.tail, d, b);
    } else if s.upgraded {
      FrameCall(s, c.deliveries[0], c.texts[0], b, Concat(c.texts[1..]) + c.tail);
    } else {
      RequestCall(s, c.deliveries[0], c.texts[0], b, Concat(c.texts[1..]) + c.tail);
    }
  }

  lemma {:induction false} FramesCome(fs: seq<Delivery>, tail: bytes) returns (c: Coming<Delivery>)
    requires AllShort(fs) && Remainder(tail)
    ensures Lawful(Item, Remainder, true, c) && c.deliveries == fs && c.tail == tail && Concat(c.texts) == Stream(Encoded, fs)
  {
    if fs == [] {
      c := Coming([], [], tail);
      LawfulEnd(Item, Remainder, tail);
    } else {
      assert Short(fs[0]);
      c := FramesCome(fs[1..], tail);
      LawfulCons(Item, Remainder, true, fs[0], Encoded(fs[0]), c);
      c := Sooner(fs[0], Encoded(fs[0]), c);
    }
  }

  /** A whole session that is about to arrive. */
  lemma SessionComes(request: bytes, headers: seq<bytes>, fs: seq<Delivery>, tail: bytes, d: Delivery) returns (c: Coming<Delivery>)
    requires WellFormed(request, headers) && GoodRequest(request, headers) && AllShort(fs) && Unfinished(tail, d)
    ensures Arriving(Item, Remainder, false, c, [], Head(request, headers) + (Stream(Encoded, fs) + tail))
    ensures c.deliveries == [Response(Accepted(Nonce(headers)))] + fs && c.tail == tail
  {
    assert Remainder(tail);
    c := FramesCome(fs, tail);
    var r, h := Response(Accepted(Nonce(headers))), Head(request, headers);
    assert Item(false, r, h);
    LawfulCons(Item, Remainder, false, r, h, c);
    SoonerText(r, h, c);
    c := Sooner(r, h, c);
  }

  // ---- The code ----

  /** The payload is copied out of the buffer and unmasked in place. */
  method ReadPayload(buffer: RingBuffer, h: Header, e: WsCipher.Endian) returns (out: bytes)
    requires buffer.Valid() && |h.mask| == 4 && 0 <= h.length <= |buffer.data|
    modifies buffer
    ensures buffer.Valid() && buffer.virtual == 0 && buffer.data == old(buffer.data)[h.length..]
    ensures old(buffer.cut) == |old(buffer.data)| ==> buffer.cut == |buffer.data|
    ensures out == Unmasked(h, old(buffer.data)[..h.length])
  {
    var read := buffer.Read(h.length);
    var payload := new byte[|read|](i requires 0 <= i < |read| => read[i]);
    assert payload[..] == read;
    if h.masked {
      WsCipher.Cipher(payload, h.mask, 0, e);
    }
    out := payload[..];
  }

  lemma SliceTwice(b: bytes, begin: nat, n: nat)
    requires begin + n <= |b|
    ensures b[begin..][..n] == b[begin..begin + n] && b[begin..][n..] == b[begin + n..]
  {}

  /** The header is read: the payload follows, or everything is left for later. */
  method FinishFrame(buffer: RingBuffer, h: Header, e: WsCipher.Endian) returns (ctx: Option<Header>, out: bytes)
    requires buffer.Valid() && |h.mask| == 4 && 0 <= h.length
    modifies buffer
    ensures buffer.Valid() && buffer.virtual == 0 && (old(buffer.cut) == |old(buffer.data)| ==> buffer.cut == |buffer.data|)
    ensures var b, begin := old(buffer.data), old(buffer.virtual);
            if |b| < begin + h.length then ctx.None? && buffer.data == b
            else ctx == Some(h) && out == Unmasked(h, b[begin..begin + h.length]) && buffer.data == b[begin + h.length..]
  {
    ctx, out := None, [];
    ghost var b, begin := buffer.data, buffer.virtual;
    if |buffer.data| - buffer.virtual >= h.length {
      buffer.VirtualFlush();
      SliceTwice(b, begin, h.length);
      out := ReadPayload(buffer, h, e);
      ctx := Some(h);
    } else {
      buffer.VirtualRevert();
    }
  }

  /** What `UnPacket` keeps in the connection. */
  class Keys {
    var upgraded: bool
    var scratch: array<byte>

    ghost predicate Valid()
      reads this, scratch
    {
      scratch.Length == SCRATCH_SIZE
    }

    ghost function Abstract(): State
      requires Valid()
      reads this, scratch
    {
      State(upgraded, scratch[..])
    }

    constructor ()
      ensures Valid() && !upgraded && fresh(scratch)
    {
      upgraded, scratch := false, new byte[SCRATCH_SIZE];
    }

    /** A frame, or nothing. */
    method UnPacketFrame(buffer: RingBuffer, e: WsCipher.Endian) returns (ctx: Option<Header>, out: bytes)
      requires Valid() && buffer.Valid()
      modifies scratch, buffer
      ensures buffer.Valid() && (old(buffer.cut) == |old(buffer.data)| ==> buffer.cut == |buffer.data|)
      ensures var (k, v) := TakeFrameAt(old(scratch[..]), old(buffer.data), old(buffer.virtual));
              && k.used <= |old(buffer.data)| && buffer.data == old(buffer.data)[k.used..] && buffer.virtual == v
              && scratch[..] == k.next.scratch && k.frame == if ctx.None? then None else Some(Message(ctx.value, out))
    {
      ctx, out := None, [];
      ghost var b, v := buffer.data, buffer.virtual;
      assert b[0..] == b;
      ReadShape(scratch[..], b, v);
      var r := VirtualReadHeader(scratch, buffer);
      if !r.Parsed? {
        return;
      }
      ctx, out := FinishFrame(buffer, r.header, e);
    }

    /** The response to a handshake is returned as its verdict; on acceptance a scratch slice with arbitrary contents is
        taken from the pool. */
    method UnPacketHandshake(buffer: RingBuffer) returns (reply: Option<Verdict>)
      requires Valid() && !upgraded && buffer.Valid() && buffer.virtual == 0
      modifies this, buffer
      ensures Valid() && buffer.Valid() && buffer.virtual == 0 && (scratch == old(scratch) || fresh(scratch))
      ensures old(buffer.cut) == |old(buffer.data)| ==> buffer.cut == |buffer.data|
      ensures var k := Answered(old(scratch[..]), UpgradingAt(old(buffer.data), old(buffer.cut)));
              && k.used <= |old(buffer.data)| && buffer.data == old(buffer.data)[k.used..] && upgraded == k.next.upgraded
              && (k.used == 0 ==> buffer.taken == old(buffer.taken))
              && k.frame == if reply.Some? then Some(Response(reply.value)) else None
    {
      ghost var u := UpgradingAt(buffer.data, buffer.cut);
      var err;
      reply, err := Upgrade(buffer);
      if err.None? {
        upgraded := true;
        scratch := new byte[SCRATCH_SIZE];
      }
    }

    /** `UnPacket`, wherever the contents of the buffer wrap and wherever a bad length has left the virtual cursor. */
    method UnPacket(buffer: RingBuffer, e: WsCipher.Endian) returns (reply: Option<Verdict>, ctx: Option<Header>, out: bytes)
      requires Valid() && buffer.Valid() && (upgraded || buffer.virtual == 0)
      modifies this, scratch, buffer
      ensures Valid() && buffer.Valid() && (scratch == old(scratch) || fresh(scratch))
      ensures old(buffer.cut) == |old(buffer.data)| ==> buffer.cut == |buffer.data|
      ensures var (k, v) := if old(upgraded) then TakeFrameAt(old(scratch[..]), old(buffer.data), old(buffer.virtual))
                            else (Answered(old(scratch[..]), UpgradingAt(old(buffer.data), old(buffer.cut))), 0);
              && k.used <= |old(buffer.data)| && buffer.data == old(buffer.data)[k.used..] && buffer.virtual == v
              && upgraded == k.next.upgraded && (old(upgraded) ==> scratch[..] == k.next.scratch)
              && (!old(upgraded) && k.used == 0 ==> buffer.taken == old(buffer.taken))
              && k.frame == if reply.Some? then Some(Response(reply.value))
                            else if ctx.Some? then Some(Message(ctx.value, out)) else None
    {
      reply, ctx, out := None, None, [];
      if !upgraded {
        reply := UnPacketHandshake(buffer);
      } else {
        ctx, out := UnPacketFrame(buffer, e);
      }
    }

    /** Of what is to come, the contents of the buffer are here; until the upgrade they do not wrap. */
    ghost predicate Holds(buffer: RingBuffer, c: Coming<Delivery>, ahead: bytes)
      reads this, buffer
    {
      && Arriving(Item, Remainder, upgraded, c, buffer.data, ahead)
      && buffer.virtual == 0 && (upgraded || buffer.cut == |buffer.data|)
    }

    /** One call in the loop of `handlerProtocol`. In a session it delivers what is due, or leaves everything as it is. */
    method Next(buffer: RingBuffer, e: WsCipher.Endian, ghost c: Coming<Delivery>, ghost ahead: bytes) returns (d: Option<Delivery>)
      requires Valid() && buffer.Valid() && (upgraded || buffer.virtual == 0)
      modifies this, scratch, buffer
      ensures Valid() && buffer.Valid() && (upgraded || buffer.virtual == 0) && (scratch == old(scratch) || fresh(scratch))
      ensures old(upgraded) ==> upgraded
      ensures |buffer.data| <= |old(buffer.data)| && (d.Some? ==> |buffer.data| < |old(buffer.data)|)
      ensures old(buffer.cut) == |old(buffer.data)| ==> buffer.cut == |buffer.data|
      ensures old(Holds(buffer, c, ahead)) ==>
                if d.Some?
                then c.deliveries != [] && d.value == c.deliveries[0] && upgraded && Holds(buffer, Later(c), ahead)
                else Holds(buffer, c, ahead) && !Due(c, buffer.data) && (!upgraded ==> buffer.taken == old(buffer.taken))
    {
      ghost var s, b, holds := Abstract(), buffer.data, Holds(buffer, c, ahead);
      CallProgress(s.scratch, b, buffer.virtual, buffer.cut);
      if holds {
        assert b[0..] == b;
        DueIsDelivered(s, c, b, ahead);
        if Due(c, b) {
          LaterArrives(Item, Remainder, s.upgraded, c, b, ahead);
        }
      }
      var reply, ctx, out := UnPacket(buffer, e);
      d := if reply.Some? then Some(Response(reply.value)) else if ctx.Some? then Some(Message(ctx.value, out)) else None;
    }

    /** `handlerProtocol`. In a session it delivers what is there in full, in order; the rest stays, and stays to come. */
    method HandlerProtocol(buffer: RingBuffer, e: WsCipher.Endian, ghost c: Coming<Delivery>, ghost ahead: bytes)
      returns (got: seq<Delivery>, ghost left: Coming<Delivery>)
      requires Valid() && buffer.Valid() && (upgraded || buffer.virtual == 0)
      modifies this, scratch, buffer
      ensures Valid() && buffer.Valid() && (upgraded || buffer.virtual == 0) && (scratch == old(scratch) || fresh(scratch))
      ensures (old(upgraded) ==> upgraded) && (old(buffer.cut) == |old(buffer.data)| ==> buffer.cut == |buffer.data|)
      ensures old(Holds(buffer, c, ahead)) ==>
                && Holds(buffer, left, ahead) && !Due(left, buffer.data) && left.tail == c.tail
                && got + left.deliveries == c.deliveries && (!upgraded ==> buffer.taken == old(buffer.taken))
    {
      ghost var holds := Holds(buffer, c, ahead);
      got, left := [], c;
      var next := Next(buffer, e, left, ahead);
      while next.Some?
        invariant Valid() && buffer.Valid() && (upgraded || buffer.virtual == 0) && (scratch == old(scratch) || fresh(scratch))
        invariant (old(upgraded) ==> upgraded) && (old(buffer.cut) == |old(buffer.data)| ==> buffer.cut == |buffer.data|)
        invariant holds ==> left.tail == c.tail && got + left.deliveries == c.deliveries
        invariant holds && next.Some? ==>
                    left.deliveries != [] && next.value == left.deliveries[0] && upgraded && |left.texts| == |left.deliveries|
                    && Holds(buffer, Later(left), ahead)
        invariant holds && next.None? ==> Holds(buffer, left, ahead) && !Due(left, buffer.data)
        invariant holds && !upgraded ==> buffer.taken == old(buffer.taken)
        decreases |buffer.data| + if next.Some? then 1 else 0
      {
        got := got + [next.value];
        if holds {
          assert left.deliveries == [next.value] + left.deliveries[1..];
          left := Later(left);
        }
        next := Next(buffer, e, left, ahead);
      }
    }

    /** Until the upgrade nothing was taken from the buffer since it was new or reset. */
    ghost predicate Keeps(inBuffer: RingBuffer, c: Coming<Delivery>, ahead: bytes)
      reads this, inBuffer
    {
      && Arriving(Item, Remainder, upgraded, c, inBuffer.data, ahead)
      && inBuffer.virtual == 0 && (upgraded || !inBuffer.taken)
    }

    /** `handleRead`: an empty input buffer is left out of it, and only what is left over is written there. */
    method HandleRead(inBuffer: RingBuffer, data: bytes, e: WsCipher.Endian, ghost c: Coming<Delivery>, ghost ahead: bytes)
      returns (got: seq<Delivery>, ghost left: Coming<Delivery>)
      requires Valid() && inBuffer.Valid() && (upgraded || inBuffer.virtual == 0)
      modifies this, scratch, inBuffer
      ensures Valid() && inBuffer.Valid() && (upgraded || inBuffer.virtual == 0) && (scratch == old(scratch) || fresh(scratch))
      ensures old(Keeps(inBuffer, c, data + ahead)) ==>
                && Keeps(inBuffer, left, ahead) && !Due(left, inBuffer.data) && left.tail == c.tail
                && got + left.deliveries == c.deliveries
    {
      assert inBuffer.data + (data + ahead) == (inBuffer.data + data) + ahead;
      if inBuffer.data == [] {
        assert inBuffer.data + data == data;
        var buffer := new RingBuffer();
        buffer.Write(data);
        assert buffer.data == data;
        got, left := HandlerProtocol(buffer, e, c, ahead);
        if buffer.data != [] {
          var first, _ := buffer.PeekAll();
          inBuffer.Write(first);
        }
      } else {
        inBuffer.Write(data);
        got, left := HandlerProtocol(inBuffer, e, c, ahead);
      }
      if inBuffer.data == [] {
        inBuffer.Reset();
      }
    }

    /** All the reads of a connection. Once everything has arrived, everything was delivered. */
    method Receive(inBuffer: RingBuffer, parts: seq<bytes>, e: WsCipher.Endian, ghost c: Coming<Delivery>) returns (got: seq<Delivery>)
      requires Valid() && inBuffer.Valid() && inBuffer.data == [] && inBuffer.virtual == 0 && !inBuffer.taken
      modifies this, scratch, inBuffer
      ensures Valid() && inBuffer.Valid()
      ensures parts != [] && Arriving(Item, Remainder, old(upgraded), c, [], Concat(parts)) ==>
                got == c.deliveries && inBuffer.data == c.tail && upgraded
    {
      ghost var arriving, left := Arriving(Item, Remainder, upgraded, c, [], Concat(parts)), c;
      assert parts[0..] == parts;
      got := [];
      for i := 0 to |parts|
        invariant Valid() && inBuffer.Valid() && (upgraded || inBuffer.virtual == 0)
        invariant scratch == old(scratch) || fresh(scratch)
        invariant arriving ==> Keeps(inBuffer, left, Concat(parts[i..])) && left.tail == c.tail && got + left.deliveries == c.deliveries
        invariant arriving && i > 0 ==> !Due(left, inBuffer.data)
      {
        assert parts[i..][1..] == parts[i + 1..];
        ghost var before, all := got, left.deliveries;
        var more;
        more, left := HandleRead(inBuffer, parts[i], e, left, Concat(parts[i + 1..]));
        got := got + more;
        assert arriving ==> before + (more + left.deliveries) == got + left.deliveries;
      }
      if parts != [] && arriving {
        assert parts[|parts|..] == [];
        AllArrived(Item, Remainder, upgraded, left, inBuffer.data);
        assert got + [] == got;
      }
    }

    /** From the first byte on, on the code itself: the response to the handshake and then the frames, by every segmentation,
        including those that cut the request or put its end and the first frames into one read. */
    method Serve(inBuffer: RingBuffer, parts: seq<bytes>, e: WsCipher.Endian,
                 ghost request: bytes, ghost headers: seq<bytes>, ghost fs: seq<Delivery>, ghost tail: bytes, ghost d: Delivery)
      returns (got: seq<Delivery>)
      requires Valid() && !upgraded && inBuffer.Valid() && inBuffer.data == [] && inBuffer.virtual == 0 && !inBuffer.taken
      requires WellFormed(request, headers) && GoodRequest(request, headers) && AllShort(fs) && Unfinished(tail, d)
      requires parts != [] && Concat(parts) == Head(request, headers) + (Stream(Encoded, fs) + tail)
      modifies this, scratch, inBuffer
      ensures Valid() && inBuffer.Valid() && upgraded
      ensures got == [Response(Accepted(Nonce(headers)))] + fs && inBuffer.data == tail
    {
      ghost var c := SessionComes(request, headers, fs, tail, d);
      got := Receive(inBuffer, parts, e, c);
    }
  }
}
