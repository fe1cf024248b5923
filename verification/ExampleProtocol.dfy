/** example/protocol/protocol.go: frames of a four-byte big-endian length and that many bytes. */
module ExampleProtocol {
  import opened Bytes
  import opened RingBuffers
  import opened Framing

  const HEADER_LEN := 4

  function Encode(d: bytes): bytes
  {
    PutUint(|d|, HEADER_LEN) + d
  }

  method Packet(data: bytes) returns (ret: array<byte>)
    ensures fresh(ret) && ret[..] == Encode(data)
  {
    ret := new byte[HEADER_LEN + |data|];
    var n := Copy(ret, 0, PutUint(|data|, HEADER_LEN));
    n := Copy(ret, HEADER_LEN, data);
  }

  /** What `UnPacket` takes off a buffer. A zero-length frame is consumed but hands the loop nothing. */
  function Take(s: (), b: bytes): Taken<(), bytes>
  {
    if |b| > HEADER_LEN && |b| - HEADER_LEN >= GetUint(b[..HEADER_LEN]) then
      var end := HEADER_LEN + GetUint(b[..HEADER_LEN]);
      Taken(s, if end == HEADER_LEN then None else Some(b[HEADER_LEN..end]), end)
    else
      Taken(s, None, 0)
  }

  method UnPacket(buffer: RingBuffer) returns (out: bytes)
    requires buffer.Valid() && buffer.virtual == 0
    modifies buffer
    ensures buffer.Valid() && buffer.virtual == 0
    ensures var k := Take((), old(buffer.data));
            && buffer.data == old(buffer.data)[k.used..]
            && (out == [] <==> k.frame.None?) && (out != [] ==> k.frame == Some(out))
  {
    out := [];
    if |buffer.data| - buffer.virtual > HEADER_LEN {
      var buf := buffer.VirtualRead(HEADER_LEN);
      assert buf == buffer.data[..HEADER_LEN];
      var dataLen := GetUint(buf);
      if |buffer.data| - buffer.virtual >= dataLen {
        out := buffer.VirtualRead(dataLen);
        assert out == buffer.data[HEADER_LEN..HEADER_LEN + dataLen];
        buffer.VirtualFlush();
      } else {
        buffer.VirtualRevert();
      }
    }
  }

  const VIEW := (s: ()) => s

  predicate Anything(v: (), b: bytes) { true }

  lemma TakeIsStable()
    ensures Stable(Take, VIEW, Anything) && Lookahead(Take, VIEW, Anything)
  {
    assert Progress(Take);
    forall s: (), t: (), b: bytes, x: bytes {:trigger Agree(Take, VIEW, s, b, t, b + x)} | Fires(Take, s, b)
      ensures Agree(Take, VIEW, s, b, t, b + x)
    {
      var end := Take(s, b).used;
      assert (b + x)[..HEADER_LEN] == b[..HEADER_LEN] && (b + x)[HEADER_LEN..end] == b[HEADER_LEN..end];
    }
    forall s: (), b: bytes {:trigger Fires(Take, s, b)}
      | Fires(Take, s, b) && Fires(Take, Take(s, b).next, b[Take(s, b).used..])
      ensures Agree(Take, VIEW, s, b, s, b[..|b| - 1])
    {
      var a, end := b[..|b| - 1], Take(s, b).used;
      assert a[..HEADER_LEN] == b[..HEADER_LEN] && a[HEADER_LEN..end] == b[HEADER_LEN..end];
    }
  }

  predicate Fits(d: bytes) { 1 <= |d| < 0x1_0000_0000 }

  /** `UnPacket` gives back what `Packet` wrote, whatever follows, exactly for payloads of 1 to 2^32 - 1 bytes. */
  lemma RoundTrip(d: bytes, x: bytes)
    ensures Take((), Encode(d) + x) == Taken((), Some(d), |Encode(d)|) <==> Fits(d)
  {
    var b := Encode(d) + x;
    assert b[..HEADER_LEN] == PutUint(|d|, HEADER_LEN);
    GetPut(|d|, HEADER_LEN);
    RadixValues();
    assert Fits(d) ==> b[HEADER_LEN..HEADER_LEN + |d|] == d;
  }

  predicate AllFit(packets: seq<bytes>) { forall d <- packets :: Fits(d) }

  /** The text starts with a frame that is there in full, and is more than a header. */
  predicate Complete(x: bytes)
  {
    |x| > HEADER_LEN && |x| - HEADER_LEN >= GetUint(x[..HEADER_LEN])
  }

  /** Packets, an empty one, and behind it a complete frame. */
  ghost predicate EmptyFrameBlocks(b: bytes)
  {
    exists packets: seq<bytes>, x: bytes :: AllFit(packets) && Complete(x) && b == Stream(Encode, packets) + (Encode([]) + x)
  }

  /** Whatever is taken off was the encoding of a packet. */
  lemma TakenWasPacked(b: bytes)
    requires Complete(b)
    ensures var k := Take((), b);
            && HEADER_LEN <= k.used <= |b| && b[..k.used] == Encode(b[HEADER_LEN..k.used])
            && (k.frame.Some? ==> Fits(k.frame.value))
  {
    PutGet(b[..HEADER_LEN]);
    GetUintBound(b[..HEADER_LEN]);
    RadixValues();
    var end := Take((), b).used;
    assert b[..end] == b[..HEADER_LEN] + b[HEADER_LEN..end];
  }

  lemma StreamCons(d: bytes, packets: seq<bytes>)
    ensures Stream(Encode, [d] + packets) == Encode(d) + Stream(Encode, packets)
  {
    assert ([d] + packets)[1..] == packets;
  }

  lemma Regroup(a: bytes, b: bytes, c: bytes)
    ensures (a + b) + c == a + (b + c)
  {}

  lemma BlockedBehind(d: bytes, rest: bytes)
    requires Fits(d) && EmptyFrameBlocks(rest)
    ensures EmptyFrameBlocks(Encode(d) + rest)
  {
    var packets: seq<bytes>, x: bytes :|
      AllFit(packets) && Complete(x) && rest == Stream(Encode, packets) + (Encode([]) + x);
    var all := [d] + packets;
    StreamCons(d, packets);
    Regroup(Encode(d), Stream(Encode, packets), Encode([]) + x);
    assert AllFit(all);
  }

  lemma BlockedByRest(b: bytes)
    requires var k := Take((), b); k.frame.Some? && k.used <= |b| && EmptyFrameBlocks(b[k.used..])
    ensures EmptyFrameBlocks(b)
  {
    var k := Take((), b);
    TakenWasPacked(b);
    BlockedBehind(k.frame.value, b[k.used..]);
    assert b == b[..k.used] + b[k.used..];
  }

  lemma BlockedAtOnce(b: bytes)
    requires Complete(b) && Take((), b).frame.None? && Complete(b[Take((), b).used..])
    ensures EmptyFrameBlocks(b)
  {
    TakenWasPacked(b);
    var none: seq<bytes>, x := [], b[HEADER_LEN..];
    assert b[HEADER_LEN..HEADER_LEN] == [] && b == b[..HEADER_LEN] + x;
    assert AllFit(none) && b == Stream(Encode, none) + (Encode([]) + x);
  }

  lemma {:induction false} UndrainedIsBlocked(b: bytes)
    requires Progress(Take) && !Drained(Take, (), b)
    ensures EmptyFrameBlocks(b)
    decreases |b|
  {
    var k := Take((), b);
    if k.frame.Some? {
      DrainFrame(Take, (), b);
      UndrainedIsBlocked(b[k.used..]);
      BlockedByRest(b);
    } else {
      DrainStops(Take, (), b);
      assert b[0..] == b;
      BlockedAtOnce(b);
    }
  }

  lemma {:induction false} BlockedIsUndrained(packets: seq<bytes>, x: bytes)
    requires Progress(Take) && AllFit(packets) && Complete(x)
    ensures !Drained(Take, (), Stream(Encode, packets) + (Encode([]) + x))
    decreases |packets|
  {
    var b := Stream(Encode, packets) + (Encode([]) + x);
    if packets == [] {
      assert b == Encode([]) + x;
      EmptyThenComplete(x);
    } else {
      var rest := Stream(Encode, packets[1..]) + (Encode([]) + x);
      assert b == Encode(packets[0]) + rest && Fits(packets[0]);
      BlockedIsUndrained(packets[1..], x);
      PacketThenBlocked(packets[0], rest);
    }
  }

  lemma EmptyThenComplete(x: bytes)
    requires Progress(Take) && Complete(x)
    ensures !Drained(Take, (), Encode([]) + x)
  {
    var b := Encode([]) + x;
    GetPut(0, HEADER_LEN);
    assert b[..HEADER_LEN] == PutUint(0, HEADER_LEN) && b[HEADER_LEN..] == x;
    DrainStops(Take, (), b);
  }

  lemma PacketThenBlocked(d: bytes, rest: bytes)
    requires Progress(Take) && Fits(d) && !Drained(Take, (), rest)
    ensures !Drained(Take, (), Encode(d) + rest)
  {
    var b := Encode(d) + rest;
    RoundTrip(d, rest);
    assert b[|Encode(d)|..] == rest;
    DrainFrame(Take, (), b);
  }

  lemma DrainedMeansUnblocked(b: bytes)
    ensures Progress(Take) && (Drained(Take, (), b) <==> !EmptyFrameBlocks(b))
  {
    TakeIsStable();
    if !Drained(Take, (), b) {
      UndrainedIsBlocked(b);
    }
    if EmptyFrameBlocks(b) {
      var packets: seq<bytes>, x: bytes :|
        AllFit(packets) && Complete(x) && b == Stream(Encode, packets) + (Encode([]) + x);
      BlockedIsUndrained(packets, x);
    }
  }

  /** What a connection delivers does not depend on how its input is cut into reads,
      if and only if no zero-length frame hides a complete frame. */
  lemma Segmentation(b: bytes)
    ensures Progress(Take) && (SegmentationIndependent(Take, VIEW, (), b) <==> !EmptyFrameBlocks(b))
  {
    TakeIsStable();
    SegmentationTheorem(Take, VIEW, Anything, (), b);
    DrainedMeansUnblocked(b);
  }

  /** An input for which it does depend: an empty frame followed by the frame "A", read in one piece or in two. */
  lemma SegmentationFails()
    ensures var b := Encode([]) + Encode([65]);
            Progress(Take) && !SegmentationIndependent(Take, VIEW, (), b)
  {
    var b := Encode([]) + Encode([65]);
    RoundTrip([65], []);
    assert Encode([65]) + [] == Encode([65]);
    var none: seq<bytes> := [];
    assert AllFit(none) && Complete(Encode([65])) && b == Stream(Encode, none) + (Encode([]) + Encode([65]));
    Segmentation(b);
  }

  /** Every list of packets of 1 to 2^32 - 1 bytes arrives unchanged and in order under every segmentation. */
  lemma {:induction false} PacketsDelivered(packets: seq<bytes>, parts: seq<bytes>)
    requires AllFit(packets)
    requires parts != [] && Concat(parts) == Stream(Encode, packets)
    ensures Progress(Take) && Feed(Take, (), [], parts) == Outcome((), packets, [])
  {
    TakeIsStable();
    forall s: (), d, x: bytes {:trigger Take(s, Encode(d) + x)} | d in packets
      ensures Take(s, Encode(d) + x) == Taken((), Some(d), |Encode(d)|)
    {
      assert s == ();
      RoundTrip(d, x);
    }
    assert Stream(Encode, packets) + [] == Stream(Encode, packets);
    StreamDelivered(Take, VIEW, Anything, Encode, (), packets, [], 0, parts);
  }
}
