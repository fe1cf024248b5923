/** plugins/protobuf: a four-byte length, a two-byte type length, the type name and the data. */
module Protobuf {
  import opened Bytes
  import opened RingBuffers
  import opened Framing

  datatype Message = Message(kind: bytes, data: bytes)

  /** `make([]byte, dataLen)` with a negative length panics, and the process with it. */
  datatype Mode = Serving | Crashed

  function Body(m: Message): nat
  {
    2 + |m.kind| + |m.data|
  }

  function Encode(m: Message): bytes
  {
    PutUint(Body(m), 4) + PutUint(|m.kind|, 2) + m.kind + m.data
  }

  method PackMessage(kind: bytes, data: bytes) returns (ret: array<byte>)
    ensures fresh(ret) && ret[..] == Encode(Message(kind, data))
  {
    var typeLen := |kind|;
    var length := |data| + typeLen + 2;
    ret := new byte[length + 4];
    ghost var head, types := PutUint(length, 4), PutUint(typeLen, 2);
    var n := Copy(ret, 0, PutUint(length, 4));
    assert ret[..4] == head;
    n := Copy(ret, 4, PutUint(typeLen, 2));
    assert ret[..6] == head + types;
    n := Copy(ret, 6, kind);
    assert ret[..6 + typeLen] == head + types + kind;
    n := Copy(ret, 6 + typeLen, data);
    assert ret[..] == ret[..length + 4];
  }

  function TypeLen(b: bytes): nat
    requires |b| >= 6
  {
    GetUint(b[4..6])
  }

  /** What `UnPacket` takes off a buffer. The type name is a non-nil context, so every message keeps the loop going. */
  function Take(s: Mode, b: bytes): Taken<Mode, Message>
  {
    if s == Crashed || |b| <= 6 || |b| < GetUint(b[..4]) + 4 then Taken(s, None, 0)
    else
      var end := GetUint(b[..4]) + 4;
      if end < 6 + TypeLen(b) then Taken(Crashed, None, 6)
      else Taken(s, Some(Message(b[6..6 + TypeLen(b)], b[6 + TypeLen(b)..end])), end)
  }

  /** What is behind the length of a complete message: the length of the type, the type and the data. */
  method ReadBody(buffer: RingBuffer, length: nat) returns (typeByte: bytes, data: bytes, panics: bool)
    requires buffer.Valid() && |buffer.data| >= 2 && |buffer.data| >= length
    modifies buffer
    ensures var b := old(buffer.data);
            var mid := 2 + GetUint(b[..2]);
            && panics == (length < mid)
            && (!panics ==> && buffer.Valid() && buffer.virtual == 0 && buffer.data == b[length..]
                            && typeByte == b[2..mid] && data == b[mid..length])
  {
    ghost var b := buffer.data;
    data, panics := [], false;
    var typeLen := GetUint(buffer.data[..2]);
    buffer.Retrieve(2);
    typeByte := buffer.Read(typeLen);
    var dataLen: int := length as int - 2 - typeLen;
    if dataLen < 0 {
      panics := true;
      return;
    }
    assert typeByte == b[2..2 + typeLen] && buffer.data == b[2 + typeLen..];
    data := buffer.Read(dataLen);
    assert data == b[2 + typeLen..length];
  }

  method UnPacket(buffer: RingBuffer) returns (ctx: Option<bytes>, out: bytes, panics: bool)
    requires buffer.Valid() && buffer.virtual == 0
    modifies buffer
    ensures var k := Take(Serving, old(buffer.data));
            && (panics <==> k.next == Crashed)
            && (!panics ==> && buffer.Valid() && buffer.virtual == 0 && buffer.data == old(buffer.data)[k.used..]
                            && (ctx.None? <==> k.frame.None?)
                            && (ctx.None? ==> out == [])
                            && (ctx.Some? ==> k.frame == Some(Message(ctx.value, out))))
  {
    ctx, out, panics := None, [], false;
    ghost var b := buffer.data;
    if |buffer.data| > 6 {
      var length := GetUint(buffer.data[..4]);
      if |buffer.data| >= length + 4 {
        buffer.Retrieve(4);
        ghost var c, mid := b[4..], 2 + TypeLen(b);
        assert buffer.data == c && c[..2] == b[4..6];
        assert mid <= length ==> c[2..mid] == b[6..4 + mid] && c[mid..length] == b[4 + mid..length + 4] && c[length..] == b[length + 4..];
        var typeByte, data;
        typeByte, data, panics := ReadBody(buffer, length);
        if !panics {
          ctx, out := Some(typeByte), data;
        }
      }
    }
  }

  const VIEW := (s: Mode) => s

  predicate Anything(v: Mode, b: bytes) { true }

  lemma TakeIsStable()
    ensures Stable(Take, VIEW, Anything)
  {
    assert Progress(Take);
    forall s: Mode, t: Mode, b: bytes, x: bytes {:trigger Agree(Take, VIEW, s, b, t, b + x)} | s == t && Fires(Take, s, b)
      ensures Agree(Take, VIEW, s, b, t, b + x)
    {
      assert (b + x)[..4] == b[..4] && (b + x)[4..6] == b[4..6];
      var mid, end := 6 + TypeLen(b), GetUint(b[..4]) + 4;
      if mid <= end {
        assert (b + x)[6..mid] == b[6..mid] && (b + x)[mid..end] == b[mid..end];
      }
    }
  }

  /** A message whose lengths fit their two fields. */
  predicate Fits(m: Message)
  {
    |m.kind| < 0x1_0000 && Body(m) < 0x1_0000_0000
  }

  lemma LengthFields(m: Message, x: bytes)
    ensures var b := Encode(m) + x;
            GetUint(b[..4]) == Body(m) % 0x1_0000_0000 && TypeLen(b) == |m.kind| % 0x1_0000
  {
    var b := Encode(m) + x;
    assert b[..4] == PutUint(Body(m), 4);
    assert b[4..6] == PutUint(|m.kind|, 2);
    GetPut(Body(m), 4);
    GetPut(|m.kind|, 2);
    RadixValues();
  }

  /** `UnPacket` gives back what `PackMessage` wrote, whatever follows, exactly when the lengths fit their fields. */
  lemma RoundTrip(m: Message, x: bytes)
    requires |Encode(m) + x| > 6
    ensures Take(Serving, Encode(m) + x) == Taken(Serving, Some(m), |Encode(m)|) <==> Fits(m)
  {
    var b := Encode(m) + x;
    LengthFields(m, x);
    if Fits(m) {
      assert b[6..6 + |m.kind|] == m.kind;
      assert b[6 + |m.kind|..4 + Body(m)] == m.data;
    }
  }

  lemma {:induction false} AlwaysDrains(s: Mode, b: bytes)
    ensures Progress(Take) && Drained(Take, s, b)
    decreases |b|
  {
    var k := Take(s, b);
    if k.frame.Some? {
      DrainFrame(Take, s, b);
      AlwaysDrains(k.next, b[k.used..]);
    } else {
      DrainStops(Take, s, b);
      assert b[0..] == b;
    }
  }

  /** For every byte stream, well formed or not, what is delivered (and whether the server crashes)
      does not depend on how the stream is cut into reads. */
  lemma Segmentation(s: Mode, b: bytes)
    ensures Progress(Take) && SegmentationIndependent(Take, VIEW, s, b)
  {
    TakeIsStable();
    AlwaysDrains(s, b);
    DrainedIsIndependent(Take, VIEW, Anything, s, b);
  }

  /** Every list of fitting messages arrives unchanged and in order under every segmentation. Only a last message with
      empty type and empty data stays in the buffer, because `UnPacket` wants more than six bytes. */
  lemma MessagesDelivered(ms: seq<Message>, last: Message, parts: seq<bytes>)
    requires Fits(last) && forall m <- ms :: Fits(m)
    requires parts != [] && Concat(parts) == Stream(Encode, ms + [last])
    ensures Progress(Take)
    ensures Feed(Take, Serving, [], parts)
            == if Body(last) > 2 then Outcome(Serving, ms + [last], []) else Outcome(Serving, ms, Encode(last))
  {
    TakeIsStable();
    forall s: Mode, m, x: bytes {:trigger Take(s, Encode(m) + x)} | s == Serving && m in ms + [last] && |Encode(m) + x| >= 7
      ensures Take(s, Encode(m) + x) == Taken(Serving, Some(m), |Encode(m)|)
    {
      RoundTrip(m, x);
    }
    StreamSnoc(Encode, ms, last);
    if Body(last) > 2 {
      assert Stream(Encode, ms + [last]) + [] == Stream(Encode, ms + [last]);
      StreamDelivered(Take, VIEW, Anything, Encode, Serving, ms + [last], [], 7, parts);
    } else {
      StreamDelivered(Take, VIEW, Anything, Encode, Serving, ms, Encode(last), 7, parts);
    }
  }

  // ---- Which streams crash the server ----

  /** A complete message that announces a type longer than itself. */
  predicate Malformed(x: bytes)
  {
    |x| > 6 && |x| >= GetUint(x[..4]) + 4 && GetUint(x[..4]) < 2 + TypeLen(x)
  }

  /** Fitting messages and then a malformed one. */
  ghost predicate Poisoned(b: bytes)
  {
    exists ms: seq<Message>, x: bytes :: AllFit(ms) && b == Stream(Encode, ms) + x && Malformed(x)
  }

  predicate AllFit(ms: seq<Message>) { forall m <- ms :: Fits(m) }

  /** Whatever is taken off was the encoding of a fitting message. */
  lemma TakenWasPacked(b: bytes)
    requires Take(Serving, b).frame.Some?
    ensures var k := Take(Serving, b); k.used <= |b| && Fits(k.frame.value) && b[..k.used] == Encode(k.frame.value)
  {
    var k := Take(Serving, b);
    var m, mid, end := k.frame.value, 6 + TypeLen(b), GetUint(b[..4]) + 4;
    PutGet(b[..4]);
    PutGet(b[4..6]);
    RadixValues();
    GetUintBound(b[..4]);
    GetUintBound(b[4..6]);
    assert b[..end] == b[..4] + b[4..6] + b[6..mid] + b[mid..end];
  }

  lemma PoisonBehind(m: Message, rest: bytes)
    requires Fits(m) && Poisoned(rest)
    ensures Poisoned(Encode(m) + rest)
  {
    var ms: seq<Message>, x: bytes :| AllFit(ms) && rest == Stream(Encode, ms) + x && Malformed(x);
    var all := [m] + ms;
    assert all[1..] == ms && Stream(Encode, all) == Encode(m) + Stream(Encode, ms);
    assert Encode(m) + rest == Stream(Encode, all) + x;
    assert AllFit(all);
  }

  lemma PoisonAtOnce(x: bytes)
    requires Malformed(x)
    ensures Poisoned(x)
  {
    var none: seq<Message> := [];
    assert AllFit(none) && x == Stream(Encode, none) + x;
  }

  /** One call: it crashes on a malformed message, and otherwise a poisoned rest poisons the whole. */
  lemma CrashCall(b: bytes)
    ensures var k := Take(Serving, b);
            && k.used <= |b|
            && (k.frame.None? && k.next == Crashed ==> Poisoned(b))
            && (k.frame.Some? ==> k.next == Serving && k.used > 0 && (Poisoned(b[k.used..]) ==> Poisoned(b)))
  {
    var k := Take(Serving, b);
    if k.frame.None? && k.next == Crashed {
      PoisonAtOnce(b);
    } else if k.frame.Some? && Poisoned(b[k.used..]) {
      TakenWasPacked(b);
      PoisonBehind(k.frame.value, b[k.used..]);
      assert b == b[..k.used] + b[k.used..];
    }
  }

  lemma {:induction false} CrashIsPoison(b: bytes)
    requires Progress(Take) && Drain(Take, Serving, b).state == Crashed
    ensures Poisoned(b)
    decreases |b|
  {
    CrashCall(b);
    var k := Take(Serving, b);
    if k.frame.None? {
      DrainStops(Take, Serving, b);
    } else {
      DrainFrame(Take, Serving, b);
      CrashIsPoison(b[k.used..]);
    }
  }

  lemma {:induction false} PoisonCrashes(ms: seq<Message>, x: bytes)
    requires Progress(Take) && AllFit(ms) && Malformed(x)
    ensures Drain(Take, Serving, Stream(Encode, ms) + x).state == Crashed
    decreases |ms|
  {
    var b := Stream(Encode, ms) + x;
    if ms == [] {
      assert b == x;
    } else {
      var rest := Stream(Encode, ms[1..]) + x;
      assert b == Encode(ms[0]) + rest && Fits(ms[0]);
      RoundTrip(ms[0], rest);
      assert b[|Encode(ms[0])|..] == rest;
      PoisonCrashes(ms[1..], x);
      DrainFrame(Take, Serving, b);
    }
  }

  /** However it is cut into reads, a stream crashes the server if and only if it holds, behind fitting messages, a complete
      message that announces a type longer than itself. */
  lemma CrashExactly(parts: seq<bytes>)
    requires parts != []
    ensures Progress(Take) && (Feed(Take, Serving, [], parts).state == Crashed <==> Poisoned(Concat(parts)))
  {
    var b := Concat(parts);
    TakeIsStable();
    AlwaysDrains(Serving, b);
    assert [] + b == b;
    FeedIsDrain(Take, VIEW, Anything, Serving, [], parts);
    if Drain(Take, Serving, b).state == Crashed {
      CrashIsPoison(b);
    }
    if Poisoned(b) {
      var ms: seq<Message>, x: bytes :| AllFit(ms) && b == Stream(Encode, ms) + x && Malformed(x);
      PoisonCrashes(ms, x);
    }
  }

  /** Seven bytes suffice. */
  lemma SevenBytesCrash()
    ensures Poisoned([0, 0, 0, 0, 0, 1, 0])
  {
    var x: bytes := [0, 0, 0, 0, 0, 1, 0];
    assert x[..4] == [0, 0, 0, 0] && x[4..6] == [0, 1];
    assert GetUint([0]) == 0 && [0, 1][..1] == [0] && GetUint([0, 1]) == 1;
    assert [0, 0, 0, 0][..3] == [0, 0, 0] && [0, 0, 0][..2] == [0, 0] && [0, 0][..1] == [0];
    assert GetUint([0, 0]) == 0 && GetUint([0, 0, 0]) == 0 && GetUint([0, 0, 0, 0]) == 0;
    PoisonAtOnce(x);
  }
}
