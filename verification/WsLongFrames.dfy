/** plugins/websocket/protocol.go: frames whose length takes 64 bits, when their header is split between reads. */
module WsLongFrames {
  import opened Bytes
  import opened Framing
  import opened WsHeader
  import opened WsProtocol
  import WsCipher

  lemma {:induction false} ZeroBytes(b: bytes)
    ensures GetUint(b) == 0 <==> forall i | 0 <= i < |b| :: b[i] == 0
  {
    if b != [] {
      var a := b[..|b| - 1];
      ZeroBytes(a);
      assert forall i | 0 <= i < |a| :: a[i] == b[i];
    }
  }

  /** A frame with a 64-bit length, of whose header only k bytes have arrived. */
  predicate LongCut(h: Header, k: nat)
  {
    WellTyped(h) && Encodable(h) && h.masked && h.length > LEN16 && 6 <= k < |Encode(h)|
  }

  /** The length as it is read then: the bytes that have arrived, completed from the scratch slice. */
  lemma LongCutLength(scratch: Scratch, h: Header, k: nat)
    requires LongCut(h, k)
    ensures var b := Encode(h)[..k];
            && |Encode(h)| == 14 && LengthBytes(b[1]) == 8 && Extra(b[1]) == 12 && |Extended(h)| == 8
            && Fill(Fill(scratch, b, 2), b[2..], 12)[..8]
               == if k < 10 then Extended(h)[..k - 2] + scratch[k - 2..8] else Extended(h)
  {
    EncodedIsLaidOut(h, []);
    assert Encode(h) + [] == Encode(h) && Tail(h) + [] == Tail(h);
    var b := Encode(h)[..k];
    assert b[1] == Encode(h)[1];
    SecondByteParts(h, b[1]);
    assert b[2..] == Tail(h)[..k - 2];
    FillFrom(Fill(scratch, b, 2), Tail(h)[..k - 2]);
    assert Tail(h)[..8] == Extended(h);
    if k < 10 {
      assert Tail(h)[..k - 2] == Extended(h)[..k - 2];
    }
  }

  lemma FillFrom(scratch: Scratch, b: bytes)
    requires 4 <= |b| < 12
    ensures Fill(scratch, b, 12)[..8] == if |b| < 8 then b + scratch[|b|..8] else b[..8]
  {}

  lemma ZeroCut(e: bytes, scratch: Scratch, n: nat)
    requires |e| == 8 && n <= 8
    ensures GetUint(e[..n] + scratch[n..8]) == 0
            <==> (forall i | 0 <= i < n :: e[i] == 0) && (forall i | n <= i < 8 :: scratch[i] == 0)
  {
    var c := e[..n] + scratch[n..8];
    ZeroBytes(c);
    assert forall i | 0 <= i < n :: c[i] == e[i];
    assert forall i | n <= i < 8 :: c[i] == scratch[i];
  }

  /** The frame that is read then has no bytes behind its header. */
  lemma LongCutFires(s: State, h: Header, k: nat)
    requires s.upgraded && LongCut(h, k)
    ensures var b := Encode(h)[..k];
            Fires(Take, s, b) <==> GetUint(Fill(Fill(s.scratch, b, 2), b[2..], 12)[..8]) == 0
  {
    LongCutLength(s.scratch, h, k);
    ZeroBytes(Fill(Fill(s.scratch, Encode(h)[..k], 2), Encode(h)[..k][2..], 12)[..8]);
  }

  /** With k bytes of its header there, the frame is taken for an empty one: the length bytes that have arrived are zero and
      so are the bytes of the scratch slice in the place of those that have not. */
  predicate Misread(scratch: Scratch, h: Header, k: nat)
  {
    && 6 <= k < 10 && |Extended(h)| == 8
    && (forall i | 0 <= i < k - 2 :: Extended(h)[i] == 0) && (forall i | k - 2 <= i < 8 :: scratch[i] == 0)
  }

  /** The exact condition for one cut. */
  lemma LongHeaderCut(s: State, h: Header, k: nat)
    requires s.upgraded && LongCut(h, k)
    ensures |Extended(h)| == 8 && |Encode(h)| == 14
    ensures Fires(Take, s, Encode(h)[..k]) <==> Misread(s.scratch, h, k)
  {
    LongCutLength(s.scratch, h, k);
    LongCutFires(s, h, k);
    if k < 10 {
      ZeroCut(Extended(h), s.scratch, k - 2);
    } else {
      ExtendedValue(h);
    }
  }

  // ---- A long frame that is not misread ----

  predicate Long(d: Delivery) { Framed(d) && d.header.length > LEN16 }

  lemma LongSize(d: Delivery)
    requires Long(d)
    ensures |Encode(d.header)| == 14 && |Encoded(d)| == 14 + |d.payload| && Encoded(d)[..14] == Encode(d.header)
  {}

  /** From place n of the header on, t still holds what s held. */
  predicate Keeps(s: Scratch, t: Scratch, n: nat)
  {
    forall i | 4 <= i < 8 && n - 2 <= i :: t[i] == s[i]
  }

  /** A cut header overwrites the scratch slice only where its bytes are. */
  lemma CutKeeps(scratch: Scratch, b: bytes)
    requires 6 <= |b| && Extra(b[1]) == 12
    ensures Keeps(scratch, TakeFrame(scratch, b).next.scratch, |b|)
  {}

  lemma CutWaits(t: State, h: Header, b: bytes)
    requires t.upgraded && LongCut(h, |b|) && b <= Encode(h) && !Misread(t.scratch, h, |b|)
    ensures var k := Take(t, b); k.frame.None? && k.used == 0 && k.next.upgraded && Keeps(t.scratch, k.next.scratch, |b|)
  {
    assert b == Encode(h)[..|b|];
    LongHeaderCut(t, h, |b|);
    LongCutLength(t.scratch, h, |b|);
    CutKeeps(t.scratch, b);
  }

  lemma BodyCall(t: State, d: Delivery, b: bytes)
    requires t.upgraded && Long(d) && b <= Encoded(d) && 14 <= |b|
    ensures var k := Take(t, b);
            && k.next.upgraded
            && (|b| < |Encoded(d)| ==> k.frame.None? && k.used == 0)
            && (|b| == |Encoded(d)| ==> k.frame == Some(d) && k.used == |b|)
  {
    LongSize(d);
    var x := b[14..];
    assert b == Encode(d.header) + x;
    ReadsBack(d.header, x, t.scratch);
    AfterHeader(t.scratch, d, b, 14);
    if |b| == |Encoded(d)| {
      assert x[..|d.payload|] == Encoded(d)[14..];
    }
  }

  /** Whatever part of a long frame is in the buffer, if it is not misread: the frame comes off when it is complete, and
      before that nothing is consumed and the rest of the scratch slice keeps its contents. */
  lemma LongCall(t: State, d: Delivery, b: bytes)
    requires t.upgraded && Long(d) && b <= Encoded(d) && !Misread(t.scratch, d.header, |b|)
    ensures var k := Take(t, b);
            && k.next.upgraded
            && (|b| < |Encoded(d)| ==> k.frame.None? && k.used == 0 && Keeps(t.scratch, k.next.scratch, |b|))
            && (|b| == |Encoded(d)| ==> k.frame == Some(d) && k.used == |b|)
  {
    LongSize(d);
    if |b| >= 14 {
      BodyCall(t, d, b);
    } else if |b| >= 6 {
      assert b <= Encode(d.header);
      CutWaits(t, d.header, b);
    }
  }

  predicate NeverMisread(scratch: Scratch, h: Header)
  {
    forall k: nat | 6 <= k < 10 :: !Misread(scratch, h, k)
  }

  lemma KeptIsNotMisread(s: Scratch, t: Scratch, h: Header, n: nat, k: nat)
    requires NeverMisread(s, h) && Keeps(s, t, n) && n <= k
    ensures !Misread(t, h, k)
  {
    if 6 <= k < 10 {
      assert !Misread(s, h, k);
    }
  }

  /** What is delivered of a part of a long frame. */
  function Whole(d: Delivery, b: bytes): (seq<Delivery>, bytes)
  {
    if b == Encoded(d) then ([d], []) else ([], b)
  }

  lemma NothingLeft(t: State)
    requires t.upgraded
    ensures Take(t, []) == Taken(t, None, 0)
  {}

  lemma LongDrain(t: State, d: Delivery, b: bytes)
    requires t.upgraded && Long(d) && b <= Encoded(d) && !Misread(t.scratch, d.header, |b|)
    ensures Progress(Take)
    ensures var o := Drain(Take, t, b);
            && (o.frames, o.rest) == Whole(d, b) && o.state.upgraded
            && (b != Encoded(d) ==> Keeps(t.scratch, o.state.scratch, |b|))
  {
    Progresses();
    LongCall(t, d, b);
    LongSize(d);
    if b == Encoded(d) {
      NothingLeft(Take(t, b).next);
      DrainLast(Take, t, b);
    } else {
      DrainNothing(Take, t, b);
    }
  }

  /** Every segmentation of a part of a long frame, for a scratch slice with which it is never misread. */
  lemma {:induction false} LongFeed(s: Scratch, t: State, d: Delivery, b: bytes, parts: seq<bytes>)
    requires t.upgraded && Long(d) && b + Concat(parts) <= Encoded(d) && |b| < |Encoded(d)|
    requires NeverMisread(s, d.header) && Keeps(s, t.scratch, |b|) && Reads(parts)
    ensures Progress(Take)
    ensures var o := Feed(Take, t, b, parts); (o.frames, o.rest) == Whole(d, b + Concat(parts)) && o.state.upgraded
    decreases |parts|, 0
  {
    Progresses();
    if parts == [] {
      assert b + [] == b;
    } else {
      var c := b + parts[0];
      assert b + Concat(parts) == c + Concat(parts[1..]);
      assert c <= Encoded(d);
      KeptIsNotMisread(s, t.scratch, d.header, |b|, |c|);
      LongDrain(t, d, c);
      var o := Drain(Take, t, c);
      FeedFirst(Take, t, b, parts, o);
      assert Reads(parts[1..]);
      LongRest(s, d, c, parts[1..], o);
    }
  }

  lemma {:induction false} LongRest(s: Scratch, d: Delivery, c: bytes, parts: seq<bytes>, o: Outcome<State, Delivery>)
    requires Long(d) && c + Concat(parts) <= Encoded(d) && NeverMisread(s, d.header) && Reads(parts)
    requires (o.frames, o.rest) == Whole(d, c) && o.state.upgraded && (c != Encoded(d) ==> Keeps(s, o.state.scratch, |c|))
    ensures Progress(Take)
    ensures var later := Feed(Take, o.state, o.rest, parts);
            (o.frames + later.frames, later.rest) == Whole(d, c + Concat(parts)) && later.state.upgraded
    decreases |parts|, 1
  {
    if c == Encoded(d) {
      Progresses();
      assert Concat(parts) == [] && c + [] == c;
      assert parts == [] && [d] + [] == [d];
    } else {
      LongFeed(s, o.state, d, c, parts);
      NoneBefore(Feed(Take, o.state, o.rest, parts).frames);
    }
  }

  lemma NoneBefore(fs: seq<Delivery>)
    ensures [] + fs == fs
  {}

  // ---- Exactly when it is misread ----

  /** A part of the frame that has at least its header. */
  predicate PartOf(b: bytes, d: Delivery) { Framed(d) && b <= Encoded(d) && Encode(d.header) <= b }

  lemma Unmisread(s: State, d: Delivery, b: bytes)
    requires s.upgraded && Long(d) && PartOf(b, d) && NeverMisread(s.scratch, d.header)
    ensures Progress(Take) && SegmentationIndependent(Take, VIEW, s, b)
  {
    Progresses();
    LongSize(d);
    LongDrain(s, d, b);
    forall parts | |parts| > 0 && Reads(parts) && Concat(parts) == b
      ensures Alike(VIEW, Feed(Take, s, [], parts), Drain(Take, s, b))
    {
      assert [] + Concat(parts) == b;
      LongFeed(s.scratch, s, d, [], parts);
    }
  }

  /** What comes off instead: a frame of length zero, made of the bytes of the header that are there. */
  lemma MisreadFrame(s: State, h: Header, k: nat)
    requires s.upgraded && LongCut(h, k) && Misread(s.scratch, h, k)
    ensures var f := Take(s, Encode(h)[..k]).frame; f.Some? && f.value.Message? && f.value.header.length == 0
  {
    LongHeaderCut(s, h, k);
    LongCutLength(s.scratch, h, k);
    ZeroCut(Extended(h), s.scratch, k - 2);
  }

  lemma Misreads(s: State, d: Delivery, b: bytes, k: nat)
    requires s.upgraded && Long(d) && PartOf(b, d) && Misread(s.scratch, d.header, k)
    ensures Progress(Take) && !SegmentationIndependent(Take, VIEW, s, b)
  {
    Progresses();
    LongSize(d);
    assert b[..k] == Encode(d.header)[..k];
    MisreadFrame(s, d.header, k);
    BodyCall(s, d, b);
    EarlyFrame(Take, VIEW, s, b, k);
  }

  /** Segmentation of long frames, exactly: any part of a frame of more than 65535 bytes that has its header at least is
      read the same however it is cut if and only if the connection's scratch slice lets no cut of the header be misread. */
  lemma LongSegmentation(s: State, d: Delivery, b: bytes)
    requires s.upgraded && Long(d) && PartOf(b, d)
    ensures Progress(Take) && (SegmentationIndependent(Take, VIEW, s, b) <==> NeverMisread(s.scratch, d.header))
  {
    Progresses();
    if NeverMisread(s.scratch, d.header) {
      Unmisread(s, d, b);
    } else {
      var k: nat :| 6 <= k < 10 && Misread(s.scratch, d.header, k);
      Misreads(s, d, b, k);
    }
  }

  lemma TopHalf(n: nat)
    ensures PutUint(n, 8)[..4] == PutUint(n / 0x1_0000_0000, 4)
  {
    assert PutUint(n, 8)[..7] == PutUint(n / 256, 7) && PutUint(n / 256, 7)[..6] == PutUint(n / 256 / 256, 6);
    assert PutUint(n / 256 / 256, 6)[..5] == PutUint(n / 256 / 256 / 256, 5);
    assert PutUint(n / 256 / 256 / 256, 5)[..4] == PutUint(n / 256 / 256 / 256 / 256, 4);
    assert n / 256 / 256 / 256 / 256 == n / 0x1_0000_0000;
  }

  /** The upper four of the eight length bytes are zero exactly for lengths below 2^32. */
  lemma UpperBytes(n: nat)
    requires n <= LEN64
    ensures (forall i | 0 <= i < 4 :: PutUint(n, 8)[i] == 0) <==> n < 0x1_0000_0000
  {
    TopHalf(n);
    RadixValues();
    GetPutSmall(n / 0x1_0000_0000, 4);
    ZeroBytes(PutUint(n / 0x1_0000_0000, 4));
    assert forall i | 0 <= i < 4 :: PutUint(n, 8)[i] == PutUint(n, 8)[..4][i];
  }

  const ZEROS: Scratch := [0, 0, 0, 0, 0, 0, 0, 0, 0, 0, 0, 0]

  lemma SafeLengths(h: Header)
    requires WellTyped(h) && h.length > LEN16
    ensures h.length >= 0x1_0000_0000 ==> forall scratch: Scratch :: NeverMisread(scratch, h)
    ensures h.length < 0x1_0000_0000 ==> Misread(ZEROS, h, 6)
  {
    UpperBytes(h.length);
    assert Extended(h) == PutUint(h.length, 8);
  }

  lemma {:induction false} ShortSegmentation(s: State, d: Delivery, b: bytes)
    requires s.upgraded && Short(d) && PartOf(b, d)
    ensures Progress(Take) && SegmentationIndependent(Take, VIEW, s, b)
  {
    assert [d][1..] == [] && Stream(Encoded, [d]) == Encoded(d) + [];
    assert Frames(b) by {
      assert AllShort([d]) && b <= Stream(Encoded, [d]);
    }
    Segmentation(s, b);
  }

  /** So delivery of a masked frame is independent of segmentation whatever the scratch slice holds if and only if it has
      at most 65535 bytes or at least 2^32. */
  lemma {:induction false} SafeFrames(d: Delivery, b: bytes)
    requires PartOf(b, d)
    ensures Progress(Take)
    ensures (forall s: State :: s.upgraded ==> SegmentationIndependent(Take, VIEW, s, b))
            <==> d.header.length <= LEN16 || d.header.length >= 0x1_0000_0000
  {
    Progresses();
    if Short(d) {
      forall s: State | s.upgraded ensures SegmentationIndependent(Take, VIEW, s, b) {
        ShortSegmentation(s, d, b);
      }
    } else {
      SafeLengths(d.header);
      forall s: State | s.upgraded
        ensures SegmentationIndependent(Take, VIEW, s, b) <==> NeverMisread(s.scratch, d.header)
      {
        LongSegmentation(s, d, b);
      }
      assert State(true, ZEROS).upgraded;
    }
  }

  /** One that is not: 65536 bytes, with a scratch slice of zeros. */
  lemma LongFrameFails(payload: bytes)
    requires |payload| == 65536
    ensures var d := Message(Header(true, 0, 2, true, [1, 2, 3, 4], 65536), payload);
            Progress(Take) && !SegmentationIndependent(Take, VIEW, State(true, ZEROS), Encoded(d))
  {
    var d := Message(Header(true, 0, 2, true, [1, 2, 3, 4], 65536), payload);
    LongSize(d);
    SafeLengths(d.header);
    LongSegmentation(State(true, ZEROS), d, Encoded(d));
  }
}
