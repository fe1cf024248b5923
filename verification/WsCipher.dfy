/** plugins/websocket/ws/cipher.go: the masking of section 5.3 of RFC 6455, eight bytes at a time. */
module WsCipher {
  import opened Bytes
  import opened Bits
  import opened RingBuffers

  /** Section 5.3 of RFC 6455: byte i is combined with mask byte (offset + i) mod 4. */
  function Masked(p: bytes, mask: bytes, offset: nat): (r: bytes)
    requires |mask| == 4
    ensures |r| == |p|
  {
    seq(|p|, i requires 0 <= i < |p| => Xor(p[i], mask[(offset + i) % 4]))
  }

  /** Byte by byte, whatever the lengths of both. */
  function XorAll(p: bytes, q: bytes): (r: bytes)
    requires |p| == |q|
    ensures |r| == |p|
  {
    seq(|p|, i requires 0 <= i < |p| => Xor(p[i], q[i]))
  }

  /** The byte order of the machine: which byte of memory holds the low bits of a word. */
  datatype Endian = Little | Big

  /** The word stored in consecutive bytes of memory. */
  function Load(e: Endian, b: bytes): (v: bits)
    ensures |v| == 8 * |b|
  {
    if b == [] then []
    else if e.Little? then Unpack8(b[0]) + Load(e, b[1..])
    else Load(e, b[1..]) + Unpack8(b[0])
  }

  /** The bytes of memory a word is stored in. */
  function Store(e: Endian, v: bits): (b: bytes)
    requires |v| % 8 == 0
    ensures 8 * |b| == |v|
    decreases |v|
  {
    if v == [] then []
    else if e.Little? then [Pack8(v[..8])] + Store(e, v[8..])
    else [Pack8(v[|v| - 8..])] + Store(e, v[..|v| - 8])
  }

  lemma XorAllCons(p: bytes, q: bytes)
    requires |p| == |q| && p != []
    ensures XorAll(p, q) == [Xor(p[0], q[0])] + XorAll(p[1..], q[1..])
  {}

  lemma XorBitsConcat(s: bits, t: bits, u: bits, v: bits)
    requires |s| == |u| && |t| == |v|
    ensures XorBits(s + t, u + v) == XorBits(s, u) + XorBits(t, v)
  {}

  lemma {:induction false} WordXorLittle(p: bytes, q: bytes)
    requires |p| == |q|
    ensures Store(Little, XorBits(Load(Little, p), Load(Little, q))) == XorAll(p, q)
    decreases |p|
  {
    if p != [] {
      WordXorLittle(p[1..], q[1..]);
      XorBitsConcat(Unpack8(p[0]), Load(Little, p[1..]), Unpack8(q[0]), Load(Little, q[1..]));
      var head, tail := XorBits(Unpack8(p[0]), Unpack8(q[0])), XorBits(Load(Little, p[1..]), Load(Little, q[1..]));
      assert (head + tail)[..8] == head && (head + tail)[8..] == tail;
      XorAllCons(p, q);
    }
  }

  lemma {:induction false} WordXorBig(p: bytes, q: bytes)
    requires |p| == |q|
    ensures Store(Big, XorBits(Load(Big, p), Load(Big, q))) == XorAll(p, q)
    decreases |p|
  {
    if p != [] {
      WordXorBig(p[1..], q[1..]);
      XorBitsConcat(Load(Big, p[1..]), Unpack8(p[0]), Load(Big, q[1..]), Unpack8(q[0]));
      var head, tail := XorBits(Unpack8(p[0]), Unpack8(q[0])), XorBits(Load(Big, p[1..]), Load(Big, q[1..]));
      assert (tail + head)[|tail|..] == head && (tail + head)[..|tail|] == tail;
      XorAllCons(p, q);
    }
  }

  /** One exclusive or of two words is the exclusive or of their bytes, in either byte order. */
  lemma WordXor(e: Endian, p: bytes, q: bytes)
    requires |p| == |q|
    ensures Store(e, XorBits(Load(e, p), Load(e, q))) == XorAll(p, q)
  {
    if e.Little? {
      WordXorLittle(p, q);
    } else {
      WordXorBig(p, q);
    }
  }

  lemma {:induction false} LoadConcatLittle(a: bytes, b: bytes)
    ensures Load(Little, a + b) == Load(Little, a) + Load(Little, b)
    decreases |a|
  {
    if a == [] {
      assert a + b == b;
    } else {
      assert (a + b)[0] == a[0] && (a + b)[1..] == a[1..] + b;
      LoadConcatLittle(a[1..], b);
    }
  }

  lemma {:induction false} LoadConcatBig(a: bytes, b: bytes)
    ensures Load(Big, a + b) == Load(Big, b) + Load(Big, a)
    decreases |a|
  {
    if a == [] {
      assert a + b == b;
    } else {
      assert (a + b)[0] == a[0] && (a + b)[1..] == a[1..] + b;
      LoadConcatBig(a[1..], b);
    }
  }

  /** `uint64(m)<<32 | uint64(m)` is the word stored in the mask written twice, in either byte order. */
  lemma MaskTwice(e: Endian, mask: bytes)
    ensures Load(e, mask + mask) == Load(e, mask) + Load(e, mask)
  {
    if e.Little? {
      LoadConcatLittle(mask, mask);
    } else {
      LoadConcatBig(mask, mask);
    }
  }

  /** `*v = *v ^ m2` on the eight bytes at `at`. */
  method XorWord(payload: array<byte>, at: nat, e: Endian, m2: bits, ghost mask: bytes)
    requires at + 8 <= payload.Length && |mask| == 4 && m2 == Load(e, mask + mask)
    modifies payload
    ensures forall i :: 0 <= i < payload.Length ==>
              payload[i] == if at <= i < at + 8 then Xor(old(payload[i]), mask[(i - at) % 4]) else old(payload[i])
  {
    var word := payload[at..at + 8];
    var v := Load(e, word);
    WordXor(e, word, mask + mask);
    var b := Store(e, XorBits(v, m2));
    forall i | 0 <= i < 8 {
      payload[at + i] := b[i];
    }
  }

  /** Byte-wise masking of payload[from..to]. */
  method XorRange(payload: array<byte>, mask: bytes, offset: nat, from: nat, to: nat)
    requires |mask| == 4 && from <= to <= payload.Length
    modifies payload
    ensures forall i :: 0 <= i < payload.Length ==>
              payload[i] == if from <= i < to then Xor(old(payload[i]), mask[(offset + i) % 4]) else old(payload[i])
  {
    for i := from to to
      invariant forall j :: 0 <= j < payload.Length ==>
                  payload[j] == if from <= j < i then Xor(old(payload[j]), mask[(offset + j) % 4]) else old(payload[j])
    {
      payload[i] := Xor(payload[i], mask[(offset + i) % 4]);
    }
  }

  /** Word-wise masking of `count` words from `from` on, each starting with the first byte of the mask. */
  method XorWords(payload: array<byte>, mask: bytes, from: nat, count: nat, e: Endian)
    requires |mask| == 4 && from + 8 * count <= payload.Length
    modifies payload
    ensures forall i :: 0 <= i < payload.Length ==>
              payload[i] == if from <= i < from + 8 * count then Xor(old(payload[i]), mask[(i - from) % 4]) else old(payload[i])
  {
    var m := Load(e, mask);
    var m2 := m + m;
    MaskTwice(e, mask);
    for k := 0 to count
      invariant forall i :: 0 <= i < payload.Length ==>
                  payload[i] == if from <= i < from + 8 * k then Xor(old(payload[i]), mask[(i - from) % 4]) else old(payload[i])
    {
      ghost var at := from + 8 * k;
      XorWord(payload, from + 8 * k, e, m2, mask);
      forall i | 0 <= i < payload.Length && at <= i < at + 8
        ensures payload[i] == Xor(old(payload[i]), mask[(i - from) % 4])
      {
        assert (i - at) % 4 == (i - from) % 4;
      }
    }
  }

  const REMAIN := [0, 3, 2, 1]

  /** Bytes up to the start of the mask, whole words, and the bytes that do not fill a word:
      every byte is masked exactly once, with the byte of the mask that is its turn. */
  method Cipher(payload: array<byte>, mask: bytes, offset: nat, e: Endian)
    requires |mask| == 4
    modifies payload
    ensures payload[..] == Masked(old(payload[..]), mask, offset)
  {
    var n := payload.Length;
    if n < 8 {
      XorRange(payload, mask, offset, 0, n);
      return;
    }
    var mpos := offset % 4;
    var ln := REMAIN[mpos];
    var rn := (n - ln) % 8;
    XorRange(payload, mask, mpos, 0, ln);
    XorRange(payload, mask, mpos, n - rn, n);
    XorWords(payload, mask, ln, (n - ln - rn) / 8, e);
    forall i | 0 <= i < n ensures payload[i] == Xor(old(payload[i]), mask[(offset + i) % 4]) {
      MaskTurn(offset, i);
    }
  }

  /** The head is as long as it takes to come back to the start of the mask. */
  lemma MaskTurn(offset: nat, i: nat)
    ensures (offset % 4 + i) % 4 == (offset + i) % 4
    ensures i >= REMAIN[offset % 4] ==> (i - REMAIN[offset % 4]) % 4 == (offset + i) % 4
  {
    var q, m := offset / 4, offset % 4;
    WholeTurns(m + i, q);
    if i >= REMAIN[m] {
      WholeTurns(i - REMAIN[m], if m == 0 then 0 else 1);
    }
  }

  lemma {:induction false} WholeTurns(n: nat, q: nat)
    ensures (4 * q + n) % 4 == n % 4
  {
    if q > 0 {
      WholeTurns(n, q - 1);
      assert 4 * q + n == (4 * (q - 1) + n) + 4;
    }
  }

  /** Section 5.3 of RFC 6455 in arithmetic: every binary digit of a masked byte is the sum, modulo two, of that digit of the
      payload and of the mask byte whose turn it is. */
  lemma MaskedSum(p: bytes, mask: bytes, offset: nat, i: nat, k: nat)
    requires |mask| == 4 && i < |p| && k < 8
    ensures Digit(Masked(p, mask, offset)[i] as nat, k) == (Digit(p[i] as nat, k) + Digit(mask[(offset + i) % 4] as nat, k)) % 2
  {
    XorSum(p[i], mask[(offset + i) % 4], k);
  }

  /** A mask of zeros changes nothing. */
  lemma MaskedByZeros(p: bytes, offset: nat)
    ensures Masked(p, [0, 0, 0, 0], offset) == p
  {
    forall i | 0 <= i < |p|
      ensures Masked(p, [0, 0, 0, 0], offset)[i] == p[i]
    {
      XorZero(p[i]);
    }
  }

  /** Masking twice gives the payload back. */
  lemma MaskedTwice(p: bytes, mask: bytes, offset: nat)
    requires |mask| == 4
    ensures Masked(Masked(p, mask, offset), mask, offset) == p
  {
    forall i | 0 <= i < |p| ensures Masked(Masked(p, mask, offset), mask, offset)[i] == p[i] {
      XorTwice(p[i], mask[(offset + i) % 4]);
    }
  }

  /** Masking in pieces, each at the offset where the last one ended, is masking the whole. */
  lemma MaskedInPieces(p: bytes, q: bytes, mask: bytes, offset: nat)
    requires |mask| == 4
    ensures Masked(p + q, mask, offset) == Masked(p, mask, offset) + Masked(q, mask, offset + |p|)
  {
    var m, n := Masked(p, mask, offset), Masked(q, mask, offset + |p|);
    forall i | 0 <= i < |p + q| ensures Masked(p + q, mask, offset)[i] == (m + n)[i] {
      if i >= |p| {
        assert offset + i == (offset + |p|) + (i - |p|);
      }
    }
  }
}
