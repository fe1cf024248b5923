/** plugins/websocket/ws/read.go and write.go: the frame header of section 5.2 of RFC 6455. */
module WsHeader {
  import opened Bytes
  import opened Bits
  import opened RingBuffers

  const MAX_HEADER_SIZE := 14
  const LEN7 := 125
  const LEN16 := 0xffff
  const LEN64 := 0x7fff_ffff_ffff_ffff
  const NO_MASK: bytes := [0, 0, 0, 0]

  /** `Length` is an int64 in the source; `mask` always holds four bytes. */
  datatype Header = Header(fin: bool, rsv: byte, opCode: byte, masked: bool, mask: bytes, length: int)

  predicate WellTyped(h: Header)
  {
    |h.mask| == 4 && -LEN64 - 1 <= h.length <= LEN64
  }

  // ---- Writing ----

  function OrByte(a: byte, b: byte): byte
  {
    Pow2Values();
    OrBelow(a as nat, b as nat, 8);
    Or(a as nat, b as nat) as byte
  }

  function FirstByte(h: Header): byte
  {
    OrByte(OrByte(if h.fin then 0x80 else 0, (h.rsv as int * 16 % 256) as byte), h.opCode)
  }

  /** The length field, and the extended length that follows it. */
  function LengthField(h: Header): byte
  {
    if h.length <= LEN7 then (h.length % 256) as byte else if h.length <= LEN16 then 126 else 127
  }

  function Extended(h: Header): bytes
  {
    if h.length <= LEN7 then [] else if h.length <= LEN16 then PutUint(h.length, 2) else PutUint(h.length, 8)
  }

  function SecondByte(h: Header): byte
  {
    if h.masked then OrByte(LengthField(h), 0x80) else LengthField(h)
  }

  function Encode(h: Header): bytes
  {
    [FirstByte(h), SecondByte(h)] + Extended(h) + (if h.masked then h.mask else [])
  }

  /** The first byte is ORed together in place. */
  method PutFirst(bts: array<byte>, h: Header)
    requires bts.Length == MAX_HEADER_SIZE && bts[0] == 0
    modifies bts
    ensures bts[0] == FirstByte(h) && bts[1..] == old(bts[1..])
  {
    OrZero(128);
    if h.fin {
      bts[0] := OrByte(bts[0], 0x80);
    }
    bts[0] := OrByte(bts[0], (h.rsv as int * 16 % 256) as byte);
    bts[0] := OrByte(bts[0], h.opCode);
  }

  /** The length in one of its three forms; n is where the header has come to. */
  method PutLength(bts: array<byte>, h: Header) returns (n: nat)
    requires WellTyped(h) && bts.Length == MAX_HEADER_SIZE
    modifies bts
    ensures 2 <= n <= 10 && bts[0] == old(bts[0]) && bts[1] == LengthField(h) && bts[2..n] == Extended(h)
  {
    n := 2;
    if h.length <= LEN7 {
      bts[1] := (h.length % 256) as byte;
    } else if h.length <= LEN16 {
      bts[1] := 126;
      n := Copy(bts, 2, PutUint(h.length, 2));
      n := 4;
    } else {
      bts[1] := 127;
      n := Copy(bts, 2, PutUint(h.length, 8));
      n := 10;
    }
  }

  /** The header is composed in a fixed array of fourteen bytes, of which the first n are returned. */
  method WriteHeader(h: Header) returns (r: bytes)
    requires WellTyped(h)
    ensures r == Encode(h)
  {
    var bts := new byte[MAX_HEADER_SIZE](_ => 0);
    PutFirst(bts, h);
    var n := PutLength(bts, h);
    if h.masked {
      bts[1] := OrByte(bts[1], 0x80);
      var k := Copy(bts, n, h.mask);
      assert bts[2..n] == Extended(h) && bts[n..n + k] == h.mask;
      n := n + k;
      assert bts[..n] == bts[..2] + bts[2..n - k] + bts[n - k..n];
    } else {
      assert bts[..n] == bts[..2] + bts[2..n];
    }
    assert bts[..2] == [bts[0], bts[1]];
    r := bts[..n];
  }

  // ---- Reading ----

  datatype HeaderResult =
    | NotReady
    | BadLength(used: nat, scratch: bytes)                    // the virtual cursor stays where it is
    | Parsed(header: Header, used: nat, scratch: bytes)

  /** How many bytes follow the first two. */
  function Extra(second: byte): nat
  {
    (if second >= 0x80 then 4 else 0) + (if second % 128 == 126 then 2 else if second % 128 == 127 then 8 else 0)
  }

  /** The scratch slice after as much as possible of its first `extra` bytes was read over it. */
  function Fill(scratch: bytes, b: bytes, extra: nat): (r: bytes)
    requires extra <= |scratch|
    ensures |r| == |scratch|
  {
    var got := Min(extra, |b|);
    b[..got] + scratch[got..]
  }

  function LengthBytes(second: byte): nat
  {
    if second % 128 == 126 then 2 else if second % 128 == 127 then 8 else 0
  }

  /** A header of which the first two bytes are known and the others are in bts. */
  function Meaning(first: byte, second: byte, bts: bytes, used: nat): HeaderResult
    requires |bts| == MAX_HEADER_SIZE - 2
  {
    var len := LengthBytes(second);
    if len == 8 && bts[0] >= 0x80 then BadLength(used, bts)
    else
      Parsed(Header(first >= 0x80, first / 16 % 8, first % 16, second >= 0x80,
                    if second >= 0x80 then bts[len..len + 4] else NO_MASK,
                    if len == 0 then (second % 128) as int else GetUint(bts[..len])),
             used, bts)
  }

  /** What `VirtualReadHeader` makes of the bytes b, given a scratch slice of twelve bytes. If the header is not complete
      the missing bytes are whatever the scratch slice held before. */
  function ReadHeader(scratch: bytes, b: bytes): HeaderResult
    requires |scratch| == MAX_HEADER_SIZE - 2
  {
    if |b| < 6 then NotReady
    else
      var extra := Extra(b[1]);
      Meaning(b[0], b[1], Fill(Fill(scratch, b, 2), b[2..], extra), 2 + Min(extra, |b| - 2))
  }

  /** The same from where a virtual cursor v bytes ahead stands, which is where an earlier call with a bad length left it.
      Whether there are six bytes is asked of all of b. */
  function ReadHeaderAt(scratch: bytes, b: bytes, v: nat): HeaderResult
    requires |scratch| == MAX_HEADER_SIZE - 2 && v <= |b|
  {
    if |b| < 6 then NotReady
    else
      var x := b[v..];
      var got, two := Min(2, |x|), Fill(scratch, x, 2);
      var extra := Extra(two[1]);
      Meaning(two[0], two[1], Fill(two, x[got..], extra), got + Min(extra, |x| - got))
  }

  lemma AllRead(scratch: bytes, b: bytes, v: nat, two: bytes, bts: bytes)
    requires |scratch| == MAX_HEADER_SIZE - 2 && v <= |b| && |b| >= 6
    requires two == Fill(scratch, b[v..], 2)
    requires var got := Min(2, |b| - v); bts == Fill(two, b[v + got..], Extra(two[1]))
    ensures var got := Min(2, |b| - v);
            ReadHeaderAt(scratch, b, v) == Meaning(two[0], two[1], bts, got + Min(Extra(two[1]), |b| - v - got))
  {
    var got := Min(2, |b| - v);
    assert b[v..][got..] == b[v + got..];
  }

  lemma AtStart(scratch: bytes, b: bytes)
    requires |scratch| == MAX_HEADER_SIZE - 2
    ensures ReadHeaderAt(scratch, b, 0) == ReadHeader(scratch, b)
  {
    assert b[0..] == b;
  }

  lemma ReadShape(scratch: bytes, b: bytes, v: nat)
    requires |scratch| == MAX_HEADER_SIZE - 2 && v <= |b|
    ensures var r := ReadHeaderAt(scratch, b, v);
            && (!r.NotReady? ==> v + r.used <= |b| && |r.scratch| == |scratch|)
            && (r.Parsed? ==> |r.header.mask| == 4 && r.header.length >= 0)
  {}

  // ---- Round trip ----

  /** A header whose fields fit their bits, and which carries no mask it does not announce. */
  predicate Encodable(h: Header)
  {
    h.rsv < 8 && h.opCode < 16 && h.length >= 0 && (h.masked || h.mask == NO_MASK)
  }

  lemma OrByteAt7(a: byte, b: byte)
    requires a % 128 == 0 && b < 128
    ensures OrByte(a, b) as int == a as int + b as int && OrByte(b, a) as int == a as int + b as int
  {
    Pow2Values();
    OrDisjoint(7, a as nat / 128, b as nat);
  }

  lemma OrByteAt4(a: byte, b: byte)
    requires a % 16 == 0 && b < 16
    ensures OrByte(a, b) as int == a as int + b as int
  {
    Pow2Values();
    OrDisjoint(4, a as nat / 16, b as nat);
  }

  lemma HighBits(f: byte, r: byte)
    requires (f == 0 || f == 128) && r < 8
    ensures OrByte(f, 16 * r) as int == f as int + 16 * r as int && OrByte(f, 16 * r) % 16 == 0
  {
    OrByteAt7(f, 16 * r);
  }

  lemma FirstByteValue(h: Header)
    requires h.rsv < 8 && h.opCode < 16
    ensures FirstByte(h) as int == (if h.fin then 128 else 0) + 16 * h.rsv as int + h.opCode as int
  {
    var f: byte := if h.fin then 0x80 else 0;
    HighBits(f, h.rsv);
    var high := OrByte(f, 16 * h.rsv);
    OrByteAt4(high, h.opCode);
    assert (h.rsv as int * 16 % 256) as byte == 16 * h.rsv;
    assert FirstByte(h) == OrByte(high, h.opCode);
  }

  lemma SecondByteValue(h: Header)
    requires h.length >= 0
    ensures SecondByte(h) as int == LengthField(h) as int + (if h.masked then 128 else 0) && LengthField(h) < 128
  {
    OrByteAt7(0x80, LengthField(h));
  }

  lemma ExtendedValue(h: Header)
    requires WellTyped(h) && h.length > LEN7
    ensures GetUint(Extended(h)) == h.length && (h.length > LEN16 ==> Extended(h)[0] < 0x80)
  {
    RadixValues();
    if h.length <= LEN16 {
      GetPutSmall(h.length, 2);
    } else {
      GetPutSmall(h.length, 8);
      LeadingByte(Extended(h));
    }
  }

  /** The bytes of an encoded header behind the first two. */
  function Tail(h: Header): bytes
  {
    Extended(h) + (if h.masked then h.mask else [])
  }

  /** What the reader makes of a second byte of the given value. */
  lemma SecondByteParts(h: Header, s: byte)
    requires WellTyped(h) && h.length >= 0 && s as int == LengthField(h) as int + (if h.masked then 128 else 0)
    ensures && Extra(s) == |Tail(h)| && LengthBytes(s) == |Extended(h)| && (s >= 0x80 <==> h.masked)
            && (h.length <= LEN7 ==> (s % 128) as int == h.length)
  {}

  lemma EncodedTail(h: Header, x: bytes)
    ensures var b := Encode(h) + x; b[0] == FirstByte(h) && b[1] == SecondByte(h) && b[2..] == Tail(h) + x
  {
    assert Encode(h) == Encode(h)[..2] + Tail(h);
  }

  /** What the reader sees of a complete header: its tail, in the scratch slice. */
  lemma TailFetched(h: Header, x: bytes, scratch: bytes)
    requires |h.mask| == 4 && |Tail(h)| <= |scratch|
    ensures var bts, len := Fill(scratch, Tail(h) + x, |Tail(h)|), |Extended(h)|;
            bts[..len] == Extended(h) && (h.masked ==> bts[len..len + 4] == h.mask)
  {
    var t := Tail(h);
    assert (t + x)[..|t|] == t;
    assert Fill(scratch, t + x, |t|)[..|t|] == t;
  }

  /** b starts with the first byte, second byte and complete tail of h, and x follows. */
  ghost predicate LaidOut(h: Header, b: bytes, x: bytes)
  {
    && |b| >= 2 && b[2..] == Tail(h) + x
    && b[0] as int == (if h.fin then 128 else 0) + 16 * h.rsv as int + h.opCode as int
    && b[1] as int == LengthField(h) as int + (if h.masked then 128 else 0)
  }

  lemma EncodedIsLaidOut(h: Header, x: bytes)
    requires WellTyped(h) && Encodable(h)
    ensures LaidOut(h, Encode(h) + x, x) && |Encode(h)| == 2 + |Tail(h)|
  {
    FirstByteValue(h);
    SecondByteValue(h);
    EncodedTail(h, x);
  }

  lemma FirstByteParts(b: byte, f: int, r: byte, o: byte)
    requires 0 <= f <= 1 && r < 8 && o < 16 && b as int == 128 * f + 16 * r as int + o as int
    ensures (b >= 0x80 <==> f == 1) && b / 16 % 8 == r && b % 16 == o
  {}

  lemma ReadsParts(h: Header, b: bytes, x: bytes, scratch: bytes)
    requires WellTyped(h) && Encodable(h) && |scratch| == MAX_HEADER_SIZE - 2 && |b| >= 6 && LaidOut(h, b, x)
    ensures var r := ReadHeader(scratch, b);
            r.Parsed? && r.header == h && r.used == 2 + |Tail(h)|
  {
    FirstByteParts(b[0], if h.fin then 1 else 0, h.rsv, h.opCode);
    SecondByteParts(h, b[1]);
    TailFetched(h, x, Fill(scratch, b, 2));
    if h.length > LEN7 {
      ExtendedValue(h);
    }
  }

  /** Reading what was written: every field comes back, and the cursor moves by exactly the size of the header,
      whatever follows and whatever the scratch slice held. */
  lemma ReadsBack(h: Header, x: bytes, scratch: bytes)
    requires WellTyped(h) && Encodable(h) && |scratch| == MAX_HEADER_SIZE - 2 && |Encode(h) + x| >= 6
    ensures var r := ReadHeader(scratch, Encode(h) + x);
            r.Parsed? && r.header == h && r.used == |Encode(h)|
  {
    EncodedIsLaidOut(h, x);
    ReadsParts(h, Encode(h) + x, x, scratch);
  }

  lemma LengthBound(bts: bytes, len: nat)
    requires |bts| >= 8 && (len == 2 || (len == 8 && bts[0] < 0x80))
    ensures GetUint(bts[..len]) <= if len == 2 then LEN16 else LEN64
  {
    RadixValues();
    GetUintBound(bts[..len]);
    if len == 8 {
      TopBitClear(bts[..8]);
    }
  }

  /** Whatever is read has fields that fit their bits. */
  lemma ParsedIsEncodable(b: bytes, scratch: bytes)
    requires |scratch| == MAX_HEADER_SIZE - 2 && ReadHeader(scratch, b).Parsed?
    ensures var h := ReadHeader(scratch, b).header; WellTyped(h) && Encodable(h)
  {
    var len, bts := LengthBytes(b[1]), Fill(Fill(scratch, b, 2), b[2..], Extra(b[1]));
    if len > 0 {
      LengthBound(bts, len);
    }
  }

  /** Exactly the headers whose fields fit come back as they were written. */
  lemma RoundTrip(h: Header, x: bytes, scratch: bytes)
    requires WellTyped(h) && |scratch| == MAX_HEADER_SIZE - 2 && |Encode(h) + x| >= 6
    ensures var r := ReadHeader(scratch, Encode(h) + x);
            (r.Parsed? && r.header == h && r.used == |Encode(h)|) <==> Encodable(h)
  {
    var r := ReadHeader(scratch, Encode(h) + x);
    if Encodable(h) {
      ReadsBack(h, x, scratch);
    } else if r.Parsed? {
      ParsedIsEncodable(Encode(h) + x, scratch);
    }
  }

  /** The writer uses the shortest form: no complete header that reads as h is shorter. */
  lemma Shortest(b: bytes, scratch: bytes)
    requires |scratch| == MAX_HEADER_SIZE - 2 && ReadHeader(scratch, b).Parsed? && |b| >= 2 + Extra(b[1])
    ensures |Encode(ReadHeader(scratch, b).header)| <= ReadHeader(scratch, b).used
  {
    var len, bts := LengthBytes(b[1]), Fill(Fill(scratch, b, 2), b[2..], Extra(b[1]));
    if len > 0 {
      LengthBound(bts, len);
    }
  }

  // ---- The wire format of section 5.2 of RFC 6455, in numbers ----

  /** b starts with the header h, its length written in `form` extra bytes: 0, 2 or 8. */
  predicate Wire(b: bytes, h: Header, form: nat)
  {
    && |h.mask| == 4 && h.rsv < 8 && h.opCode < 16 && form in {0, 2, 8} && |b| >= 2 + form + (if h.masked then 4 else 0)
    && b[0] as int == (if h.fin then 128 else 0) + 16 * h.rsv as int + h.opCode as int
    && b[1] as int == (if h.masked then 128 else 0) + (if form == 0 then h.length else if form == 2 then 126 else 127)
    && (if form == 0 then 0 <= h.length <= 125 else h.length == GetUint(b[2..2 + form]))
    && h.mask == if h.masked then b[2 + form..6 + form] else [0, 0, 0, 0]
  }

  /** The writer writes that format, with the length in its shortest form and nothing behind the header. */
  lemma WireWritten(h: Header)
    requires WellTyped(h) && Encodable(h)
    ensures var form := if h.length <= 125 then 0 else if h.length <= 65535 then 2 else 8;
            Wire(Encode(h), h, form) && |Encode(h)| == 2 + form + (if h.masked then 4 else 0)
  {
    EncodedIsLaidOut(h, []);
    assert Encode(h) + [] == Encode(h) && Tail(h) + [] == Tail(h);
    var b, n := Encode(h), |Extended(h)|;
    assert b[2..2 + n] == b[2..][..n] == Extended(h);
    if h.length > LEN7 {
      ExtendedValue(h);
    }
    if h.masked {
      assert b[2 + n..6 + n] == b[2..][n..n + 4] == h.mask;
    }
  }

  lemma Filled(scratch: bytes, b: bytes, n: nat)
    requires n <= |scratch| && n <= |b|
    ensures Fill(scratch, b, n)[..n] == b[..n]
  {}

  lemma WireFetched(b: bytes, h: Header, form: nat, scratch: bytes)
    requires Wire(b, h, form) && |scratch| == MAX_HEADER_SIZE - 2
    ensures LengthBytes(b[1]) == form && Extra(b[1]) == form + (if h.masked then 4 else 0)
    ensures var bts := Fill(Fill(scratch, b, 2), b[2..], Extra(b[1]));
            bts[..form] == b[2..2 + form] && (h.masked ==> bts[form..form + 4] == h.mask)
  {
    var extra := Extra(b[1]);
    var bts := Fill(Fill(scratch, b, 2), b[2..], extra);
    Filled(Fill(scratch, b, 2), b[2..], extra);
    assert b[2..][..extra] == b[2..2 + extra];
    assert bts[..form] == bts[..extra][..form] && b[2..2 + extra][..form] == b[2..2 + form];
    if h.masked {
      assert bts[form..form + 4] == bts[..extra][form..] && b[2..2 + extra][form..] == b[2 + form..6 + form];
    }
  }

  /** The reader reads that format, in every form and whatever follows; a 64-bit length with its top bit set is bad. */
  lemma WireRead(b: bytes, h: Header, form: nat, scratch: bytes)
    requires Wire(b, h, form) && |b| >= 6 && |scratch| == MAX_HEADER_SIZE - 2
    ensures var r := ReadHeader(scratch, b);
            && !r.NotReady? && r.used == 2 + form + (if h.masked then 4 else 0)
            && (if h.length >= 0x8000_0000_0000_0000 then r.BadLength? else r.Parsed? && r.header == h)
  {
    WireFetched(b, h, form, scratch);
    FirstByteParts(b[0], if h.fin then 1 else 0, h.rsv, h.opCode);
    if form > 0 {
      GetUintBound(b[2..2 + form]);
      RadixValues();
    }
    if form == 8 {
      TopBit(b[2..10]);
    }
  }

  lemma TopBit(b: bytes)
    requires |b| == 8
    ensures b[0] >= 0x80 <==> GetUint(b) >= 0x8000_0000_0000_0000
  {
    RadixValues();
    if b[0] >= 0x80 {
      LeadingByte(b);
    } else {
      TopBitClear(b);
    }
  }

  /** `VirtualRead` into the front of the scratch slice. */
  method Fetch(bts: array<byte>, buffer: RingBuffer, n: nat) returns (got: nat)
    requires n <= bts.Length && buffer.Valid()
    modifies bts, buffer
    ensures buffer.Valid() && buffer.data == old(buffer.data) && buffer.virtual == old(buffer.virtual) + got
    ensures buffer.cut == old(buffer.cut)
    ensures got == Min(n, |buffer.data| - old(buffer.virtual))
    ensures bts[..] == Fill(old(bts[..]), buffer.data[old(buffer.virtual)..], n)
  {
    var p := buffer.VirtualRead(n);
    got := Copy(bts, 0, p);
  }

  /** The fields, once everything that is there has been read. */
  method Interpret(first: byte, second: byte, bts: array<byte>, used: nat) returns (r: HeaderResult)
    requires bts.Length == MAX_HEADER_SIZE - 2
    ensures r == Meaning(first, second, bts[..], used)
  {
    var h := Header(first >= 0x80, first / 16 % 8, first % 16, second >= 0x80, NO_MASK, 0);
    var at, length := 0, second % 128;
    if length < 126 {
      h := h.(length := length as int);
    } else if length == 126 {
      h, at := h.(length := GetUint(bts[..2])), 2;
    } else {
      if bts[0] >= 0x80 {
        return BadLength(used, bts[..]);
      }
      h, at := h.(length := GetUint(bts[..8])), 8;
    }
    if h.masked {
      h := h.(mask := bts[at..at + 4]);
    }
    r := Parsed(h, used, bts[..]);
  }

  /** Two bytes, which tell how many follow, and then those. */
  method FetchHeader(bts: array<byte>, buffer: RingBuffer) returns (first: byte, second: byte, used: nat, ghost two: bytes)
    requires bts.Length == MAX_HEADER_SIZE - 2 && buffer.Valid()
    modifies bts, buffer
    ensures buffer.Valid() && buffer.data == old(buffer.data) && buffer.virtual == old(buffer.virtual) + used
    ensures buffer.cut == old(buffer.cut)
    ensures two == Fill(old(bts[..]), buffer.data[old(buffer.virtual)..], 2) && first == two[0] && second == two[1]
    ensures var v := old(buffer.virtual);
            var got := Min(2, |buffer.data| - v);
            && used == got + Min(Extra(second), |buffer.data| - v - got)
            && bts[..] == Fill(two, buffer.data[v + got..], Extra(second))
  {
    used := Fetch(bts, buffer, 2);
    first, second, two := bts[0], bts[1], bts[..];
    var got := Fetch(bts, buffer, Extra(second));
    used := used + got;
  }

  /** The reader over a ring buffer, moving its virtual cursor and reusing the connection's scratch slice. */
  method VirtualReadHeader(bts: array<byte>, buffer: RingBuffer) returns (r: HeaderResult)
    requires bts.Length == MAX_HEADER_SIZE - 2 && buffer.Valid()
    modifies bts, buffer
    ensures buffer.Valid() && buffer.data == old(buffer.data)
    ensures buffer.cut == old(buffer.cut)
    ensures r == ReadHeaderAt(old(bts[..]), buffer.data, old(buffer.virtual))
    ensures buffer.virtual == old(buffer.virtual) + if r.NotReady? then 0 else r.used
    ensures bts[..] == if r.NotReady? then old(bts[..]) else r.scratch
  {
    if |buffer.data| < 6 {
      return NotReady;
    }
    ghost var scratch, v := bts[..], buffer.virtual;
    var first, second, used;
    ghost var two;
    first, second, used, two := FetchHeader(bts, buffer);
    r := Interpret(first, second, bts, used);
    AllRead(scratch, buffer.data, v, two, bts[..]);
  }
}
