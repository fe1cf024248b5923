/** plugins/websocket/ws/frame.go and ws/util/util.go: control frames, and the replies to them
    (sections 5.5 and 7.4 of RFC 6455). */
module WsControl {
  import opened Bytes
  import opened RingBuffers
  import opened WsHeader

  const MAX_CONTROL_PAYLOAD := 125
  const OP_CLOSE: byte := 0x8
  const OP_PING: byte := 0x9
  const OP_PONG: byte := 0xa
  const PROTOCOL_ERROR: nat := 1002

  datatype Frame = Frame(header: Header, payload: bytes)

  function NewFrame(op: byte, fin: bool, p: bytes): Frame
  {
    Frame(Header(fin, 0, op, false, NO_MASK, |p|), p)
  }

  function FrameToBytes(f: Frame): bytes
  {
    Encode(f.header) + f.payload
  }

  // ---- UTF-8, as section 4 of RFC 3629 defines it ----

  predicate Continuation(b: byte) { 0x80 <= b <= 0xbf }

  /** The length of the well-formed sequence that s starts with, or 0. */
  function SequenceLength(s: bytes): (n: nat)
    ensures n <= |s|
  {
    if s == [] then 0
    else if s[0] < 0x80 then 1
    else if |s| >= 2 && 0xc2 <= s[0] <= 0xdf && Continuation(s[1]) then 2
    else if |s| >= 3 && 0xe0 <= s[0] <= 0xef && Continuation(s[1]) && Continuation(s[2])
            && (s[0] == 0xe0 ==> s[1] >= 0xa0) && (s[0] == 0xed ==> s[1] <= 0x9f) then 3
    else if |s| >= 4 && 0xf0 <= s[0] <= 0xf4 && Continuation(s[1]) && Continuation(s[2]) && Continuation(s[3])
            && (s[0] == 0xf0 ==> s[1] >= 0x90) && (s[0] == 0xf4 ==> s[1] <= 0x8f) then 4
    else 0
  }

  predicate ValidUtf8(s: bytes)
    decreases |s|
  {
    s == [] || (SequenceLength(s) > 0 && ValidUtf8(s[SequenceLength(s)..]))
  }

  /** ASCII in front changes nothing. */
  lemma {:induction false} AsciiThen(a: bytes, s: bytes)
    requires forall i :: 0 <= i < |a| ==> a[i] < 0x80
    ensures ValidUtf8(a + s) <==> ValidUtf8(s)
    decreases |a|
  {
    if a == [] {
      assert a + s == s;
    } else {
      AsciiThen(a[1..], s);
      assert (a + s)[1..] == a[1..] + s;
    }
  }

  /** A Unicode scalar value: a code point that is no surrogate. */
  predicate Scalar(cp: nat) { cp < 0xd800 || 0xe000 <= cp < 0x11_0000 }

  /** Its UTF-8 form (section 3 of RFC 3629). */
  function Utf8(cp: nat): bytes
    requires Scalar(cp)
  {
    if cp < 0x80 then [cp as byte]
    else if cp < 0x800 then [(0xc0 + cp / 64) as byte, (0x80 + cp % 64) as byte]
    else if cp < 0x1_0000 then [(0xe0 + cp / 4096) as byte, (0x80 + cp / 64 % 64) as byte, (0x80 + cp % 64) as byte]
    else [(0xf0 + cp / 262144) as byte, (0x80 + cp / 4096 % 64) as byte, (0x80 + cp / 64 % 64) as byte, (0x80 + cp % 64) as byte]
  }

  /** The text of a list of code points. */
  function Text(cps: seq<nat>): bytes
    requires forall cp <- cps :: Scalar(cp)
  {
    if cps == [] then [] else Utf8(cps[0]) + Text(cps[1..])
  }

  lemma ShortScalar(cp: nat, x: bytes)
    requires Scalar(cp) && cp < 0x800
    ensures SequenceLength(Utf8(cp) + x) == |Utf8(cp)|
  {}

  lemma LongScalar(cp: nat, x: bytes)
    requires Scalar(cp) && 0x800 <= cp < 0x1_0000
    ensures SequenceLength(Utf8(cp) + x) == |Utf8(cp)|
  {
    assert cp / 4096 == 0 ==> cp / 64 >= 32;
    assert cp / 4096 == 13 ==> cp / 64 % 64 < 32;
  }

  lemma LongestScalar(cp: nat, x: bytes)
    requires Scalar(cp) && cp >= 0x1_0000
    ensures SequenceLength(Utf8(cp) + x) == |Utf8(cp)|
  {
    assert cp / 262144 == 0 ==> cp / 4096 >= 16;
    assert cp / 262144 == 4 ==> cp / 4096 % 64 < 16;
  }

  lemma ScalarSequence(cp: nat, x: bytes)
    requires Scalar(cp)
    ensures SequenceLength(Utf8(cp) + x) == |Utf8(cp)|
  {
    if cp < 0x800 {
      ShortScalar(cp, x);
    } else if cp < 0x1_0000 {
      LongScalar(cp, x);
    } else {
      LongestScalar(cp, x);
    }
  }

  lemma TwoBytes(a: byte, b: byte) returns (cp: nat)
    requires 0xc2 <= a <= 0xdf && Continuation(b)
    ensures Scalar(cp) && Utf8(cp) == [a, b]
  {
    cp := (a as nat - 0xc0) * 64 + (b as nat - 0x80);
  }

  lemma ThreeBytes(a: byte, b: byte, c: byte) returns (cp: nat)
    requires 0xe0 <= a <= 0xef && Continuation(b) && Continuation(c) && (a == 0xe0 ==> b >= 0xa0) && (a == 0xed ==> b <= 0x9f)
    ensures Scalar(cp) && Utf8(cp) == [a, b, c]
  {
    var high := (a as nat - 0xe0) * 64 + (b as nat - 0x80);
    cp := high * 64 + (c as nat - 0x80);
    assert cp / 64 == high && cp / 4096 == high / 64;
  }

  lemma FourBytes(a: byte, b: byte, c: byte, d: byte) returns (cp: nat)
    requires 0xf0 <= a <= 0xf4 && Continuation(b) && Continuation(c) && Continuation(d)
    requires (a == 0xf0 ==> b >= 0x90) && (a == 0xf4 ==> b <= 0x8f)
    ensures Scalar(cp) && Utf8(cp) == [a, b, c, d]
  {
    var top := (a as nat - 0xf0) * 64 + (b as nat - 0x80);
    var high := top * 64 + (c as nat - 0x80);
    cp := high * 64 + (d as nat - 0x80);
    assert high / 64 == top && cp / 64 == high;
    assert cp / 4096 == top && cp / 262144 == top / 64;
  }

  lemma SequenceScalar(s: bytes) returns (cp: nat)
    requires SequenceLength(s) > 0
    ensures Scalar(cp) && Utf8(cp) == s[..SequenceLength(s)]
  {
    var n := SequenceLength(s);
    if n == 1 {
      cp := s[0] as nat;
    } else if n == 2 {
      cp := TwoBytes(s[0], s[1]);
    } else if n == 3 {
      cp := ThreeBytes(s[0], s[1], s[2]);
    } else {
      cp := FourBytes(s[0], s[1], s[2], s[3]);
    }
  }

  lemma {:induction false} TextValid(cps: seq<nat>)
    requires forall cp <- cps :: Scalar(cp)
    ensures ValidUtf8(Text(cps))
  {
    if cps != [] {
      var rest := Text(cps[1..]);
      ScalarSequence(cps[0], rest);
      assert (Utf8(cps[0]) + rest)[|Utf8(cps[0])|..] == rest;
      TextValid(cps[1..]);
    }
  }

  lemma {:induction false} ValidText(s: bytes) returns (cps: seq<nat>)
    requires ValidUtf8(s)
    ensures (forall cp <- cps :: Scalar(cp)) && s == Text(cps)
    decreases |s|
  {
    if s == [] {
      cps := [];
    } else {
      var n := SequenceLength(s);
      var cp := SequenceScalar(s);
      var rest := ValidText(s[n..]);
      cps := [cp] + rest;
      assert cps[1..] == rest && s == s[..n] + s[n..];
    }
  }

  /** The byte strings taken for valid are exactly the UTF-8 forms of texts. */
  lemma Utf8Exactly(s: bytes)
    ensures ValidUtf8(s) <==> exists cps :: (forall cp <- cps :: Scalar(cp)) && s == Text(cps)
  {
    if ValidUtf8(s) {
      var cps := ValidText(s);
    }
    if exists cps :: (forall cp <- cps :: Scalar(cp)) && s == Text(cps) {
      var cps :| (forall cp <- cps :: Scalar(cp)) && s == Text(cps);
      TextValid(cps);
    }
  }

  // ---- Status codes ----

  datatype CloseError = NotInUse | ApplicationLevel | NoMeaning | UnknownCode | InvalidUtf8

  function Message(e: CloseError): bytes
  {
    match e
    case NotInUse => Ascii("status code is not in use")
    case ApplicationLevel => Ascii("status code is only application level")
    case NoMeaning => Ascii("status code has no meaning yet")
    case UnknownCode => Ascii("status code is not defined in spec")
    case InvalidUtf8 => Ascii("invalid utf8 sequence in close reason")
  }

  predicate ProtocolReserved(code: nat) { code == 1005 || code == 1006 || code == 1015 }

  predicate ProtocolDefined(code: nat)
  {
    1000 <= code <= 1003 || 1005 <= code <= 1011 || code == 1015
  }

  function ParseCloseFrameData(payload: bytes): (nat, bytes)
  {
    if |payload| < 2 then (0, []) else (GetUint(payload[..2]), payload[2..])
  }

  function CheckCloseFrameData(code: nat, reason: bytes): Option<CloseError>
  {
    if code <= 999 then Some(NotInUse)
    else if ProtocolReserved(code) then Some(ApplicationLevel)
    else if code == 1004 then Some(NoMeaning)
    else if 1000 <= code <= 2999 && !ProtocolDefined(code) then Some(UnknownCode)
    else if !ValidUtf8(reason) then Some(InvalidUtf8)
    else None
  }

  /** The check a received close payload is put to. */
  function Check(payload: bytes): Option<CloseError>
  {
    CheckCloseFrameData(ParseCloseFrameData(payload).0, ParseCloseFrameData(payload).1)
  }

  /** Which failure is reported, by code. */
  lemma CodeExactly(code: nat, reason: bytes)
    ensures CheckCloseFrameData(code, reason) == Some(NotInUse) <==> code < 1000
    ensures CheckCloseFrameData(code, reason) == Some(ApplicationLevel) <==> code in {1005, 1006, 1015}
    ensures CheckCloseFrameData(code, reason) == Some(NoMeaning) <==> code == 1004
    ensures CheckCloseFrameData(code, reason) == Some(UnknownCode) <==> 1012 <= code <= 1014 || 1016 <= code <= 2999
  {}

  /** Codes an endpoint may put into a close frame (section 7.4 of RFC 6455). */
  predicate Sendable(code: nat)
  {
    1000 <= code <= 1003 || 1007 <= code <= 1011 || code >= 3000
  }

  function CloseBody(code: nat, reason: bytes): (r: bytes)
    ensures 2 <= |r| <= MAX_CONTROL_PAYLOAD
  {
    PutUint(code, 2) + reason[..Min(MAX_CONTROL_PAYLOAD - 2, |reason|)]
  }

  /** Fills a slice of exactly the right size; a reason that does not fit is cropped. */
  method NewCloseFrameBody(code: nat, reason: bytes) returns (p: array<byte>)
    ensures fresh(p) && p[..] == CloseBody(code, reason)
  {
    var n := Min(2 + |reason|, MAX_CONTROL_PAYLOAD);
    p := new byte[n];
    var crop := Min(MAX_CONTROL_PAYLOAD - 2, |reason|);
    var k := Copy(p, 0, PutUint(code, 2));
    k := Copy(p, 2, reason[..crop]);
  }

  // ---- Replies ----

  /** The body of the reply to a close frame. */
  function ReplyBody(payload: bytes): bytes
  {
    if payload == [] then []
    else
      var (code, reason) := ParseCloseFrameData(payload);
      match CheckCloseFrameData(code, reason)
      case Some(e) => CloseBody(PROTOCOL_ERROR, Message(e))
      case None => CloseBody(code, reason)
  }

  /** `HandleClose` for a header whose length is that of the payload. */
  function HandleClose(payload: bytes): bytes
  {
    if payload == [] then Encode(Header(true, 0, OP_CLOSE, false, NO_MASK, 0))
    else FrameToBytes(NewFrame(OP_CLOSE, true, ReplyBody(payload)))
  }

  function HandlePing(payload: bytes): bytes
  {
    FrameToBytes(NewFrame(OP_PONG, true, payload))
  }

  /** A peer reading the bytes b (more may follow) gets this frame. */
  ghost predicate ReadsAs(b: bytes, f: Frame)
  {
    forall x, scratch {:trigger ReadHeader(scratch, b + x)} :: |scratch| == MAX_HEADER_SIZE - 2 && |b + x| >= 6 ==>
      var r := ReadHeader(scratch, b + x);
      && r.Parsed? && r.header == f.header && f.header.length == |f.payload|
      && r.used <= |b| && b[r.used..] == f.payload
  }

  lemma FrameReadsBack(f: Frame, x: bytes, scratch: bytes)
    requires WellTyped(f.header) && Encodable(f.header) && |scratch| == MAX_HEADER_SIZE - 2 && |FrameToBytes(f) + x| >= 6
    ensures var r := ReadHeader(scratch, FrameToBytes(f) + x);
            && r.Parsed? && r.header == f.header && r.used == |Encode(f.header)| && r.used <= |FrameToBytes(f)|
            && FrameToBytes(f)[r.used..] == f.payload
  {
    assert FrameToBytes(f) + x == Encode(f.header) + (f.payload + x);
    ReadsBack(f.header, f.payload + x, scratch);
  }

  lemma FrameReadsAs(op: byte, fin: bool, p: bytes)
    requires op < 16 && |p| <= LEN64
    ensures ReadsAs(FrameToBytes(NewFrame(op, fin, p)), NewFrame(op, fin, p))
  {
    var f := NewFrame(op, fin, p);
    var b := FrameToBytes(f);
    forall x, scratch {:trigger ReadHeader(scratch, b + x)} | |scratch| == MAX_HEADER_SIZE - 2 && |b + x| >= 6
      ensures ReadHeader(scratch, b + x).Parsed?
      ensures var r := ReadHeader(scratch, b + x);
              r.header == f.header && f.header.length == |f.payload| && r.used <= |b| && b[r.used..] == f.payload
    {
      FrameReadsBack(f, x, scratch);
    }
  }

  lemma CloseBodyParts(code: nat, reason: bytes)
    requires code < 0x1_0000
    ensures ParseCloseFrameData(CloseBody(code, reason)) == (code, reason[..Min(MAX_CONTROL_PAYLOAD - 2, |reason|)])
  {
    var b := CloseBody(code, reason);
    assert b[..2] == PutUint(code, 2) && b[2..] == reason[..Min(MAX_CONTROL_PAYLOAD - 2, |reason|)];
    RadixValues();
    GetPutSmall(code, 2);
  }

  lemma CodeRange(payload: bytes)
    ensures ParseCloseFrameData(payload).0 < 0x1_0000
  {
    RadixValues();
    if |payload| >= 2 {
      GetUintBound(payload[..2]);
    }
  }

  /** A body that fits is built back byte for byte. */
  lemma {:induction false} CloseBodyEchoes(payload: bytes)
    requires 2 <= |payload| <= MAX_CONTROL_PAYLOAD
    ensures CloseBody(ParseCloseFrameData(payload).0, ParseCloseFrameData(payload).1) == payload
  {
    PutGet(payload[..2]);
    assert payload == payload[..2] + payload[2..];
  }

  lemma CheckedCode(code: nat, reason: bytes)
    ensures CheckCloseFrameData(code, reason).None? ==> Sendable(code) && ValidUtf8(reason)
    ensures Sendable(code) && ValidUtf8(reason) ==> CheckCloseFrameData(code, reason).None?
  {}

  lemma MessageValid(e: CloseError)
    ensures ValidUtf8(Message(e)) && |Message(e)| <= MAX_CONTROL_PAYLOAD - 2
  {
    AsciiThen(Message(e), []);
    assert Message(e) + [] == Message(e);
  }

  /** The error reply carries code 1002 and passes the check it reports a failure of. */
  lemma ErrorReply(payload: bytes)
    requires payload != [] && Check(payload).Some?
    ensures Check(ReplyBody(payload)).None? && ParseCloseFrameData(ReplyBody(payload)).0 == PROTOCOL_ERROR
  {
    var m := Message(Check(payload).value);
    MessageValid(Check(payload).value);
    CloseBodyParts(PROTOCOL_ERROR, m);
    assert m[..|m|] == m;
  }

  /** The reply to a valid payload keeps its code and as much of its reason as fits. */
  lemma ValidReply(payload: bytes)
    requires Check(payload).None?
    ensures var (code, reason) := ParseCloseFrameData(payload);
            ParseCloseFrameData(ReplyBody(payload)) == (code, reason[..Min(MAX_CONTROL_PAYLOAD - 2, |reason|)]) && Sendable(code)
  {
    CodeRange(payload);
    CloseBodyParts(ParseCloseFrameData(payload).0, ParseCloseFrameData(payload).1);
  }

  /** For every received close payload the reply is a final, unmasked close frame of at most 125 bytes, empty or carrying
      a code an endpoint may send; the received body comes back byte for byte exactly when it was valid and fits. */
  lemma CloseReply(payload: bytes)
    ensures ReadsAs(HandleClose(payload), NewFrame(OP_CLOSE, true, ReplyBody(payload)))
    ensures |ReplyBody(payload)| <= MAX_CONTROL_PAYLOAD
    ensures payload != [] ==> |ReplyBody(payload)| >= 2 && Sendable(GetUint(ReplyBody(payload)[..2]))
    ensures ReplyBody(payload) == payload <==> payload == [] || (Check(payload).None? && |payload| <= MAX_CONTROL_PAYLOAD)
  {
    FrameReadsAs(OP_CLOSE, true, ReplyBody(payload));
    if payload == [] {
      assert HandleClose(payload) + [] == HandleClose(payload);
    } else if Check(payload).Some? {
      ErrorReply(payload);
    } else {
      ValidReply(payload);
      if |payload| <= MAX_CONTROL_PAYLOAD {
        CloseBodyEchoes(payload);
      }
    }
  }

  /** The reply passes the check itself unless a valid reason had to be cropped inside a character. */
  lemma ReplyPasses(payload: bytes)
    requires payload != []
    ensures Check(ReplyBody(payload)).None?
            <==> (Check(payload).None? && |payload| > MAX_CONTROL_PAYLOAD ==> ValidUtf8(payload[2..MAX_CONTROL_PAYLOAD]))
  {
    if Check(payload).Some? {
      ErrorReply(payload);
    } else {
      ValidReply(payload);
      var (code, reason) := ParseCloseFrameData(payload);
      if |payload| > MAX_CONTROL_PAYLOAD {
        assert reason[..MAX_CONTROL_PAYLOAD - 2] == payload[2..MAX_CONTROL_PAYLOAD];
      } else {
        assert reason[..|reason|] == reason;
      }
    }
  }

  /** A two-byte character across the limit of 125 bytes. */
  lemma CroppedCharacter(a: bytes)
    requires forall i :: 0 <= i < |a| ==> a[i] < 0x80
    ensures ValidUtf8(a + [0xc3, 0xa9]) && !ValidUtf8(a + [0xc3])
  {
    AsciiThen(a, [0xc3, 0xa9]);
    AsciiThen(a, [0xc3]);
    assert [0xc3, 0xa9][2..] == [];
  }

  /** Payloads whose reply does not pass: a valid code, 122 ASCII bytes and a two-byte character. */
  lemma ReplyFails(code: nat, a: bytes)
    requires Sendable(code) && code < 0x1_0000 && |a| == 122 && forall i :: 0 <= i < |a| ==> a[i] < 0x80
    ensures var payload := PutUint(code, 2) + (a + [0xc3, 0xa9]); Check(payload).None? && Check(ReplyBody(payload)) == Some(InvalidUtf8)
  {
    var payload := PutUint(code, 2) + (a + [0xc3, 0xa9]);
    assert payload[..2] == PutUint(code, 2) && payload[2..] == a + [0xc3, 0xa9];
    RadixValues();
    GetPutSmall(code, 2);
    CroppedCharacter(a);
    CheckedCode(code, a + [0xc3, 0xa9]);
    ValidReply(payload);
    assert (a + [0xc3, 0xa9])[..123] == a + [0xc3];
  }

  /** A ping is answered by a final, unmasked pong with the same payload. */
  lemma PongEchoes(payload: bytes)
    requires |payload| <= LEN64
    ensures ReadsAs(HandlePing(payload), NewFrame(OP_PONG, true, payload))
  {
    FrameReadsAs(OP_PONG, true, payload);
  }

  // ---- The replies, byte by byte ----

  lemma FrameBytes(op: byte, p: bytes)
    requires op < 16 && |p| <= MAX_CONTROL_PAYLOAD
    ensures FrameToBytes(NewFrame(op, true, p)) == [128 + op, |p| as byte] + p
  {
    var h := NewFrame(op, true, p).header;
    WireWritten(h);
    assert Encode(h) == [Encode(h)[0], Encode(h)[1]];
  }

  /** A close reply is 0x88, the length of its body and the body; a pong to a ping of at most 125 bytes is 0x8a, the length
      and the payload. */
  lemma ReplyBytes(payload: bytes)
    ensures HandleClose(payload) == [0x88, |ReplyBody(payload)| as byte] + ReplyBody(payload)
    ensures |payload| <= 125 ==> HandlePing(payload) == [0x8a, |payload| as byte] + payload
  {
    CloseReply(payload);
    FrameBytes(OP_CLOSE, ReplyBody(payload));
    assert FrameToBytes(NewFrame(OP_CLOSE, true, [])) == Encode(Header(true, 0, OP_CLOSE, false, NO_MASK, 0)) + [];
    if |payload| <= 125 {
      FrameBytes(OP_PONG, payload);
    }
  }

  /** The body of the reply: nothing to nothing; the code 1002 and the reason of the refusal to an invalid payload; and to a
      valid one its code and as much of its reason as fits into 125 bytes. */
  lemma ReplyText(payload: bytes)
    ensures payload == [] ==> ReplyBody(payload) == []
    ensures payload != [] && Check(payload).Some? ==> ReplyBody(payload) == [0x03, 0xea] + Message(Check(payload).value)
    ensures payload != [] && Check(payload).None? ==> ReplyBody(payload) == payload[..Min(125, |payload|)]
  {
    if payload != [] && Check(payload).Some? {
      MessageValid(Check(payload).value);
      PutThousand();
      var m := Message(Check(payload).value);
      assert m[..|m|] == m;
    } else if payload != [] {
      PutGet(payload[..2]);
      var reason := payload[2..];
      assert payload[..Min(125, |payload|)] == payload[..2] + reason[..Min(123, |reason|)];
    }
  }

  /** The code is a big-endian number of two bytes; a payload of one byte has none and is refused as not in use. */
  lemma CodeRead(payload: bytes)
    ensures |payload| >= 2 ==> Check(payload) == CheckCloseFrameData(256 * payload[0] as nat + payload[1] as nat, payload[2..])
    ensures |payload| == 1 ==> ReplyBody(payload) == [0x03, 0xea] + Ascii("status code is not in use")
  {
    if |payload| >= 2 {
      assert payload[..2] == [payload[0]] + [payload[1]];
      Positional([payload[0]], [payload[1]], payload[0]);
      Positional([], [], payload[1]);
      assert Radix(1) == 256;
    } else if |payload| == 1 {
      ReplyText(payload);
    }
  }

  lemma PutThousand()
    ensures PutUint(1002, 2) == [0x03, 0xea]
  {
    assert PutUint(1002, 2) == PutUint(3, 1) + [234] && PutUint(3, 1) == PutUint(0, 0) + [3];
  }
}
