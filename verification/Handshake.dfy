/** plugins/websocket/ws/ws.go: `Upgrade` of an upgrader without callbacks, as section 4.2.1 of RFC 6455 asks for. */
module Handshake {
  import opened Bytes
  import opened Decimal
  import opened HttpText
  import opened RingBuffers

  const HOST: bytes := [0x48, 0x6f, 0x73, 0x74]
  const UPGRADE: bytes := [0x55, 0x70, 0x67, 0x72, 0x61, 0x64, 0x65]
  const UPGRADE_LOWER: bytes := [0x75, 0x70, 0x67, 0x72, 0x61, 0x64, 0x65]
  const CONNECTION: bytes := [0x43, 0x6f, 0x6e, 0x6e, 0x65, 0x63, 0x74, 0x69, 0x6f, 0x6e]
  /** Sec-Websocket- */
  const SEC: bytes := [0x53, 0x65, 0x63, 0x2d, 0x57, 0x65, 0x62, 0x73, 0x6f, 0x63, 0x6b, 0x65, 0x74, 0x2d]
  const SEC_VERSION: bytes := SEC + [0x56, 0x65, 0x72, 0x73, 0x69, 0x6f, 0x6e]
  const SEC_KEY: bytes := SEC + [0x4b, 0x65, 0x79]
  const WEBSOCKET: bytes := [0x77, 0x65, 0x62, 0x73, 0x6f, 0x63, 0x6b, 0x65, 0x74]
  const VERSION13: bytes := [0x31, 0x33]
  const NONCE_SIZE := 24

  datatype Failure =
    | Malformed | BadProtocol | BadMethod
    | BadHost | BadUpgrade | BadConnection | BadSecVersion | BadSecKey | UpgradeRequired

  datatype Kind = Host | UpgradeHeader | Connection | SecVersion | SecKey | Other

  /** What goes back to the client: the upgrade response for a key, or an error response. */
  datatype Verdict = Accepted(nonce: bytes) | Refused(failure: Failure)

  /** The bytes consumed, and the response if there is one; a failure before the headers are looked at has none. */
  datatype Upgraded = Silent(failure: Failure, used: nat) | Replied(verdict: Verdict, used: nat)

  // ---- One line ----

  /** The request line must be a GET with version 1.x, x at least 1. */
  function RequestFailure(line: bytes): Option<Failure>
  {
    var (name, uri, proto) := Split3(line, SP);
    var v := Version(proto);
    if v.None? then Some(Malformed)
    else if v.value.0 != 1 || v.value.1 < 1 then Some(BadProtocol)
    else if name != GET then Some(BadMethod)
    else None
  }

  function KindOf(name: bytes): Kind
  {
    if name == HOST then Host
    else if name == UPGRADE then UpgradeHeader
    else if name == CONNECTION then Connection
    else if name == SEC_VERSION then SecVersion
    else if name == SEC_KEY then SecKey
    else Other
  }

  function ValueFailure(kind: Kind, v: bytes): Option<Failure>
  {
    match kind
    case UpgradeHeader => if v != WEBSOCKET then Some(BadUpgrade) else None
    case Connection => if v != UPGRADE && v != UPGRADE_LOWER then Some(BadConnection) else None
    case SecVersion => if v != VERSION13 then Some(UpgradeRequired) else None
    case SecKey => if |v| != NONCE_SIZE then Some(BadSecKey) else None
    case _ => None
  }

  function LineFailure(line: bytes): Option<Failure>
  {
    var h := HeaderLine(line);
    if h.None? then Some(Malformed) else ValueFailure(KindOf(h.value.0), h.value.1)
  }

  predicate HasKind(line: bytes, kind: Kind)
  {
    HeaderLine(line).Some? && KindOf(HeaderLine(line).value.0) == kind
  }

  // ---- All lines ----

  /** The lines in front of the first blank one. */
  function UntilBlank(lines: seq<bytes>): seq<bytes>
  {
    if lines == [] || lines[0] == [] then [] else [lines[0]] + UntilBlank(lines[1..])
  }

  function FirstFailure(headers: seq<bytes>): Option<Failure>
  {
    if headers == [] then None
    else if LineFailure(headers[0]).Some? then LineFailure(headers[0])
    else FirstFailure(headers[1..])
  }

  predicate Seen(headers: seq<bytes>, kind: Kind)
  {
    exists h <- headers :: HasKind(h, kind)
  }

  function Missing(headers: seq<bytes>): Option<Failure>
  {
    if !Seen(headers, Host) then Some(BadHost)
    else if !Seen(headers, UpgradeHeader) then Some(BadUpgrade)
    else if !Seen(headers, Connection) then Some(BadConnection)
    else if !Seen(headers, SecVersion) then Some(BadSecVersion)
    else if !Seen(headers, SecKey) then Some(BadSecKey)
    else None
  }

  /** The last key counts. */
  function Nonce(headers: seq<bytes>): bytes
  {
    if headers == [] then seq(NONCE_SIZE, _ => 0)
    else
      var last := headers[|headers| - 1];
      if HasKind(last, SecKey) then HeaderLine(last).value.1 else Nonce(headers[..|headers| - 1])
  }

  function Judge(headers: seq<bytes>): Verdict
  {
    if FirstFailure(headers).Some? then Refused(FirstFailure(headers).value)
    else if Missing(headers).Some? then Refused(Missing(headers).value)
    else Accepted(Nonce(headers))
  }

  /** `Upgrade` over contiguous input. Without the end of the head in sight, an empty request line is looked at. */
  function Upgrading(b: bytes): Upgraded
  {
    var i := Find(b, END);
    if i.None? then Silent(Malformed, 0)
    else
      var lines := Lines(b[..i.value + 4]);
      var f := RequestFailure(lines[0]);
      if f.Some? then Silent(f.value, i.value + 4) else Replied(Judge(UntilBlank(lines[1..])), i.value + 4)
  }

  /** The number of bytes `Upgrade` takes off contents b whose first segment has length cut. If the end of the head is in
      the second segment, its index there is counted from the start of the contents. */
  function Taking(b: bytes, cut: nat): (n: nat)
    requires cut <= |b|
    ensures n <= |b|
  {
    var i, j := Find(b[..cut], END), Find(b[cut..], END);
    if i.Some? then i.value + 4 else if j.Some? then j.value + 4 else 0
  }

  /** `Upgrade` over contents in two segments. */
  function UpgradingAt(b: bytes, cut: nat): Upgraded
    requires cut <= |b|
  {
    var n := Taking(b, cut);
    var lines := Lines(b[..n]);
    var f := RequestFailure(lines[0]);
    if f.Some? then Silent(f.value, n) else Replied(Judge(UntilBlank(lines[1..])), n)
  }

  /** The end of the head is in the first segment, or the search of the second alone finds what a search of both would. */
  predicate Harmless(b: bytes, cut: nat)
    requires cut <= |b|
  {
    Find(b[..cut], END).Some? || Find(b[cut..], END) == Find(b, END)
  }

  predicate Accepts(b: bytes)
  {
    Upgrading(b).Replied? && Upgrading(b).verdict.Accepted?
  }

  // ---- The code ----

  function Bit(kind: Kind): bv8
  {
    match kind
    case Host => 1
    case UpgradeHeader => 2
    case Connection => 4
    case SecVersion => 8
    case SecKey => 16
    case Other => 0
  }

  const SEEN_ALL: bv8 := 31

  /** The bit mask of the loop records which kinds were seen, and nothing else. */
  ghost predicate Records(seen: bv8, headers: seq<bytes>)
  {
    seen & 0xe0 == 0 && forall kind :: kind != Other ==> (seen & Bit(kind) != 0 <==> Seen(headers, kind))
  }

  method CheckHeader(k: bytes, v: bytes, seen: bv8, nonce: bytes) returns (seen': bv8, nonce': bytes, err: Option<Failure>)
    ensures seen' == seen | Bit(KindOf(k)) && err == ValueFailure(KindOf(k), v)
    ensures nonce' == if KindOf(k) == SecKey && err.None? then v else nonce
  {
    seen', nonce', err := seen, nonce, None;
    if k == HOST {
      seen' := seen' | 1;
    } else if k == UPGRADE {
      seen' := seen' | 2;
      if v != WEBSOCKET {
        err := Some(BadUpgrade);
      }
    } else if k == CONNECTION {
      seen' := seen' | 4;
      if v != UPGRADE && v != UPGRADE_LOWER {
        err := Some(BadConnection);
      }
    } else if k == SEC_VERSION {
      seen' := seen' | 8;
      if v != VERSION13 {
        err := Some(UpgradeRequired);
      }
    } else if k == SEC_KEY {
      seen' := seen' | 16;
      if |v| != NONCE_SIZE {
        err := Some(BadSecKey);
      } else {
        nonce' := v;
      }
    }
  }

  lemma BitsApart(seen: bv8, k: Kind, l: Kind)
    requires k != Other
    ensures (seen | Bit(l)) & Bit(k) != 0 <==> (seen & Bit(k) != 0 || k == l)
    ensures seen & 0xe0 == 0 ==> (seen | Bit(l)) & 0xe0 == 0
  {}

  lemma SeenSnoc(headers: seq<bytes>, line: bytes, kind: Kind)
    ensures Seen(headers + [line], kind) <==> Seen(headers, kind) || HasKind(line, kind)
  {
    if Seen(headers, kind) {
      var h :| h in headers && HasKind(h, kind);
      assert h in headers + [line];
    }
    if HasKind(line, kind) {
      assert line in headers + [line];
    }
  }

  lemma RecordsNext(seen: bv8, headers: seq<bytes>, line: bytes)
    requires Records(seen, headers) && HeaderLine(line).Some?
    ensures Records(seen | Bit(KindOf(HeaderLine(line).value.0)), headers + [line])
  {
    var l := KindOf(HeaderLine(line).value.0);
    BitsApart(seen, Host, l);
    forall kind | kind != Other
      ensures (seen | Bit(l)) & Bit(kind) != 0 <==> Seen(headers + [line], kind)
    {
      BitsApart(seen, kind, l);
      SeenSnoc(headers, line, kind);
    }
  }

  lemma AllBits(seen: bv8)
    requires seen & 0xe0 == 0
    ensures seen == SEEN_ALL <==> seen & 1 != 0 && seen & 2 != 0 && seen & 4 != 0 && seen & 8 != 0 && seen & 16 != 0
  {}

  lemma MissingBit(seen: bv8, headers: seq<bytes>)
    requires Records(seen, headers)
    ensures seen == SEEN_ALL <==> Missing(headers).None?
    ensures && (seen & 1 != 0 <==> Seen(headers, Host)) && (seen & 2 != 0 <==> Seen(headers, UpgradeHeader))
            && (seen & 4 != 0 <==> Seen(headers, Connection)) && (seen & 8 != 0 <==> Seen(headers, SecVersion))
            && (seen & 16 != 0 <==> Seen(headers, SecKey))
  {
    AllBits(seen);
    assert Bit(Host) == 1 && Bit(UpgradeHeader) == 2 && Bit(Connection) == 4 && Bit(SecVersion) == 8 && Bit(SecKey) == 16;
  }

  method FindMissing(seen: bv8, ghost headers: seq<bytes>) returns (err: Option<Failure>)
    requires Records(seen, headers)
    ensures err == Missing(headers)
  {
    MissingBit(seen, headers);
    if seen != SEEN_ALL {
      if seen & 1 == 0 {
        err := Some(BadHost);
      } else if seen & 2 == 0 {
        err := Some(BadUpgrade);
      } else if seen & 4 == 0 {
        err := Some(BadConnection);
      } else if seen & 8 == 0 {
        err := Some(BadSecVersion);
      } else {
        err := Some(BadSecKey);
      }
    } else {
      err := None;
    }
  }

  /** Half way through the loop: the headers are the lines done, all of them good, and those to come. */
  ghost predicate Midway(lines: seq<bytes>, i: nat, seen: bv8, nonce: bytes)
    requires 1 <= i <= |lines|
  {
    var done, headers := lines[1..i], UntilBlank(lines[1..]);
    && headers == done + UntilBlank(lines[i..]) && FirstFailure(headers) == FirstFailure(UntilBlank(lines[i..]))
    && Records(seen, done) && nonce == Nonce(done)
  }

  lemma MidwayStart(lines: seq<bytes>)
    requires |lines| >= 1
    ensures Midway(lines, 1, 0, seq(NONCE_SIZE, _ => 0))
  {
    var headers := UntilBlank(lines[1..]);
    assert lines[1..1] == [] && [] + headers == headers;
    forall kind | kind != Other
      ensures (0 as bv8) & Bit(kind) == 0
    {}
  }

  lemma NonceSnoc(headers: seq<bytes>, line: bytes)
    ensures Nonce(headers + [line]) == if HasKind(line, SecKey) then HeaderLine(line).value.1 else Nonce(headers)
  {
    assert (headers + [line])[..|headers|] == headers;
  }

  lemma UntilBlankNext(lines: seq<bytes>, i: nat, done: seq<bytes>)
    requires i < |lines| && lines[i] != []
    ensures var todo := UntilBlank(lines[i + 1..]);
            && done + UntilBlank(lines[i..]) == (done + [lines[i]]) + todo
            && (LineFailure(lines[i]).None? ==> FirstFailure(UntilBlank(lines[i..])) == FirstFailure(todo))
  {
    var todo := UntilBlank(lines[i + 1..]);
    assert lines[i..][1..] == lines[i + 1..];
    assert ([lines[i]] + todo)[1..] == todo;
    assert done + ([lines[i]] + todo) == (done + [lines[i]]) + todo;
  }

  lemma MidwayNext(lines: seq<bytes>, i: nat, seen: bv8, nonce: bytes)
    requires 1 <= i < |lines| && lines[i] != [] && Midway(lines, i, seen, nonce) && LineFailure(lines[i]).None?
    ensures var (k, v) := HeaderLine(lines[i]).value;
            Midway(lines, i + 1, seen | Bit(KindOf(k)), if KindOf(k) == SecKey then v else nonce)
  {
    var done := lines[1..i];
    assert lines[1..i + 1] == done + [lines[i]];
    UntilBlankNext(lines, i, done);
    RecordsNext(seen, done, lines[i]);
    NonceSnoc(done, lines[i]);
  }

  lemma MidwayFails(lines: seq<bytes>, i: nat, seen: bv8, nonce: bytes)
    requires 1 <= i < |lines| && lines[i] != [] && Midway(lines, i, seen, nonce) && LineFailure(lines[i]).Some?
    ensures FirstFailure(UntilBlank(lines[1..])) == LineFailure(lines[i])
  {
    assert UntilBlank(lines[i..])[0] == lines[i];
  }

  lemma MidwayEnds(lines: seq<bytes>, i: nat, seen: bv8, nonce: bytes)
    requires 1 <= i <= |lines| && (i < |lines| ==> lines[i] == []) && Midway(lines, i, seen, nonce)
    ensures var headers := UntilBlank(lines[1..]);
            FirstFailure(headers).None? && Records(seen, headers) && nonce == Nonce(headers)
  {
    assert UntilBlank(lines[i..]) == [];
    assert lines[1..i] + [] == lines[1..i];
  }

  /** The loop over the lines, which stops at the first error or blank line. */
  method ScanHeaders(lines: seq<bytes>) returns (seen: bv8, nonce: bytes, err: Option<Failure>)
    requires |lines| >= 1
    ensures var headers := UntilBlank(lines[1..]);
            err == FirstFailure(headers) && (err.None? ==> Records(seen, headers) && nonce == Nonce(headers))
  {
    seen, nonce, err := 0, seq(NONCE_SIZE, _ => 0), None;
    MidwayStart(lines);
    var i := 1;
    while i < |lines|
      invariant 1 <= i <= |lines| && err.None? && Midway(lines, i, seen, nonce)
    {
      if lines[i] == [] {
        break;
      }
      var h := HttpParseHeaderLine(lines[i]);
      if h.None? {
        MidwayFails(lines, i, seen, nonce);
        return seen, nonce, Some(Malformed);
      }
      var seen', nonce', err' := CheckHeader(h.value.0, h.value.1, seen, nonce);
      if err'.Some? {
        MidwayFails(lines, i, seen, nonce);
        return seen', nonce', err';
      }
      MidwayNext(lines, i, seen, nonce);
      seen, nonce := seen', nonce';
      i := i + 1;
    }
    MidwayEnds(lines, i, seen, nonce);
  }

  method CheckRequestLine(line: bytes) returns (err: Option<Failure>)
    ensures err == RequestFailure(line)
  {
    var (name, uri, proto) := Split3(line, SP);
    var v := HttpParseVersion(proto);
    if v.None? {
      return Some(Malformed);
    }
    var (major, minor) := v.value;
    if major != 1 || minor < 1 {
      return Some(BadProtocol);
    } else if name != GET {
      return Some(BadMethod);
    }
    err := None;
  }

  /** Everything `Upgrade` does with the head once it has been read off the buffer. */
  method Examine(data: bytes) returns (reply: Option<Verdict>, err: Option<Failure>)
    ensures var lines := Lines(data);
            && (RequestFailure(lines[0]).Some? ==> reply.None? && err == RequestFailure(lines[0]))
            && (RequestFailure(lines[0]).None? ==> reply == Some(Judge(UntilBlank(lines[1..]))))
            && (reply.Some? ==> err == if reply.value.Refused? then Some(reply.value.failure) else None)
  {
    var lines := Lines(data);
    err := CheckRequestLine(lines[0]);
    if err.Some? {
      return None, err;
    }
    var seen, nonce;
    seen, nonce, err := ScanHeaders(lines);
    if err.None? {
      err := FindMissing(seen, UntilBlank(lines[1..]));
    }
    reply := Some(if err.Some? then Refused(err.value) else Accepted(nonce));
  }

  /** `Upgrade` on a ring buffer, wherever its contents wrap. */
  method Upgrade(buffer: RingBuffer) returns (reply: Option<Verdict>, err: Option<Failure>)
    requires buffer.Valid() && buffer.virtual == 0
    modifies buffer
    ensures buffer.Valid() && buffer.virtual == 0 && (old(buffer.cut) == |old(buffer.data)| ==> buffer.cut == |buffer.data|)
    ensures UpgradingAt(old(buffer.data), old(buffer.cut)).used == 0 ==> buffer.taken == old(buffer.taken)
    ensures var u := UpgradingAt(old(buffer.data), old(buffer.cut));
            && u.used <= |old(buffer.data)| && buffer.data == old(buffer.data)[u.used..]
            && (u.Silent? ==> reply.None? && err == Some(u.failure))
            && (u.Replied? ==> reply == Some(u.verdict) && (err.None? <==> u.verdict.Accepted?))
  {
    ghost var b, cut := buffer.data, buffer.cut;
    var first, end := buffer.PeekAll();
    var data: bytes := [];
    var index := Find(first, END);
    if index.Some? {
      data := buffer.Read(index.value + 4);
    } else if |end| > 0 {
      var index := Find(end, END);
      if index.Some? {
        data := buffer.Read(index.value + 4);
      }
    }
    assert data == b[..Taking(b, cut)] && buffer.data == b[Taking(b, cut)..];
    reply, err := Examine(data);
  }

  lemma FindPrefix(a: bytes, b: bytes, pat: bytes)
    requires Find(a, pat).Some?
    ensures Find(a + b, pat) == Find(a, pat)
  {
    var i := Find(a, pat).value;
    assert (a + b)[i..i + |pat|] == a[i..i + |pat|];
    assert At(a + b, pat, i);
    forall j | 0 <= j < i
      ensures !At(a + b, pat, j)
    {
      assert !At(a, pat, j);
      assert (a + b)[j..j + |pat|] == a[j..j + |pat|];
    }
  }

  lemma FindSuffix(a: bytes, b: bytes, pat: bytes)
    ensures Find(b, pat).Some? ==> Find(a + b, pat).Some?
  {
    if Find(b, pat).Some? {
      var i := Find(b, pat).value;
      assert (a + b)[|a| + i..|a| + i + |pat|] == b[i..i + |pat|];
      assert At(a + b, pat, |a| + i);
    }
  }

  /** Contents that do not wrap, or in which no end of a head is in sight, do no harm. */
  lemma Unwrapped(b: bytes, cut: nat)
    requires cut <= |b| && (cut == |b| || Find(b, END).None?)
    ensures Harmless(b, cut)
  {
    assert b == b[..cut] + b[cut..];
    FindSuffix(b[..cut], b[cut..], END);
    if cut == |b| {
      assert b[..cut] == b && b[cut..] == [];
    }
  }

  /** Where the contents wrap makes no difference if and only if the wrap is harmless. */
  lemma WrapExactly(b: bytes, cut: nat)
    requires cut <= |b|
    ensures UpgradingAt(b, cut) == Upgrading(b) <==> Harmless(b, cut)
  {
    assert b == b[..cut] + b[cut..];
    NothingToRead();
    if Find(b[..cut], END).Some? {
      FindPrefix(b[..cut], b[cut..], END);
    } else {
      FindSuffix(b[..cut], b[cut..], END);
      assert b[..0] == [];
    }
  }

  /** If the end of the head is in the second segment, exactly the length of the first is missing at the end of what is
      taken, so that the head is cut short. */
  lemma WrapCutsShort(b: bytes, cut: nat, p: nat)
    requires 0 < cut <= p && Find(b, END) == Some(p)
    ensures cut <= |b| && UpgradingAt(b, cut).used == Upgrading(b).used - cut
  {
    var a, c := b[..cut], b[cut..];
    assert b == a + c;
    if Find(a, END).Some? {
      FindPrefix(a, c, END);
    }
    AtShift(a, c, END, p - cut);
    forall j | 0 <= j < p - cut
      ensures !At(c, END, j)
    {
      AtShift(a, c, END, j);
    }
  }

  /** If the wrap is inside the end of the head and the second segment has no other, the request is taken for an empty one,
      and nothing of it is taken off. */
  lemma WrapHidesEnd(b: bytes, cut: nat, p: nat)
    requires p < cut < p + 4 && Find(b, END) == Some(p) && Find(b[cut..], END).None?
    ensures UpgradingAt(b, cut) == Silent(Malformed, 0)
  {
    if Find(b[..cut], END).Some? {
      assert b == b[..cut] + b[cut..];
      FindPrefix(b[..cut], b[cut..], END);
      assert false;
    }
    NothingToRead();
    assert b[..0] == [];
  }

  lemma NothingToRead()
    ensures Lines([]) == [[]] && RequestFailure([]) == Some(Malformed)
  {
    assert Split3([], SP) == ([], [], []);
  }

  // ---- What the head looks like ----

  /** A request head: the request line, the header lines and a blank line. */
  function Head(request: bytes, headers: seq<bytes>): bytes
  {
    Joined([request] + headers) + CRLF
  }

  predicate HeaderText(line: bytes) { NoCrlf(line) && line != [] }

  /** Header lines are not blank, and no line contains a CRLF. */
  predicate WellFormed(request: bytes, headers: seq<bytes>)
  {
    NoCrlf(request) && forall h <- headers :: HeaderText(h)
  }

  lemma StartsWithCrlf(line: bytes, rest: bytes)
    requires NoCrlf(line) && line != []
    ensures !At(line + CRLF + rest, CRLF, 0)
  {
    FirstCrlf(line, rest);
  }

  lemma AtShift(a: bytes, b: bytes, pat: bytes, j: nat)
    ensures At(a + b, pat, |a| + j) <==> At(b, pat, j)
  {
    if j + |pat| <= |b| {
      assert (a + b)[|a| + j..|a| + j + |pat|] == b[j..j + |pat|];
    }
  }

  lemma EndIsTwoCrlf(b: bytes, j: nat)
    ensures At(b, END, j) <==> At(b, CRLF, j) && At(b, CRLF, j + 2)
  {
    if j + 4 <= |b| {
      assert b[j..j + 4] == b[j..j + 2] + b[j + 2..j + 4];
      assert END == CRLF + CRLF;
      assert b[j..j + 4][..2] == b[j..j + 2] && END[..2] == CRLF && END[2..] == CRLF && b[j..j + 4][2..] == b[j + 2..j + 4];
    }
  }

  lemma NotAt(b: bytes, pat: bytes, j: nat)
    requires pat != [] && j < |b| && b[j] != pat[0]
    ensures !At(b, pat, j)
  {
    if j + |pat| <= |b| {
      assert b[j..j + |pat|][0] == b[j];
    }
  }

  /** A line followed by text that does not start with CRLF: END can only occur within the text. */
  lemma NoEndBefore(line: bytes, rest: bytes, j: nat)
    requires NoCrlf(line) && !At(rest, CRLF, 0) && (j >= |line| + 2 ==> !At(rest, END, j - |line| - 2))
    ensures !At(line + CRLF + rest, END, j)
  {
    var t := line + CRLF + rest;
    FirstCrlf(line, rest);
    EndIsTwoCrlf(t, j);
    if j == |line| {
      AtShift(line + CRLF, rest, CRLF, 0);
    } else if j == |line| + 1 {
      NotAt(t, END, j);
    } else if j > |line| + 1 {
      AtShift(line + CRLF, rest, END, j - |line| - 2);
    }
  }

  lemma EndAfterLine(line: bytes, rest: bytes, k: nat)
    requires NoCrlf(line) && !At(rest, CRLF, 0) && Find(rest, END) == Some(k)
    ensures Find(line + CRLF + rest, END) == Some(|line| + 2 + k)
  {
    var t := line + CRLF + rest;
    AtShift(line + CRLF, rest, END, k);
    assert At(t, END, |line| + 2 + k);
    forall j | 0 <= j < |line| + 2 + k
      ensures !At(t, END, j)
    {
      NoEndBefore(line, rest, j);
    }
  }

  lemma EndAtOnce(line: bytes, rest: bytes)
    requires NoCrlf(line)
    ensures Find(line + CRLF + (CRLF + rest), END) == Some(|line|)
  {
    var t := line + CRLF + (CRLF + rest);
    FirstCrlf(line, CRLF + rest);
    assert t[|line|..|line| + 4] == END;
    assert At(t, END, |line|);
    forall j | 0 <= j < |line|
      ensures !At(t, END, j)
    {
      EndIsTwoCrlf(t, j);
    }
  }

  lemma Assoc(a: bytes, b: bytes, c: bytes, d: bytes, e: bytes)
    ensures ((a + b + c) + d) + e == a + b + (c + d + e)
  {}

  /** The request line, its CRLF, and the rest of the head. */
  lemma HeadOpens(request: bytes, headers: seq<bytes>, rest: bytes)
    ensures Head(request, headers) + rest == request + CRLF + (Joined(headers) + CRLF + rest)
  {
    assert ([request] + headers)[1..] == headers;
    Assoc(request, CRLF, Joined(headers), CRLF, rest);
  }

  lemma RestOfHead(headers: seq<bytes>)
    requires headers != []
    ensures Joined(headers) + CRLF == Head(headers[0], headers[1..])
  {
    assert [headers[0]] + headers[1..] == headers;
  }

  /** The head is found whole, whatever follows it. */
  lemma {:induction false} HeadFound(request: bytes, headers: seq<bytes>, rest: bytes)
    requires WellFormed(request, headers)
    ensures |Head(request, headers)| >= 4 && Find(Head(request, headers) + rest, END) == Some(|Head(request, headers)| - 4)
    decreases |headers|
  {
    HeadOpens(request, headers, rest);
    if headers == [] {
      assert [] + CRLF + rest == CRLF + rest;
      EndAtOnce(request, rest);
    } else {
      assert HeaderText(headers[0]);
      RestOfHead(headers);
      HeadFound(headers[0], headers[1..], rest);
      HeadOpens(headers[0], headers[1..], rest);
      StartsWithCrlf(headers[0], Joined(headers[1..]) + CRLF + rest);
      EndAfterLine(request, Head(headers[0], headers[1..]) + rest, |Head(headers[0], headers[1..])| - 4);
    }
  }

  lemma HeadLines(request: bytes, headers: seq<bytes>)
    requires WellFormed(request, headers)
    ensures Lines(Head(request, headers)) == [request] + headers + [[]] + [[]]
  {
    var ls := [request] + headers + [[]];
    JoinedSnoc([request] + headers, []);
    assert [] + CRLF == CRLF;
    assert NoCrlf([]);
    LinesOfJoined(ls);
  }

  lemma {:induction false} JoinedSnoc(lines: seq<bytes>, l: bytes)
    ensures Joined(lines + [l]) == Joined(lines) + (l + CRLF)
  {
    if lines == [] {
      assert lines + [l] == [l] && Joined([l]) == l + CRLF + [];
    } else {
      assert (lines + [l])[1..] == lines[1..] + [l];
      JoinedSnoc(lines[1..], l);
    }
  }

  lemma {:induction false} UntilBlankStops(headers: seq<bytes>, more: seq<bytes>)
    requires forall h <- headers :: HeaderText(h)
    ensures UntilBlank(headers + [[]] + more) == headers
  {
    if headers == [] {
      assert (headers + [[]] + more)[0] == [];
    } else {
      assert HeaderText(headers[0]);
      assert (headers + [[]] + more)[1..] == headers[1..] + [[]] + more;
      UntilBlankStops(headers[1..], more);
    }
  }

  /** The scan of a head sees its request line and exactly its header lines. */
  lemma HeadScanned(request: bytes, headers: seq<bytes>)
    requires WellFormed(request, headers)
    ensures var lines := Lines(Head(request, headers)); lines[0] == request && UntilBlank(lines[1..]) == headers
  {
    HeadLines(request, headers);
    UntilBlankStops(headers, [[]]);
    assert ([request] + headers + [[]] + [[]])[1..] == headers + [[]] + [[]];
  }

  /** What `Upgrade` does with a request head and anything behind it. */
  lemma UpgradingHead(request: bytes, headers: seq<bytes>, rest: bytes)
    requires WellFormed(request, headers)
    ensures var n := |Head(request, headers)|;
            Upgrading(Head(request, headers) + rest)
            == if RequestFailure(request).Some? then Silent(RequestFailure(request).value, n) else Replied(Judge(headers), n)
  {
    var h := Head(request, headers);
    HeadFound(request, headers, rest);
    assert (h + rest)[..|h|] == h;
    HeadScanned(request, headers);
  }

  // ---- Every head is of that form ----

  lemma LineBefore(t: bytes, i: nat)
    requires Find(t, CRLF) == Some(i)
    ensures i + 2 <= |t| && NoCrlf(t[..i]) && t == t[..i] + CRLF + t[i + 2..]
  {
    assert t[i..i + 2] == CRLF;
    forall j: nat
      ensures !At(t[..i], CRLF, j)
    {
      if j + 2 <= i {
        assert t[..i][j..j + 2] == t[j..j + 2] && !At(t, CRLF, j);
      }
    }
  }

  lemma OneBlankLine()
    ensures Lines(CRLF) == [[], []]
  {
    assert CRLF == [] + CRLF + [];
    assert NoCrlf([]);
    FirstCrlf([], []);
  }

  lemma NextLineFits(t: bytes, i: nat)
    requires |t| >= 4 && At(t, END, |t| - 4) && Find(t, CRLF) == Some(i) && i != |t| - 4
    ensures i + 6 <= |t|
  {
    var n := |t| - 4;
    EndIsTwoCrlf(t, n);
    assert t[n..n + 2][0] == CR && t[i..i + 2][1] == LF;
    assert t[n] == CR && t[i + 1] == LF;
  }

  /** Text in which END occurs only at the end still has that property after its first line, if there is another. */
  lemma ShorterText(t: bytes, i: nat)
    requires |t| >= 4 && Find(t, END) == Some(|t| - 4) && Find(t, CRLF) == Some(i) && i != |t| - 4
    ensures i + 6 <= |t| && Find(t[i + 2..], END) == Some(|t| - i - 6) && !At(t[i + 2..], CRLF, 0)
  {
    var n, more := |t| - 4, t[i + 2..];
    NextLineFits(t, i);
    assert t == t[..i + 2] + more;
    AtShift(t[..i + 2], more, END, n - i - 2);
    EndIsTwoCrlf(t, i);
    AtShift(t[..i + 2], more, CRLF, 0);
    forall j | 0 <= j < n - i - 2
      ensures !At(more, END, j)
    {
      AtShift(t[..i + 2], more, END, j);
    }
  }

  /** Text that ends with the first END in it is a head. */
  lemma {:induction false} EndedText(t: bytes)
    requires |t| >= 4 && Find(t, END) == Some(|t| - 4)
    ensures var lines := Lines(t);
            && |lines| >= 3 && WellFormed(lines[0], lines[1..|lines| - 2]) && t == Head(lines[0], lines[1..|lines| - 2])
    decreases |t|
  {
    EndIsTwoCrlf(t, |t| - 4);
    var i := Find(t, CRLF).value;
    LineBefore(t, i);
    var line, more := t[..i], t[i + 2..];
    if i == |t| - 4 {
      assert more == CRLF;
      OneBlankLine();
      LastLine(line);
    } else {
      ShorterText(t, i);
      EndedText(more);
      LongerHead(line, more);
    }
  }

  lemma LastLine(line: bytes)
    ensures var lines := [line] + [[], []]; lines[1..1] == [] && line + CRLF + CRLF == Head(line, lines[1..1])
  {
    HeadOpens(line, [], []);
    assert Head(line, []) + [] == Head(line, []) && [] + CRLF + [] == CRLF;
  }

  lemma LongerHead(line: bytes, more: bytes)
    requires NoCrlf(line) && !At(more, CRLF, 0)
    requires var ls := Lines(more);
             && |ls| >= 3 && WellFormed(ls[0], ls[1..|ls| - 2]) && more == Head(ls[0], ls[1..|ls| - 2])
    ensures var ls := [line] + Lines(more);
            WellFormed(ls[0], ls[1..|ls| - 2]) && line + CRLF + more == Head(ls[0], ls[1..|ls| - 2])
  {
    var ls := Lines(more);
    var headers := ls[..|ls| - 2];
    assert HeaderText(ls[0]);
    assert headers == [ls[0]] + ls[1..|ls| - 2] && headers[1..] == ls[1..|ls| - 2];
    assert ([line] + ls)[1..|ls| - 1] == headers;
    RestOfHead(headers);
    HeadOpens(line, headers, []);
    assert Head(line, headers) + [] == Head(line, headers) && Joined(headers) + CRLF + [] == Joined(headers) + CRLF;
  }

  lemma CutAtEnd(b: bytes, i: nat)
    requires Find(b, END) == Some(i)
    ensures i + 4 <= |b| && Find(b[..i + 4], END) == Some(i)
  {
    var t := b[..i + 4];
    assert t[i..i + 4] == b[i..i + 4];
    assert At(t, END, i);
    forall j | 0 <= j < i
      ensures !At(t, END, j)
    {
      assert !At(b, END, j) && t[j..j + 4] == b[j..j + 4];
    }
  }

  /** Once the end of the head is there, the bytes up to it are a head. */
  lemma HeadExists(b: bytes, i: nat) returns (request: bytes, headers: seq<bytes>)
    requires Find(b, END) == Some(i)
    ensures i + 4 <= |b| && WellFormed(request, headers) && b == Head(request, headers) + b[i + 4..]
  {
    CutAtEnd(b, i);
    var t := b[..i + 4];
    EndedText(t);
    var lines := Lines(t);
    request, headers := lines[0], lines[1..|lines| - 2];
    assert b == t + b[i + 4..];
  }

  // ---- Acceptance ----

  /** The rule for a whole request, without the order in which things are checked. */
  ghost predicate GoodRequest(request: bytes, headers: seq<bytes>)
  {
    && RequestFailure(request).None?
    && (forall h <- headers :: LineFailure(h).None?)
    && (forall kind :: kind != Other ==> Seen(headers, kind))
  }

  /** A version is its prefix and two numbers around a dot. */
  lemma VersionExact(major: bytes, minor: bytes)
    requires DOT !in major
    ensures Version(PREFIX + major + [DOT] + minor)
            == if AsciiValue(major).None? || AsciiValue(minor).None? then None
               else Some((AsciiValue(major).value, AsciiValue(minor).value))
  {
    var proto, numbers := PREFIX + major + [DOT] + minor, major + [DOT] + minor;
    assert |proto| >= 5 && proto[..5] == PREFIX && proto[5..] == numbers;
    FirstSeparator(major, DOT, minor);
  }

  /** A request line of three words is good exactly when the first is GET and the third names version 1.x, x at least 1,
      both numbers read in 64 bits. */
  lemma GoodRequestLine(name: bytes, uri: bytes, major: bytes, minor: bytes)
    requires SP !in name && SP !in uri && DOT !in major
    ensures RequestFailure(name + [SP] + (uri + [SP] + (PREFIX + major + [DOT] + minor))).None?
            <==> name == GET && AsciiValue(major) == Some(1) && AsciiValue(minor).Some? && AsciiValue(minor).value >= 1
  {
    VersionExact(major, minor);
    Split3Exact(name, uri, PREFIX + major + [DOT] + minor, SP);
  }

  /** A header line gives its name and its value without the blanks around them. */
  lemma HeaderLineExact(l: bytes, name: bytes, r: bytes, l': bytes, value: bytes, r': bytes)
    requires Blanks(l) && Blanks(r) && Blanks(l') && Blanks(r') && Tight(name) && Tight(value) && COLON !in name
    ensures HeaderLine((l + name + r) + [COLON] + (l' + value + r')) == Some((Canonical(name), value))
  {
    FirstSeparator(l + name + r, COLON, l' + value + r');
    TrimExact(l, name, r);
    TrimExact(l', value, r');
  }

  lemma NamesAreCanonical()
    ensures Canonical(HOST) == HOST && Canonical(UPGRADE) == UPGRADE && Canonical(CONNECTION) == CONNECTION
    ensures Canonical(SEC_VERSION) == SEC_VERSION && Canonical(SEC_KEY) == SEC_KEY
  {}

  /** A required header is recognised by its name in any mixture of upper and lower case. */
  lemma KindByFold(name: bytes)
    ensures KindOf(Canonical(name)) == Host <==> Fold(name) == Fold(HOST)
    ensures KindOf(Canonical(name)) == UpgradeHeader <==> Fold(name) == Fold(UPGRADE)
    ensures KindOf(Canonical(name)) == Connection <==> Fold(name) == Fold(CONNECTION)
    ensures KindOf(Canonical(name)) == SecVersion <==> Fold(name) == Fold(SEC_VERSION)
    ensures KindOf(Canonical(name)) == SecKey <==> Fold(name) == Fold(SEC_KEY)
  {
    NamesAreCanonical();
    CanonicalIsFold(name, HOST);
    CanonicalIsFold(name, UPGRADE);
    CanonicalIsFold(name, CONNECTION);
    CanonicalIsFold(name, SEC_VERSION);
    CanonicalIsFold(name, SEC_KEY);
    assert |HOST| == 4 && |UPGRADE| == 7 && |CONNECTION| == 10 && |SEC_VERSION| == 21 && |SEC_KEY| == 17;
  }

  lemma {:induction false} NoFailure(headers: seq<bytes>)
    ensures FirstFailure(headers).None? <==> forall h <- headers :: LineFailure(h).None?
  {
    if headers != [] {
      NoFailure(headers[1..]);
      assert headers == [headers[0]] + headers[1..];
      assert headers[0] in headers;
    }
  }

  lemma NothingMissing(headers: seq<bytes>)
    ensures Missing(headers).None? <==> forall kind :: kind != Other ==> Seen(headers, kind)
  {
    if Missing(headers).None? {
      forall kind | kind != Other
        ensures Seen(headers, kind)
      {}
    }
  }

  /** A request is accepted if and only if its request line is a GET with version 1.x, x at least 1, every header line
      parses, every occurrence of a checked header is valid and all five required headers occur. In any case exactly the
      head is consumed. */
  lemma Acceptance(request: bytes, headers: seq<bytes>, rest: bytes)
    requires WellFormed(request, headers)
    ensures Accepts(Head(request, headers) + rest) <==> GoodRequest(request, headers)
    ensures Upgrading(Head(request, headers) + rest).used == |Head(request, headers)|
  {
    UpgradingHead(request, headers, rest);
    NoFailure(headers);
    NothingMissing(headers);
  }

  /** Nothing is consumed and nothing answered before the blank line arrives, and every accepted input starts with a head
      that is a good request. */
  lemma OnlyHeads(b: bytes)
    ensures Find(b, END).None? ==> Upgrading(b) == Silent(Malformed, 0)
    ensures Accepts(b) ==> exists request, headers, rest ::
              b == Head(request, headers) + rest && WellFormed(request, headers) && GoodRequest(request, headers)
  {
    if Accepts(b) {
      var i := Find(b, END).value;
      var request, headers := HeadExists(b, i);
      Acceptance(request, headers, b[i + 4..]);
    }
  }

  /** The order of the header lines does not matter. */
  lemma Reordered(request: bytes, headers: seq<bytes>, headers': seq<bytes>, rest: bytes)
    requires WellFormed(request, headers) && multiset(headers) == multiset(headers')
    ensures WellFormed(request, headers')
    ensures Accepts(Head(request, headers) + rest) <==> Accepts(Head(request, headers') + rest)
  {
    SameMembers(headers, headers');
    Acceptance(request, headers, rest);
    Acceptance(request, headers', rest);
    forall kind | kind != Other
      ensures Seen(headers, kind) <==> Seen(headers', kind)
    {}
  }

  lemma SameMembers(a: seq<bytes>, b: seq<bytes>)
    requires multiset(a) == multiset(b)
    ensures forall h :: h in a <==> h in b
  {
    forall h
      ensures h in a <==> h in b
    {
      assert h in a <==> h in multiset(a);
      assert h in b <==> h in multiset(b);
    }
  }

  /** The same line but for the case of ASCII letters in its name. */
  ghost predicate Recased(line: bytes, line': bytes)
  {
    exists name, name', value ::
      && COLON !in name && COLON !in name' && Fold(name) == Fold(name')
      && line == name + [COLON] + value && line' == name' + [COLON] + value
  }

  lemma FoldBlank(c: byte, d: byte)
    requires Lower(c) == Lower(d)
    ensures Blank(c) <==> Blank(d)
  {}

  lemma {:induction false} FoldTrimLeft(a: bytes, b: bytes)
    requires Fold(a) == Fold(b)
    ensures Fold(TrimLeft(a)) == Fold(TrimLeft(b))
  {
    assert |a| == |b|;
    if a != [] {
      assert Fold(a)[0] == Fold(b)[0];
      FoldBlank(a[0], b[0]);
      if Blank(a[0]) {
        assert Fold(a[1..]) == Fold(a)[1..] && Fold(b[1..]) == Fold(b)[1..];
        FoldTrimLeft(a[1..], b[1..]);
      }
    }
  }

  lemma {:induction false} FoldTrimRight(a: bytes, b: bytes)
    requires Fold(a) == Fold(b)
    ensures Fold(TrimRight(a)) == Fold(TrimRight(b))
  {
    var n := |a| - 1;
    assert |a| == |b|;
    if a != [] {
      assert Fold(a)[n] == Fold(b)[n];
      FoldBlank(a[n], b[n]);
      if Blank(a[n]) {
        assert Fold(a[..n]) == Fold(a)[..n] && Fold(b[..n]) == Fold(b)[..n];
        FoldTrimRight(a[..n], b[..n]);
      }
    }
  }

  /** Changing the case of a name changes nothing in what the line parses to. */
  lemma RecasedLine(line: bytes, line': bytes)
    requires Recased(line, line')
    ensures HeaderLine(line) == HeaderLine(line')
  {
    var name, name', value :| COLON !in name && COLON !in name' && Fold(name) == Fold(name')
      && line == name + [COLON] + value && line' == name' + [COLON] + value;
    FirstSeparator(name, COLON, value);
    FirstSeparator(name', COLON, value);
    FoldTrimLeft(name, name');
    FoldTrimRight(TrimLeft(name), TrimLeft(name'));
    CanonicalIsFold(Trim(name), Trim(name'));
  }

  /** The two lists of lines parse to the same headers. */
  ghost predicate SameHeaders(headers: seq<bytes>, headers': seq<bytes>)
  {
    |headers| == |headers'| && forall i | 0 <= i < |headers| :: HeaderLine(headers[i]) == HeaderLine(headers'[i])
  }

  lemma {:induction false} RecasedFailure(headers: seq<bytes>, headers': seq<bytes>)
    requires SameHeaders(headers, headers')
    ensures FirstFailure(headers) == FirstFailure(headers')
  {
    if headers != [] {
      RecasedFailure(headers[1..], headers'[1..]);
    }
  }

  lemma {:induction false} RecasedNonce(headers: seq<bytes>, headers': seq<bytes>)
    requires SameHeaders(headers, headers')
    ensures Nonce(headers) == Nonce(headers')
  {
    if headers != [] {
      RecasedNonce(headers[..|headers| - 1], headers'[..|headers| - 1]);
    }
  }

  lemma RecasedSeen(headers: seq<bytes>, headers': seq<bytes>, kind: Kind)
    requires SameHeaders(headers, headers')
    ensures Seen(headers, kind) ==> Seen(headers', kind)
  {
    if Seen(headers, kind) {
      var h :| h in headers && HasKind(h, kind);
      var i :| 0 <= i < |headers| && headers[i] == h;
      assert headers'[i] in headers' && HasKind(headers'[i], kind);
    }
  }

  lemma MissingAlike(headers: seq<bytes>, headers': seq<bytes>)
    requires SameHeaders(headers, headers')
    ensures Missing(headers) == Missing(headers')
  {
    assert forall kind :: Seen(headers, kind) <==> Seen(headers', kind) by {
      forall kind
        ensures Seen(headers, kind) <==> Seen(headers', kind)
      {
        RecasedSeen(headers, headers', kind);
        RecasedSeen(headers', headers, kind);
      }
    }
  }

  lemma JudgedAlike(headers: seq<bytes>, headers': seq<bytes>)
    requires SameHeaders(headers, headers')
    ensures Judge(headers) == Judge(headers')
  {
    RecasedFailure(headers, headers');
    RecasedNonce(headers, headers');
    MissingAlike(headers, headers');
  }

  ghost predicate AllRecased(headers: seq<bytes>, headers': seq<bytes>)
  {
    |headers| == |headers'| && forall i | 0 <= i < |headers| :: Recased(headers[i], headers'[i])
  }

  lemma RecasedHeaders(headers: seq<bytes>, headers': seq<bytes>)
    requires AllRecased(headers, headers')
    ensures SameHeaders(headers, headers')
  {
    forall i | 0 <= i < |headers|
      ensures HeaderLine(headers[i]) == HeaderLine(headers'[i])
    {
      RecasedLine(headers[i], headers'[i]);
    }
  }

  /** Neither does the case of ASCII letters in header names: the whole outcome is the same, down to the key. */
  lemma CaseOfNames(request: bytes, headers: seq<bytes>, headers': seq<bytes>, rest: bytes)
    requires WellFormed(request, headers) && WellFormed(request, headers') && AllRecased(headers, headers')
    ensures Upgrading(Head(request, headers) + rest)
            == Upgrading(Head(request, headers') + rest).(used := |Head(request, headers)|)
  {
    RecasedHeaders(headers, headers');
    JudgedAlike(headers, headers');
    UpgradingHead(request, headers, rest);
    UpgradingHead(request, headers', rest);
  }

  // ---- Good requests exist ----

  function HeaderOf(name: bytes, value: bytes): bytes { name + [COLON] + value }

  lemma NoCr(line: bytes)
    requires CR !in line
    ensures NoCrlf(line)
  {
    forall j: nat
      ensures !At(line, CRLF, j)
    {
      if j < |line| {
        NotAt(line, CRLF, j);
      }
    }
  }

  lemma TrimTight(b: bytes)
    requires Tight(b)
    ensures Trim(b) == b
  {
    assert [] + b + [] == b;
    TrimExact([], b, []);
  }

  /** A good line of the given kind. */
  predicate GoodLine(line: bytes, kind: Kind)
  {
    HeaderText(line) && LineFailure(line).None? && HasKind(line, kind)
  }

  /** Name and value that need no trimming. */
  predicate Simple(b: bytes) { Tight(b) && CR !in b }

  lemma PlainHeader(name: bytes, value: bytes)
    requires Tight(name) && Tight(value) && COLON !in name && Canonical(name) == name
    ensures HeaderLine(HeaderOf(name, value)) == Some((name, value))
  {
    FirstSeparator(name, COLON, value);
    TrimTight(name);
    TrimTight(value);
  }

  /** A canonical name of the given kind. */
  predicate NameOk(name: bytes, kind: Kind)
  {
    Simple(name) && COLON !in name && Canonical(name) == name && KindOf(name) == kind
  }

  predicate ValueOk(value: bytes, kind: Kind) { Simple(value) && ValueFailure(kind, value).None? }

  lemma PlainLine(name: bytes, value: bytes, kind: Kind)
    requires NameOk(name, kind) && ValueOk(value, kind)
    ensures GoodLine(HeaderOf(name, value), kind)
  {
    PlainHeader(name, value);
    NoCr(HeaderOf(name, value));
  }

  const REQUEST: bytes := GET + [SP] + ([0x2f] + [SP] + (PREFIX + [0x31] + [DOT] + [0x31]))

  lemma RequestIsGood()
    ensures NoCrlf(REQUEST) && RequestFailure(REQUEST).None?
  {
    OneDigit(0x31);
    GoodRequestLine(GET, [0x2f], [0x31], [0x31]);
    NoCr(REQUEST);
  }

  /** Line i is a good line of kind i. */
  ghost predicate GoodLines(headers: seq<bytes>, kinds: seq<Kind>)
  {
    |headers| == |kinds| && forall i | 0 <= i < |headers| :: GoodLine(headers[i], kinds[i])
  }

  lemma SeenAt(headers: seq<bytes>, kinds: seq<Kind>, kind: Kind)
    requires GoodLines(headers, kinds) && kind in kinds
    ensures Seen(headers, kind)
  {
    var i :| 0 <= i < |kinds| && kinds[i] == kind;
    assert GoodLine(headers[i], kind) && headers[i] in headers;
  }

  lemma GoodLinesSuffice(request: bytes, headers: seq<bytes>, kinds: seq<Kind>)
    requires NoCrlf(request) && RequestFailure(request).None? && GoodLines(headers, kinds)
    requires forall kind :: kind != Other ==> kind in kinds
    ensures WellFormed(request, headers) && GoodRequest(request, headers)
  {
    forall h | h in headers
      ensures HeaderText(h) && LineFailure(h).None?
    {
      var i :| 0 <= i < |headers| && headers[i] == h;
      assert GoodLine(headers[i], kinds[i]);
    }
    forall kind | kind != Other
      ensures Seen(headers, kind)
    {
      SeenAt(headers, kinds, kind);
    }
  }

  const NAMES := [HOST, UPGRADE, CONNECTION, SEC_VERSION, SEC_KEY]
  const KINDS := [Host, UpgradeHeader, Connection, SecVersion, SecKey]

  function Values(host: bytes, key: bytes): seq<bytes> { [host, WEBSOCKET, UPGRADE, VERSION13, key] }

  function Headers(names: seq<bytes>, values: seq<bytes>): seq<bytes>
    requires |names| == |values|
  {
    seq(|names|, i requires 0 <= i < |names| => HeaderOf(names[i], values[i]))
  }

  ghost predicate NamesOk(names: seq<bytes>, kinds: seq<Kind>)
  {
    |names| == |kinds| && forall i | 0 <= i < |names| :: NameOk(names[i], kinds[i])
  }

  ghost predicate ValuesOk(values: seq<bytes>, kinds: seq<Kind>)
  {
    |values| == |kinds| && forall i | 0 <= i < |values| :: ValueOk(values[i], kinds[i])
  }

  lemma PlainLines(names: seq<bytes>, values: seq<bytes>, kinds: seq<Kind>)
    requires NamesOk(names, kinds) && ValuesOk(values, kinds)
    ensures GoodLines(Headers(names, values), kinds)
  {
    forall i | 0 <= i < |names|
      ensures GoodLine(Headers(names, values)[i], kinds[i])
    {
      assert NameOk(names[i], kinds[i]) && ValueOk(values[i], kinds[i]);
      PlainLine(names[i], values[i], kinds[i]);
    }
  }

  lemma NameKinds()
    ensures KindOf(HOST) == Host && KindOf(UPGRADE) == UpgradeHeader && KindOf(CONNECTION) == Connection
    ensures KindOf(SEC_VERSION) == SecVersion && KindOf(SEC_KEY) == SecKey
  {
    assert |HOST| == 4 && |UPGRADE| == 7 && |CONNECTION| == 10 && |SEC_VERSION| == 21 && |SEC_KEY| == 17;
  }

  lemma SecName(suffix: bytes)
    requires Simple(suffix) && suffix != [] && COLON !in suffix
    ensures Simple(SEC + suffix) && COLON !in SEC + suffix
  {}

  lemma LongNames()
    ensures Simple(SEC_VERSION) && COLON !in SEC_VERSION && Simple(SEC_KEY) && COLON !in SEC_KEY
  {
    SecName([0x56, 0x65, 0x72, 0x73, 0x69, 0x6f, 0x6e]);
    SecName([0x4b, 0x65, 0x79]);
  }

  lemma ShortNames()
    ensures forall n <- [HOST, UPGRADE, CONNECTION] :: Simple(n) && COLON !in n
  {}

  lemma FiveNames(a: bytes, b: bytes, c: bytes, d: bytes, e: bytes)
    requires NameOk(a, Host) && NameOk(b, UpgradeHeader) && NameOk(c, Connection) && NameOk(d, SecVersion) && NameOk(e, SecKey)
    ensures NamesOk([a, b, c, d, e], KINDS)
  {
    forall i | 0 <= i < 5
      ensures NameOk([a, b, c, d, e][i], KINDS[i])
    {
      if i == 0 {
      } else if i == 1 {
      } else if i == 2 {
      } else if i == 3 {
      } else {
      }
    }
  }

  lemma RequiredNames()
    ensures NamesOk(NAMES, KINDS)
  {
    NamesAreCanonical();
    NameKinds();
    ShortNames();
    LongNames();
    assert HOST in [HOST, UPGRADE, CONNECTION] && UPGRADE in [HOST, UPGRADE, CONNECTION] && CONNECTION in [HOST, UPGRADE, CONNECTION];
    FiveNames(HOST, UPGRADE, CONNECTION, SEC_VERSION, SEC_KEY);
  }

  lemma RequiredValues(host: bytes, key: bytes)
    requires Simple(host) && Simple(key) && |key| == NONCE_SIZE
    ensures ValuesOk(Values(host, key), KINDS)
  {
    assert Simple(WEBSOCKET) && Simple(UPGRADE) && Simple(VERSION13);
  }

  /** A request for "/" with the five required headers is good for every host and every key of 24 bytes that need no
      trimming. */
  lemma PlainIsGood(host: bytes, key: bytes)
    requires Simple(host) && Simple(key) && |key| == NONCE_SIZE
    ensures var headers := Headers(NAMES, Values(host, key)); WellFormed(REQUEST, headers) && GoodRequest(REQUEST, headers)
  {
    RequestIsGood();
    RequiredNames();
    RequiredValues(host, key);
    PlainLines(NAMES, Values(host, key), KINDS);
    GoodLinesSuffice(REQUEST, Headers(NAMES, Values(host, key)), KINDS);
  }

  /** Such a request is acceptable, and stays without an answer if the buffer wraps two bytes before its end. */
  lemma Unanswered(host: bytes, key: bytes)
    requires Simple(host) && Simple(key) && |key| == NONCE_SIZE
    ensures var b := Head(REQUEST, Headers(NAMES, Values(host, key)));
            Accepts(b) && |b| >= 4 && UpgradingAt(b, |b| - 2) == Silent(Malformed, 0)
  {
    var headers := Headers(NAMES, Values(host, key));
    var b := Head(REQUEST, headers);
    PlainIsGood(host, key);
    assert b + [] == b;
    Acceptance(REQUEST, headers, []);
    HeadFound(REQUEST, headers, []);
    WrapHidesEnd(b, |b| - 2, |b| - 4);
  }
}
