/** The opening handshake in the words of section 4.2.1 of RFC 6455 and of ws.go: which texts are accepted, which failure is
    reported for the others, and which key is answered. */
module HandshakeTexts {
  import opened Bytes
  import opened Decimal
  import opened HttpText
  import opened Handshake

  // ---- Header fields ----

  predicate Without(b: bytes, c: char) { forall x <- b :: x as int != c as int }

  /** The text is `core` with nothing but spaces and tabs around it. */
  ghost predicate Around(t: bytes, core: bytes)
  {
    exists l, r :: Blanks(l) && Blanks(r) && Tight(core) && t == l + core + r
  }

  /** A name, a colon and a value, with nothing but spaces and tabs around them. */
  ghost predicate Parts(line: bytes, before: bytes, after: bytes, name: bytes, v: bytes)
  {
    line == before + Ascii(":") + after && Without(before, ':') && Around(before, name) && Around(after, v)
  }

  /** The line is a header field with this name, in any mixture of cases, and this value. */
  ghost predicate Field(line: bytes, name: string, v: bytes)
  {
    exists before, after, written :: Parts(line, before, after, written, v) && SameName(written, Ascii(name))
  }

  /** What is in front of the first separator, and what behind it. */
  lemma BeforeFirst(b: bytes, sep: byte)
    requires Find(b, [sep]).Some?
    ensures var i := Find(b, [sep]).value; i < |b| && b[i] == sep && b == b[..i] + [sep] + b[i + 1..] && sep !in b[..i]
  {
    var i := Find(b, [sep]).value;
    assert b[i..i + 1] == [sep] && b[i..i + 1][0] == b[i];
    if sep in b[..i] {
      var j :| 0 <= j < i && b[j] == sep;
      assert b[j..j + 1] == [sep] && At(b, [sep], j);
    }
  }

  lemma ColonIsAscii()
    ensures Ascii(":") == [COLON]
  {
    assert Ascii(":")[0] == COLON;
  }

  lemma PartsRead(line: bytes, before: bytes, after: bytes, name: bytes, v: bytes)
    requires Parts(line, before, after, name, v)
    ensures HeaderLine(line) == Some((Canonical(name), v))
  {
    ColonIsAscii();
    var l, r :| Blanks(l) && Blanks(r) && Tight(name) && before == l + name + r;
    var l', r' :| Blanks(l') && Blanks(r') && Tight(v) && after == l' + v + r';
    assert COLON !in name by {
      assert forall c <- name :: c in before;
    }
    HeaderLineExact(l, name, r, l', v, r');
  }

  lemma ReadParts(line: bytes) returns (before: bytes, after: bytes, name: bytes)
    requires HeaderLine(line).Some?
    ensures Parts(line, before, after, name, HeaderLine(line).value.1) && HeaderLine(line).value.0 == Canonical(name)
  {
    ColonIsAscii();
    BeforeFirst(line, COLON);
    var i := Find(line, [COLON]).value;
    before, after := line[..i], line[i + 1..];
    name := Trim(before);
    var l, r := TrimSplits(before);
    var l', r' := TrimSplits(after);
  }

  lemma SameCanonical(j: bytes, k: bytes)
    ensures Canonical(j) == Canonical(k) <==> SameName(j, k)
  {
    CanonicalIsFold(j, k);
    FoldIsName(j, k);
  }

  /** A line is such a field exactly when it is read as one. */
  lemma FieldExactly(line: bytes, name: string, v: bytes)
    ensures Field(line, name, v) <==> HeaderLine(line) == Some((Canonical(Ascii(name)), v))
  {
    if Field(line, name, v) {
      var before, after, written :| Parts(line, before, after, written, v) && SameName(written, Ascii(name));
      PartsRead(line, before, after, written, v);
      SameCanonical(written, Ascii(name));
    }
    if HeaderLine(line) == Some((Canonical(Ascii(name)), v)) {
      var before, after, written := ReadParts(line);
      SameCanonical(written, Ascii(name));
    }
  }

  // ---- The names and values of ws.go ----

  lemma NameTexts()
    ensures Ascii("Host") == HOST && Ascii("Upgrade") == UPGRADE && Ascii("Connection") == CONNECTION
  {}

  lemma SecTexts()
    ensures Ascii("Sec-Websocket-Version") == SEC_VERSION && Ascii("Sec-Websocket-Key") == SEC_KEY
  {}

  /** The five names are read as what they are, and only they. */
  lemma KindTexts(name: bytes)
    ensures KindOf(name) == Host <==> name == Canonical(Ascii("Host"))
    ensures KindOf(name) == UpgradeHeader <==> name == Canonical(Ascii("Upgrade"))
    ensures KindOf(name) == Connection <==> name == Canonical(Ascii("Connection"))
    ensures KindOf(name) == SecVersion <==> name == Canonical(Ascii("Sec-Websocket-Version"))
    ensures KindOf(name) == SecKey <==> name == Canonical(Ascii("Sec-Websocket-Key"))
  {
    NameTexts();
    SecTexts();
    NamesAreCanonical();
    assert |HOST| == 4 && |UPGRADE| == 7 && |CONNECTION| == 10 && |SEC_VERSION| == 21 && |SEC_KEY| == 17;
  }

  lemma ValueTexts()
    ensures Ascii("websocket") == WEBSOCKET && Ascii("Upgrade") == UPGRADE && Ascii("upgrade") == UPGRADE_LOWER
    ensures Ascii("13") == VERSION13
  {}

  // ---- What is wrong with a line ----

  /** A line that ws.go refuses, and the failure it reports. */
  ghost predicate BadLine(line: bytes, f: Failure)
  {
    match f
    case Malformed => Without(line, ':')
    case BadUpgrade => exists v :: Field(line, "Upgrade", v) && v != Ascii("websocket")
    case BadConnection => exists v :: Field(line, "Connection", v) && v != Ascii("Upgrade") && v != Ascii("upgrade")
    case UpgradeRequired => exists v :: Field(line, "Sec-Websocket-Version", v) && v != Ascii("13")
    case BadSecKey => exists v :: Field(line, "Sec-Websocket-Key", v) && |v| != 24
    case _ => false
  }

  lemma NoColon(line: bytes)
    ensures HeaderLine(line).None? <==> Without(line, ':')
  {
    if HeaderLine(line).Some? {
      var i := Find(line, [COLON]).value;
      assert line[i..i + 1] == [COLON] && line[i] in line;
    } else {
      forall c | c in line
        ensures c as int != ':' as int
      {
        var j :| 0 <= j < |line| && line[j] == c;
        assert !At(line, [COLON], j) && line[j..j + 1] == [c];
      }
    }
  }

  /** The line has a field of this name and a value other than those allowed, exactly when it is read so. */
  lemma FieldValue(line: bytes, name: string, ok: bytes -> bool)
    ensures (exists v :: Field(line, name, v) && !ok(v))
            <==> HeaderLine(line).Some? && HeaderLine(line).value.0 == Canonical(Ascii(name)) && !ok(HeaderLine(line).value.1)
  {
    if HeaderLine(line).Some? {
      FieldExactly(line, name, HeaderLine(line).value.1);
    }
    forall v
      ensures Field(line, name, v) <==> HeaderLine(line) == Some((Canonical(Ascii(name)), v))
    {
      FieldExactly(line, name, v);
    }
  }

  lemma UpgradeTexts(line: bytes)
    ensures LineFailure(line) == Some(BadUpgrade) <==> BadLine(line, BadUpgrade)
  {
    ValueTexts();
    FieldValue(line, "Upgrade", v => v == WEBSOCKET);
    if HeaderLine(line).Some? {
      KindTexts(HeaderLine(line).value.0);
    }
  }

  lemma ConnectionTexts(line: bytes)
    ensures LineFailure(line) == Some(BadConnection) <==> BadLine(line, BadConnection)
  {
    ValueTexts();
    FieldValue(line, "Connection", v => v == UPGRADE || v == UPGRADE_LOWER);
    if HeaderLine(line).Some? {
      KindTexts(HeaderLine(line).value.0);
    }
  }

  lemma VersionTexts(line: bytes)
    ensures LineFailure(line) == Some(UpgradeRequired) <==> BadLine(line, UpgradeRequired)
  {
    ValueTexts();
    FieldValue(line, "Sec-Websocket-Version", v => v == VERSION13);
    if HeaderLine(line).Some? {
      KindTexts(HeaderLine(line).value.0);
    }
  }

  lemma KeyTexts(line: bytes)
    ensures LineFailure(line) == Some(BadSecKey) <==> BadLine(line, BadSecKey)
  {
    FieldValue(line, "Sec-Websocket-Key", v => |v| == 24);
    if HeaderLine(line).Some? {
      KindTexts(HeaderLine(line).value.0);
    }
  }

  /** A line is refused, and with which failure, exactly as these texts say. */
  lemma LineTexts(line: bytes, f: Failure)
    ensures LineFailure(line) == Some(f) <==> BadLine(line, f)
  {
    match f
    case BadUpgrade => UpgradeTexts(line);
    case BadConnection => ConnectionTexts(line);
    case UpgradeRequired => VersionTexts(line);
    case BadSecKey => KeyTexts(line);
    case _ => OtherTexts(line, f);
  }

  lemma OtherTexts(line: bytes, f: Failure)
    requires f !in {BadUpgrade, BadConnection, UpgradeRequired, BadSecKey}
    ensures LineFailure(line) == Some(f) <==> BadLine(line, f)
  {
    NoColon(line);
    OnlyThese(line);
  }

  lemma ValuesFail(kind: Kind, v: bytes)
    ensures ValueFailure(kind, v) in {None, Some(BadUpgrade), Some(BadConnection), Some(UpgradeRequired), Some(BadSecKey)}
  {}

  lemma OnlyThese(line: bytes)
    ensures if HeaderLine(line).None? then LineFailure(line) == Some(Malformed)
            else LineFailure(line) in {None, Some(BadUpgrade), Some(BadConnection), Some(UpgradeRequired), Some(BadSecKey)}
  {
    if HeaderLine(line).Some? {
      ValuesFail(KindOf(HeaderLine(line).value.0), HeaderLine(line).value.1);
    }
  }

  /** There is a field of this name. */
  ghost predicate HasField(headers: seq<bytes>, name: string)
  {
    exists h, v :: h in headers && Field(h, name, v)
  }

  lemma SeenField(headers: seq<bytes>, name: string, kind: Kind)
    requires forall n: bytes :: KindOf(n) == kind <==> n == Canonical(Ascii(name))
    ensures Seen(headers, kind) <==> HasField(headers, name)
  {
    if Seen(headers, kind) {
      var h :| h in headers && HasKind(h, kind);
      FieldExactly(h, name, HeaderLine(h).value.1);
    }
    if HasField(headers, name) {
      var h, v :| h in headers && Field(h, name, v);
      FieldExactly(h, name, v);
      assert HasKind(h, kind);
    }
  }

  lemma SeenTexts(headers: seq<bytes>)
    ensures Seen(headers, Host) <==> HasField(headers, "Host")
    ensures Seen(headers, UpgradeHeader) <==> HasField(headers, "Upgrade")
    ensures Seen(headers, Connection) <==> HasField(headers, "Connection")
    ensures Seen(headers, SecVersion) <==> HasField(headers, "Sec-Websocket-Version")
    ensures Seen(headers, SecKey) <==> HasField(headers, "Sec-Websocket-Key")
  {
    forall n: bytes
      ensures KindOf(n) == Host <==> n == Canonical(Ascii("Host"))
      ensures KindOf(n) == UpgradeHeader <==> n == Canonical(Ascii("Upgrade"))
      ensures KindOf(n) == Connection <==> n == Canonical(Ascii("Connection"))
      ensures KindOf(n) == SecVersion <==> n == Canonical(Ascii("Sec-Websocket-Version"))
      ensures KindOf(n) == SecKey <==> n == Canonical(Ascii("Sec-Websocket-Key"))
    {
      KindTexts(n);
    }
    SeenField(headers, "Host", Host);
    SeenField(headers, "Upgrade", UpgradeHeader);
    SeenField(headers, "Connection", Connection);
    SeenField(headers, "Sec-Websocket-Version", SecVersion);
    SeenField(headers, "Sec-Websocket-Key", SecKey);
  }

  // ---- The request line ----

  /** A method, a URI and "HTTP/" with two texts around a dot. */
  predicate Words(line: bytes, name: bytes, uri: bytes, a: bytes, b: bytes)
  {
    && line == name + Ascii(" ") + uri + Ascii(" HTTP/") + a + Ascii(".") + b
    && Without(name, ' ') && Without(uri, ' ') && Without(a, '.')
  }

  /** The two texts are numbers, read in 64 bits. */
  ghost predicate RequestLine(line: bytes, name: bytes, major: int, minor: int)
  {
    exists uri, a, b :: Words(line, name, uri, a, b) && AsciiValue(a) == Some(major) && AsciiValue(b) == Some(minor)
  }

  lemma RequestWords()
    ensures Ascii(" ") == [SP] && Ascii(" HTTP/") == [SP] + PREFIX && Ascii(".") == [DOT] && Ascii("GET") == GET
  {}

  lemma LineWritten(name: bytes, uri: bytes, a: bytes, b: bytes)
    ensures name + Ascii(" ") + uri + Ascii(" HTTP/") + a + Ascii(".") + b == name + [SP] + (uri + [SP] + (PREFIX + a + [DOT] + b))
  {
    RequestWords();
  }

  lemma WordsRead(line: bytes, name: bytes, uri: bytes, a: bytes, b: bytes)
    requires Words(line, name, uri, a, b) && AsciiValue(a).Some? && AsciiValue(b).Some?
    ensures Split3(line, SP).0 == name && Version(Split3(line, SP).2) == Some((AsciiValue(a).value, AsciiValue(b).value))
  {
    LineWritten(name, uri, a, b);
    VersionExact(a, b);
    Split3Exact(name, uri, PREFIX + a + [DOT] + b, SP);
  }

  lemma LineRead(line: bytes, name: bytes, major: int, minor: int)
    requires RequestLine(line, name, major, minor)
    ensures Split3(line, SP).0 == name && Version(Split3(line, SP).2) == Some((major, minor))
  {
    var uri, a, b :| Words(line, name, uri, a, b) && AsciiValue(a) == Some(major) && AsciiValue(b) == Some(minor);
    WordsRead(line, name, uri, a, b);
  }

  lemma VersionRead(proto: bytes) returns (a: bytes, b: bytes)
    requires Version(proto).Some?
    ensures proto == PREFIX + a + [DOT] + b && DOT !in a
    ensures AsciiValue(a) == Some(Version(proto).value.0) && AsciiValue(b) == Some(Version(proto).value.1)
  {
    var numbers := proto[5..];
    BeforeFirst(numbers, DOT);
    var i := Find(numbers, [DOT]).value;
    a, b := numbers[..i], numbers[i + 1..];
    assert proto == proto[..5] + numbers;
  }

  lemma Rejoin(line: bytes, i: nat, j: nat, sep: byte)
    requires i + 1 + j < |line| && line[i] == sep && line[i + 1 + j] == sep
    ensures line == line[..i] + [sep] + (line[i + 1..i + 1 + j] + [sep] + line[i + 1 + j + 1..])
  {}

  lemma SplitRead(line: bytes, sep: byte)
    requires Split3(line, sep).2 != []
    ensures var (n, uri, proto) := Split3(line, sep);
            line == n + [sep] + (uri + [sep] + proto) && sep !in n && sep !in uri
  {
    var i := Find(line, [sep]).value;
    BeforeFirst(line, sep);
    var rest := line[i + 1..];
    var j := Find(rest, [sep]).value;
    BeforeFirst(rest, sep);
    assert line[i] == sep && rest[j] == sep && line[i + 1..i + 1 + j] == rest[..j];
    Rejoin(line, i, j, sep);
  }

  lemma LineFrom(name: bytes, uri: bytes, a: bytes, b: bytes)
    requires SP !in name && SP !in uri && DOT !in a && AsciiValue(a).Some? && AsciiValue(b).Some?
    ensures RequestLine(name + [SP] + (uri + [SP] + (PREFIX + a + [DOT] + b)), name, AsciiValue(a).value, AsciiValue(b).value)
  {
    LineWritten(name, uri, a, b);
    assert Words(name + [SP] + (uri + [SP] + (PREFIX + a + [DOT] + b)), name, uri, a, b);
  }

  lemma ReadLine(line: bytes, name: bytes)
    requires Split3(line, SP).0 == name && Version(Split3(line, SP).2).Some?
    ensures var v := Version(Split3(line, SP).2).value; RequestLine(line, name, v.0, v.1)
  {
    var (_, uri, proto) := Split3(line, SP);
    SplitRead(line, SP);
    var a, b := VersionRead(proto);
    LineFrom(name, uri, a, b);
  }

  /** A request line is read as these texts say. */
  lemma RequestLineExactly(line: bytes, name: bytes, major: int, minor: int)
    ensures RequestLine(line, name, major, minor)
            <==> Split3(line, SP).0 == name && Version(Split3(line, SP).2) == Some((major, minor))
  {
    if RequestLine(line, name, major, minor) {
      LineRead(line, name, major, minor);
    }
    if Split3(line, SP).0 == name && Version(Split3(line, SP).2) == Some((major, minor)) {
      ReadLine(line, name);
    }
  }

  /** The failure of a request line, if any: neither numbers nor words, another version than 1.x with x at least 1, or
      another method than GET. */
  lemma RequestTexts(line: bytes)
    ensures RequestFailure(line) == Some(Malformed) <==> forall name, major, minor :: !RequestLine(line, name, major, minor)
    ensures RequestFailure(line) == Some(BadProtocol)
            <==> exists name, major, minor :: RequestLine(line, name, major, minor) && (major != 1 || minor < 1)
    ensures RequestFailure(line) == Some(BadMethod)
            <==> exists name, minor :: RequestLine(line, name, 1, minor) && minor >= 1 && name != Ascii("GET")
    ensures RequestFailure(line).None? <==> exists minor :: RequestLine(line, Ascii("GET"), 1, minor) && minor >= 1
  {
    RequestWords();
    var name, v := Split3(line, SP).0, Version(Split3(line, SP).2);
    forall n, major, minor
      ensures RequestLine(line, n, major, minor) <==> n == name && v == Some((major, minor))
    {
      RequestLineExactly(line, n, major, minor);
    }
    if v.Some? {
      assert RequestLine(line, name, v.value.0, v.value.1);
    }
  }

  // ---- All of it ----

  /** What section 4.2.1 of RFC 6455 and ws.go ask of a request, in their words. */
  ghost predicate Acceptable(request: bytes, headers: seq<bytes>)
  {
    && (exists minor :: RequestLine(request, Ascii("GET"), 1, minor) && minor >= 1)
    && (forall h, f :: h in headers ==> !BadLine(h, f))
    && HasField(headers, "Host") && HasField(headers, "Upgrade") && HasField(headers, "Connection")
    && HasField(headers, "Sec-Websocket-Version") && HasField(headers, "Sec-Websocket-Key")
  }

  lemma GoodLineText(h: bytes)
    ensures LineFailure(h).None? <==> forall f :: !BadLine(h, f)
  {
    forall f
      ensures LineFailure(h) == Some(f) <==> BadLine(h, f)
    {
      LineTexts(h, f);
    }
    if LineFailure(h).Some? {
      assert BadLine(h, LineFailure(h).value);
    }
  }

  lemma GoodTexts(headers: seq<bytes>)
    ensures (forall h <- headers :: LineFailure(h).None?) <==> forall h, f :: h in headers ==> !BadLine(h, f)
  {
    forall h
      ensures LineFailure(h).None? <==> forall f :: !BadLine(h, f)
    {
      GoodLineText(h);
    }
  }

  lemma AllSeen(headers: seq<bytes>)
    ensures (forall kind :: kind != Other ==> Seen(headers, kind))
            <==> && HasField(headers, "Host") && HasField(headers, "Upgrade") && HasField(headers, "Connection")
                 && HasField(headers, "Sec-Websocket-Version") && HasField(headers, "Sec-Websocket-Key")
  {
    SeenTexts(headers);
    if Seen(headers, Host) && Seen(headers, UpgradeHeader) && Seen(headers, Connection) && Seen(headers, SecVersion)
       && Seen(headers, SecKey) {
      forall kind | kind != Other
        ensures Seen(headers, kind)
      {}
    }
  }

  /** A request, whatever follows it, is accepted if and only if its texts are acceptable. */
  lemma AcceptedTexts(request: bytes, headers: seq<bytes>, rest: bytes)
    requires WellFormed(request, headers)
    ensures Accepts(Head(request, headers) + rest) <==> Acceptable(request, headers)
  {
    Acceptance(request, headers, rest);
    RequestTexts(request);
    GoodTexts(headers);
    AllSeen(headers);
  }

  /** Line i is the last key field, with this value. */
  ghost predicate LastKeyAt(headers: seq<bytes>, i: nat, key: bytes)
  {
    && i < |headers| && Field(headers[i], "Sec-Websocket-Key", key)
    && forall j, v :: i < j < |headers| ==> !Field(headers[j], "Sec-Websocket-Key", v)
  }

  lemma LastKeySnoc(headers: seq<bytes>, line: bytes, i: nat, key: bytes)
    requires LastKeyAt(headers, i, key) && forall v :: !Field(line, "Sec-Websocket-Key", v)
    ensures LastKeyAt(headers + [line], i, key)
  {}

  /** The key that is answered is that of the last key field. */
  lemma {:induction false} NonceTexts(headers: seq<bytes>) returns (i: nat)
    requires HasField(headers, "Sec-Websocket-Key")
    ensures LastKeyAt(headers, i, Nonce(headers))
    decreases |headers|
  {
    var n := |headers| - 1;
    var init, last := headers[..n], headers[n];
    assert headers == init + [last];
    NonceSnoc(init, last);
    LastKey(last);
    if HasKind(last, SecKey) {
      i := n;
    } else {
      KeyBefore(init, last);
      i := NonceTexts(init);
      LastKeySnoc(init, last, i, Nonce(headers));
    }
  }

  lemma KeyBefore(headers: seq<bytes>, line: bytes)
    requires HasField(headers + [line], "Sec-Websocket-Key") && forall v :: !Field(line, "Sec-Websocket-Key", v)
    ensures HasField(headers, "Sec-Websocket-Key")
  {
    var h, v :| h in headers + [line] && Field(h, "Sec-Websocket-Key", v);
    assert h in headers;
  }

  lemma LastKey(h: bytes)
    ensures HasKind(h, SecKey) ==> Field(h, "Sec-Websocket-Key", HeaderLine(h).value.1)
    ensures !HasKind(h, SecKey) ==> forall v :: !Field(h, "Sec-Websocket-Key", v)
  {
    forall v
      ensures Field(h, "Sec-Websocket-Key", v) <==> HeaderLine(h) == Some((Canonical(Ascii("Sec-Websocket-Key")), v))
    {
      FieldExactly(h, "Sec-Websocket-Key", v);
    }
    if HeaderLine(h).Some? {
      KindTexts(HeaderLine(h).value.0);
    }
  }

  /** Line i is the first that is refused, for this reason. */
  ghost predicate FirstRefused(headers: seq<bytes>, i: nat, f: Failure)
  {
    i < |headers| && BadLine(headers[i], f) && forall j: nat, g :: j < i ==> !BadLine(headers[j], g)
  }

  lemma {:induction false} FirstBad(headers: seq<bytes>) returns (i: nat)
    ensures i <= |headers| && (forall j: nat :: j < i ==> LineFailure(headers[j]).None?)
    ensures if i < |headers| then FirstFailure(headers) == LineFailure(headers[i]) && LineFailure(headers[i]).Some?
            else FirstFailure(headers).None?
    decreases |headers|
  {
    if headers == [] || LineFailure(headers[0]).Some? {
      i := 0;
    } else {
      i := FirstBad(headers[1..]);
      i := i + 1;
    }
  }

  lemma OneFirst(headers: seq<bytes>, i: nat, k: nat, f: Failure)
    requires i <= |headers| && (forall j: nat :: j < i ==> LineFailure(headers[j]).None?)
    requires (i < |headers| ==> LineFailure(headers[i]).Some?) && FirstRefused(headers, k, f)
    ensures i == k && LineFailure(headers[i]) == Some(f)
  {
    LineTexts(headers[k], f);
    if i < k {
      GoodLineText(headers[i]);
      assert false;
    }
  }

  /** The first refused line decides. */
  lemma RefusedTexts(headers: seq<bytes>, f: Failure)
    ensures FirstFailure(headers) == Some(f) <==> exists i: nat :: FirstRefused(headers, i, f)
  {
    var i := FirstBad(headers);
    if FirstFailure(headers) == Some(f) {
      LineTexts(headers[i], f);
      forall j: nat, g | j < i
        ensures !BadLine(headers[j], g)
      {
        GoodLineText(headers[j]);
      }
      assert FirstRefused(headers, i, f);
    }
    if exists k: nat :: FirstRefused(headers, k, f) {
      var k: nat :| FirstRefused(headers, k, f);
      OneFirst(headers, i, k, f);
    }
  }

  /** The failure reported for headers that are all good but not all there. */
  lemma MissingTexts(headers: seq<bytes>)
    ensures Missing(headers) ==
              if !HasField(headers, "Host") then Some(BadHost)
              else if !HasField(headers, "Upgrade") then Some(BadUpgrade)
              else if !HasField(headers, "Connection") then Some(BadConnection)
              else if !HasField(headers, "Sec-Websocket-Version") then Some(BadSecVersion)
              else if !HasField(headers, "Sec-Websocket-Key") then Some(BadSecKey)
              else None
  {
    SeenTexts(headers);
  }

  // ---- The text of a head ----

  lemma LineEnds()
    ensures Ascii("\r\n") == CRLF && Ascii("\r\n\r\n") == END
  {}

  /** A head is its request line and its header lines, one after the other and each with its CRLF, and one more CRLF. */
  lemma HeadText(request: bytes, h: bytes, headers: seq<bytes>)
    ensures Head(request, []) == request + Ascii("\r\n\r\n")
    ensures Head(request, [h] + headers) == request + Ascii("\r\n") + Head(h, headers)
  {
    LineEnds();
    assert [request] + [] == [request] && [request][1..] == [] && Joined([request]) == request + CRLF + [];
    assert CRLF + CRLF == END;
    assert ([request] + ([h] + headers))[1..] == [h] + headers;
  }

  /** The request of `PlainIsGood`. */
  lemma PlainText(host: bytes, key: bytes)
    ensures REQUEST == Ascii("GET / HTTP/1.1")
    ensures Headers(NAMES, Values(host, key))
            == [Ascii("Host:") + host, Ascii("Upgrade:websocket"), Ascii("Connection:Upgrade"),
                Ascii("Sec-Websocket-Version:13"), Ascii("Sec-Websocket-Key:") + key]
  {
    PlainRequest();
    PlainWords();
    PlainSecWords();
  }

  lemma PlainRequest()
    ensures Ascii("GET / HTTP/1.1") == REQUEST && Ascii("Host:") == HOST + [COLON]
  {}

  lemma PlainWords()
    ensures Ascii("Upgrade:websocket") == UPGRADE + [COLON] + WEBSOCKET
    ensures Ascii("Connection:Upgrade") == CONNECTION + [COLON] + UPGRADE
  {}

  lemma PlainSecWords()
    ensures Ascii("Sec-Websocket-Version:13") == SEC_VERSION + [COLON] + VERSION13
    ensures Ascii("Sec-Websocket-Key:") == SEC_KEY + [COLON]
  {}
}
