/** plugins/websocket/ws/util.go and http.go: the text scanning that the opening handshake is built from. */
module HttpText {
  import opened Bytes
  import opened Decimal

  const SP: byte := 0x20
  const TAB: byte := 0x09
  const CR: byte := 0x0d
  const LF: byte := 0x0a
  const COLON: byte := 0x3a
  const DOT: byte := 0x2e
  const DASH: byte := 0x2d
  const CRLF: bytes := [CR, LF]
  const END: bytes := [CR, LF, CR, LF]

  // ---- Searching and splitting (the bytes package) ----

  predicate At(b: bytes, pat: bytes, j: nat)
  {
    j + |pat| <= |b| && b[j..j + |pat|] == pat
  }

  function FindFrom(b: bytes, pat: bytes, i: nat): (r: Option<nat>)
    ensures r.Some? ==> r.value >= i && At(b, pat, r.value) && forall j | i <= j < r.value :: !At(b, pat, j)
    ensures r.None? ==> forall j | i <= j :: !At(b, pat, j)
    decreases |b| - i
  {
    if i + |pat| > |b| then None else if At(b, pat, i) then Some(i) else FindFrom(b, pat, i + 1)
  }

  /** `bytes.Index`: the first occurrence. */
  function Find(b: bytes, pat: bytes): (r: Option<nat>)
    ensures r.Some? ==> At(b, pat, r.value) && forall j | 0 <= j < r.value :: !At(b, pat, j)
    ensures r.None? ==> forall j: nat :: !At(b, pat, j)
  {
    FindFrom(b, pat, 0)
  }

  /** `bytes.Split` at every CRLF. */
  function Lines(b: bytes): (r: seq<bytes>)
    ensures r != []
    decreases |b|
  {
    var i := Find(b, CRLF);
    if i.None? then [b] else [b[..i.value]] + Lines(b[i.value + 2..])
  }

  predicate NoCrlf(line: bytes) { Find(line, CRLF).None? }

  /** Every line followed by its CRLF. */
  function Joined(lines: seq<bytes>): bytes
  {
    if lines == [] then [] else lines[0] + CRLF + Joined(lines[1..])
  }

  lemma FirstCrlf(line: bytes, rest: bytes)
    requires NoCrlf(line)
    ensures var t := line + CRLF + rest;
            Find(t, CRLF) == Some(|line|) && t[..|line|] == line && t[|line| + 2..] == rest
  {
    var t := line + CRLF + rest;
    assert At(t, CRLF, |line|);
    forall j | 0 <= j < |line|
      ensures !At(t, CRLF, j)
    {
      assert !At(line, CRLF, j);
      assert t[j..j + 2] == [t[j], t[j + 1]];
      if j + 2 <= |line| {
        assert line[j..j + 2] == t[j..j + 2];
      }
    }
  }

  lemma {:induction false} LinesOfJoined(lines: seq<bytes>)
    requires forall l <- lines :: NoCrlf(l)
    ensures Lines(Joined(lines)) == lines + [[]]
    decreases |lines|
  {
    if lines != [] {
      FirstCrlf(lines[0], Joined(lines[1..]));
      LinesOfJoined(lines[1..]);
    }
  }

  // ---- Trimming ----

  predicate Blank(c: byte) { c == SP || c == TAB }

  predicate White(c: byte) { c as int == ' ' as int || c as int == '\t' as int }

  /** Spaces and tabs. */
  predicate Blanks(b: bytes) { forall c <- b :: White(c) }

  /** Empty, or without a space or a tab at either end. */
  predicate Tight(b: bytes) { b == [] || (!White(b[0]) && !White(b[|b| - 1])) }

  function TrimLeft(b: bytes): bytes
  {
    if b == [] || !Blank(b[0]) then b else TrimLeft(b[1..])
  }

  function TrimRight(b: bytes): bytes
  {
    if b == [] || !Blank(b[|b| - 1]) then b else TrimRight(b[..|b| - 1])
  }

  function Trim(b: bytes): bytes { TrimRight(TrimLeft(b)) }

  method Btrim(bts: bytes) returns (r: bytes)
    ensures r == Trim(bts)
  {
    var i := 0;
    assert bts[0..] == bts;
    while i < |bts| && Blank(bts[i])
      invariant i <= |bts| && TrimLeft(bts[i..]) == TrimLeft(bts)
    {
      assert bts[i..][1..] == bts[i + 1..];
      i := i + 1;
    }
    var j := |bts|;
    assert TrimLeft(bts) == bts[i..j];
    while j > i && Blank(bts[j - 1])
      invariant i <= j <= |bts| && TrimRight(bts[i..j]) == Trim(bts)
    {
      assert bts[i..j][..j - i - 1] == bts[i..j - 1];
      j := j - 1;
    }
    r := bts[i..j];
  }

  lemma {:induction false} TrimLeftBlanks(l: bytes, b: bytes)
    requires Blanks(l) && (b == [] || !Blank(b[0]))
    ensures TrimLeft(l + b) == b
  {
    if l == [] {
      assert l + b == b;
    } else {
      assert (l + b)[1..] == l[1..] + b && White(l[0]);
      TrimLeftBlanks(l[1..], b);
    }
  }

  lemma {:induction false} TrimRightBlanks(b: bytes, r: bytes)
    requires Blanks(r) && (b == [] || !Blank(b[|b| - 1]))
    ensures TrimRight(b + r) == b
  {
    if r == [] {
      assert b + r == b;
    } else {
      assert (b + r)[..|b + r| - 1] == b + r[..|r| - 1] && White(r[|r| - 1]);
      TrimRightBlanks(b, r[..|r| - 1]);
    }
  }

  /** Trimming removes exactly the blanks around a tight middle. */
  lemma TrimExact(l: bytes, b: bytes, r: bytes)
    requires Blanks(l) && Tight(b) && Blanks(r)
    ensures Trim(l + b + r) == b
  {
    if b == [] {
      assert l + b + r == (l + r) + [];
      TrimLeftBlanks(l + r, []);
    } else {
      assert l + b + r == l + (b + r);
      TrimLeftBlanks(l, b + r);
      TrimRightBlanks(b, r);
    }
  }

  lemma {:induction false} TrimLeftSplits(b: bytes) returns (l: bytes)
    ensures Blanks(l) && b == l + TrimLeft(b) && (TrimLeft(b) == [] || !White(TrimLeft(b)[0]))
  {
    if b == [] || !Blank(b[0]) {
      l := [];
    } else {
      var m := TrimLeftSplits(b[1..]);
      l := [b[0]] + m;
      assert b == [b[0]] + b[1..];
    }
  }

  lemma {:induction false} TrimRightSplits(b: bytes) returns (r: bytes)
    ensures Blanks(r) && b == TrimRight(b) + r && TrimRight(b) <= b
    ensures TrimRight(b) == [] || !White(TrimRight(b)[|TrimRight(b)| - 1])
  {
    if b == [] || !Blank(b[|b| - 1]) {
      r := [];
    } else {
      var m := TrimRightSplits(b[..|b| - 1]);
      r := m + [b[|b| - 1]];
      assert b == b[..|b| - 1] + [b[|b| - 1]];
    }
  }

  /** What trimming leaves is tight, with nothing but spaces and tabs around it. */
  lemma TrimSplits(b: bytes) returns (l: bytes, r: bytes)
    ensures Blanks(l) && Blanks(r) && b == l + Trim(b) + r && Tight(Trim(b))
  {
    l := TrimLeftSplits(b);
    r := TrimRightSplits(TrimLeft(b));
  }

  // ---- Header names ----

  predicate LowerCase(c: byte) { 0x61 <= c <= 0x7a }

  predicate UpperCase(c: byte) { 0x41 <= c <= 0x5a }

  function Lower(c: byte): byte { if UpperCase(c) then c + 32 else c }

  function Case(upper: bool, c: byte): byte
  {
    if upper && LowerCase(c) then c - 32 else if !upper && UpperCase(c) then c + 32 else c
  }

  /** The first letter and every letter after a dash in upper case, the others in lower case. */
  function Canonical(k: bytes): (r: bytes)
    ensures |r| == |k|
  {
    seq(|k|, i requires 0 <= i < |k| => Case(i == 0 || k[i - 1] == DASH, k[i]))
  }

  /** All letters in lower case. */
  function Fold(k: bytes): (r: bytes)
    ensures |r| == |k|
  {
    seq(|k|, i requires 0 <= i < |k| => Lower(k[i]))
  }

  /** Equal, or the same letter of the alphabet in upper and in lower case. */
  predicate SameLetter(a: byte, b: byte)
  {
    || a == b
    || ('A' as int <= a as int <= 'Z' as int && b as int == a as int + 'a' as int - 'A' as int)
    || ('A' as int <= b as int <= 'Z' as int && a as int == b as int + 'a' as int - 'A' as int)
  }

  lemma LowerIsLetter(a: byte, b: byte)
    ensures Lower(a) == Lower(b) <==> SameLetter(a, b)
  {}

  /** Names that differ only in the case of ASCII letters. */
  predicate SameName(j: bytes, k: bytes)
  {
    |j| == |k| && forall i :: 0 <= i < |j| ==> SameLetter(j[i], k[i])
  }

  lemma FoldIsName(j: bytes, k: bytes)
    ensures Fold(j) == Fold(k) <==> SameName(j, k)
  {
    if Fold(j) == Fold(k) {
      forall i | 0 <= i < |j|
        ensures SameLetter(j[i], k[i])
      {
        assert Fold(j)[i] == Fold(k)[i];
        LowerIsLetter(j[i], k[i]);
      }
    }
    if SameName(j, k) {
      forall i | 0 <= i < |j|
        ensures Fold(j)[i] == Fold(k)[i]
      {
        LowerIsLetter(j[i], k[i]);
      }
    }
  }

  method CanonicalizeHeaderKey(k: array<byte>)
    modifies k
    ensures k[..] == Canonical(old(k[..]))
  {
    var upper := true;
    for i := 0 to k.Length
      invariant upper <==> i == 0 || old(k[i - 1]) == DASH
      invariant forall j :: i <= j < k.Length ==> k[j] == old(k[j])
      invariant forall j :: 0 <= j < i ==> k[j] == Canonical(old(k[..]))[j]
    {
      var c := k[i];
      if upper && LowerCase(c) {
        k[i] := k[i] - 32;
      } else if !upper && UpperCase(c) {
        k[i] := k[i] + 32;
      }
      upper := c == DASH;
    }
  }

  lemma CaseForgets(upper: bool, c: byte)
    ensures Lower(Case(upper, c)) == Lower(c) && (Lower(c) == DASH <==> c == DASH)
  {}

  /** Two names have the same canonical form exactly when they differ only in the case of ASCII letters. */
  lemma CanonicalIsFold(j: bytes, k: bytes)
    ensures Canonical(j) == Canonical(k) <==> Fold(j) == Fold(k)
  {
    if Canonical(j) == Canonical(k) {
      forall i | 0 <= i < |j|
        ensures Fold(j)[i] == Fold(k)[i]
      {
        CaseForgets(i == 0 || j[i - 1] == DASH, j[i]);
        CaseForgets(i == 0 || k[i - 1] == DASH, k[i]);
        assert Canonical(j)[i] == Canonical(k)[i];
      }
    }
    if Fold(j) == Fold(k) {
      forall i | 0 <= i < |j|
        ensures Canonical(j)[i] == Canonical(k)[i]
      {
        assert Fold(j)[i] == Fold(k)[i];
        if i > 0 {
          CaseForgets(true, j[i - 1]);
          CaseForgets(true, k[i - 1]);
          assert Fold(j)[i - 1] == Fold(k)[i - 1];
        }
      }
    }
  }

  /** `httpParseHeaderLine`: name in canonical form and value. */
  function HeaderLine(line: bytes): Option<(bytes, bytes)>
  {
    var colon := Find(line, [COLON]);
    if colon.None? then None
    else Some((Canonical(Trim(line[..colon.value])), Trim(line[colon.value + 1..])))
  }

  method HttpParseHeaderLine(line: bytes) returns (r: Option<(bytes, bytes)>)
    ensures r == HeaderLine(line)
  {
    var colon := Find(line, [COLON]);
    if colon.None? {
      return None;
    }
    var name := Btrim(line[..colon.value]);
    var k := new byte[|name|](i requires 0 <= i < |name| => name[i]);
    assert k[..] == name;
    CanonicalizeHeaderKey(k);
    var v := Btrim(line[colon.value + 1..]);
    r := Some((k[..], v));
  }

  // ---- Request line ----

  const GET: bytes := [0x47, 0x45, 0x54]
  const PREFIX: bytes := [0x48, 0x54, 0x54, 0x50, 0x2f]
  const VERSION10: bytes := PREFIX + [0x31, DOT, 0x30]
  const VERSION11: bytes := PREFIX + [0x31, DOT, 0x31]

  function Split3(b: bytes, sep: byte): (bytes, bytes, bytes)
  {
    var i := Find(b, [sep]);
    if i.None? then (b, [], [])
    else
      var j := Find(b[i.value + 1..], [sep]);
      if j.None? then (b, [], [])
      else (b[..i.value], b[i.value + 1..i.value + 1 + j.value], b[i.value + 1 + j.value + 1..])
  }

  lemma FirstSeparator(a: bytes, sep: byte, rest: bytes)
    requires sep !in a
    ensures var t := a + [sep] + rest;
            Find(t, [sep]) == Some(|a|) && t[..|a|] == a && t[|a| + 1..] == rest
  {
    var t := a + [sep] + rest;
    assert At(t, [sep], |a|);
    forall j | 0 <= j < |a|
      ensures !At(t, [sep], j)
    {
      assert t[j] == a[j] && t[j..j + 1] == [a[j]];
    }
  }

  /** The two separators that are found are the first two. */
  lemma Split3Exact(a: bytes, b: bytes, c: bytes, sep: byte)
    requires sep !in a && sep !in b
    ensures Split3(a + [sep] + (b + [sep] + c), sep) == (a, b, c)
  {
    FirstSeparator(a, sep, b + [sep] + c);
    FirstSeparator(b, sep, c);
    var t := a + [sep] + (b + [sep] + c);
    assert t[|a| + 1..|a| + 1 + |b|] == t[|a| + 1..][..|b|];
    assert t[|a| + 1 + |b| + 1..] == t[|a| + 1..][|b| + 1..];
  }

  /** The numbers on both sides of the first dot. */
  function Numbers(b: bytes): Option<(int, int)>
  {
    var dot := Find(b, [DOT]);
    if dot.None? then None
    else
      var major, minor := AsciiValue(b[..dot.value]), AsciiValue(b[dot.value + 1..]);
      if major.None? || minor.None? then None else Some((major.value, minor.value))
  }

  /** The version without the two fast cases of `httpParseVersion`. */
  function Version(b: bytes): Option<(int, int)>
  {
    if |b| < 8 || b[..5] != PREFIX then None else Numbers(b[5..])
  }

  lemma SingleDigits(a: byte, c: byte)
    requires 0x30 <= a <= 0x39 && 0x30 <= c <= 0x39
    ensures Numbers([a, DOT, c]) == Some(((a - 0x30) as int, (c - 0x30) as int))
  {
    assert [a, DOT, c] == [a] + [DOT] + [c];
    FirstSeparator([a], DOT, [c]);
    OneDigit(a);
    OneDigit(c);
  }

  lemma OneDigit(a: byte)
    requires 0x30 <= a <= 0x39
    ensures AsciiValue([a]) == Some((a - 0x30) as int)
  {
    assert [a][..0] == [];
    assert DecimalValue([a]) == DecimalValue([a][..0]) * 10 + (a % 16) as nat;
  }

  method HttpParseVersion(bts: bytes) returns (r: Option<(int, int)>)
    ensures r == Version(bts)
  {
    assert VERSION10[5..] == [0x31, DOT, 0x30] && VERSION11[5..] == [0x31, DOT, 0x31];
    SingleDigits(0x31, 0x30);
    SingleDigits(0x31, 0x31);
    if bts == VERSION10 {
      return Some((1, 0));
    } else if bts == VERSION11 {
      return Some((1, 1));
    } else if |bts| < 8 {
      return None;
    } else if bts[..5] != PREFIX {
      return None;
    }
    var b := bts[5..];
    var dot := Find(b, [DOT]);
    if dot.None? {
      return None;
    }
    var major := AsciiToInt(b[..dot.value]);
    if major.None? {
      return None;
    }
    var minor := AsciiToInt(b[dot.value + 1..]);
    if minor.None? {
      return None;
    }
    r := Some((major.value, minor.value));
  }
}
