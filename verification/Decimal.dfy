/** plugins/websocket/ws/util.go: `pow` and `asciiToInt` in 64-bit arithmetic that wraps around. */
module Decimal {
  import opened Bytes

  const M := 0x1_0000_0000_0000_0000

  /** The int64 that x is truncated to. */
  function Wrap(x: int): (r: int)
    ensures -M / 2 <= r < M / 2
  {
    (x + M / 2) % M - M / 2
  }

  function Multiple(k: int): int { k * M }

  /** Equal up to multiples of 2^64. */
  ghost predicate Same(x: int, y: int)
  {
    exists k: int :: x == y + Multiple(k)
  }

  lemma WrapSame(x: int)
    ensures Same(Wrap(x), x)
  {
    var k := -((x + M / 2) / M);
    assert Wrap(x) == x + Multiple(k);
  }

  lemma SameWraps(x: int, y: int)
    requires Same(x, y)
    ensures Wrap(x) == Wrap(y)
  {
    var k :| x == y + Multiple(k);
    var a := y + M / 2;
    var d := (a + k * M) / M - a / M;
    assert (a + k * M) % M == a + k * M - M * ((a + k * M) / M);
    assert a % M == a - M * (a / M);
  }

  lemma SameTrans(x: int, y: int, z: int)
    requires Same(x, y) && Same(y, z)
    ensures Same(x, z)
  {
    var k, l :| x == y + Multiple(k) && y == z + Multiple(l);
    assert x == z + Multiple(k + l);
  }

  lemma SameMul(x: int, y: int, a: int)
    requires Same(x, y)
    ensures Same(x * a, y * a) && Same(a * x, a * y)
  {
    var k :| x == y + Multiple(k);
    assert x * a == y * a + Multiple(k * a);
    assert a * x == a * y + Multiple(k * a);
  }

  lemma SameAdd(x: int, y: int, a: int)
    requires Same(x, y)
    ensures Same(a + x, a + y) && Same(x + a, y + a)
  {
    var k :| x == y + Multiple(k);
    assert a + x == a + y + Multiple(k);
  }

  function Power(a: int, b: nat): int
  {
    if b == 0 then 1 else a * Power(a, b - 1)
  }

  lemma {:induction false} PowerSame(a: int, b: int, k: nat)
    requires Same(a, b)
    ensures Same(Power(a, k), Power(b, k))
    decreases k
  {
    if k == 0 {
      assert Power(a, 0) == Power(b, 0) + Multiple(0);
    } else {
      PowerSame(a, b, k - 1);
      SameMul(a, b, Power(a, k - 1));
      SameMul(Power(a, k - 1), Power(b, k - 1), b);
      SameTrans(a * Power(a, k - 1), b * Power(a, k - 1), b * Power(b, k - 1));
    }
  }

  lemma {:induction false} PowerSquare(a: int, k: nat)
    ensures Power(a * a, k) == Power(a, 2 * k)
    decreases k
  {
    if k > 0 {
      PowerSquare(a, k - 1);
      assert Power(a, 2 * k) == a * (a * Power(a, 2 * k - 2));
    }
  }

  lemma SameProduct(x: int, x': int, y: int, y': int)
    requires Same(x, x') && Same(y, y')
    ensures Same(x * y, x' * y')
  {
    SameMul(x, x', y);
    SameMul(y, y', x');
    SameTrans(x * y, x' * y, x' * y');
  }

  lemma SquaredBase(a: int, h: nat)
    ensures Same(Power(Wrap(a * a), h), Power(a, 2 * h))
  {
    WrapSame(a * a);
    PowerSame(Wrap(a * a), a * a, h);
    PowerSquare(a, h);
  }

  lemma Regroup(p: int, a: int, w: int)
    ensures (p * a) * w == p * (a * w)
  {
  }

  lemma OddTurn(p: int, a: int, square: int, w: int)
    requires Same(square, w)
    ensures Same(Wrap(p * a) * square, p * (a * w))
  {
    WrapSame(p * a);
    SameProduct(Wrap(p * a), p * a, square, w);
    Regroup(p, a, w);
  }

  /** One turn of the loop with an odd exponent: the result is multiplied, the base squared, the exponent halved. */
  lemma PowOdd(p: int, a: int, b: nat)
    requires b % 2 == 1
    ensures Same(Wrap(p * a) * Power(Wrap(a * a), b / 2), p * Power(a, b))
  {
    SquaredBase(a, b / 2);
    OddTurn(p, a, Power(Wrap(a * a), b / 2), Power(a, b - 1));
  }

  lemma PowEven(p: int, a: int, b: nat)
    requires b % 2 == 0
    ensures Same(p * Power(Wrap(a * a), b / 2), p * Power(a, b))
  {
    SquaredBase(a, b / 2);
    SameMul(Power(Wrap(a * a), b / 2), Power(a, b), p);
  }

  /** Exponentiation by squaring, every product truncated to 64 bits. */
  method Pow(base: int, exponent: nat) returns (p: int)
    ensures p == Wrap(Power(base, exponent))
  {
    p := 1;
    var a, b := base, exponent;
    assert p * Power(a, b) == Power(base, exponent) + Multiple(0);
    while b > 0
      invariant -M / 2 <= p < M / 2
      invariant Same(p * Power(a, b), Power(base, exponent))
    {
      ghost var before := p * Power(a, b);
      if b % 2 == 1 {
        PowOdd(p, a, b);
        p := Wrap(p * a);
      } else {
        PowEven(p, a, b);
      }
      b := b / 2;
      a := Wrap(a * a);
      SameTrans(p * Power(a, b), before, Power(base, exponent));
    }
    SameWraps(p, Power(base, exponent));
  }

  /** The test is on the high four bits, so it lets ':' to '?' through as the digits 10 to 15. */
  predicate Digit(c: byte) { 0x30 <= c < 0x40 }

  function DecimalValue(s: bytes): nat
  {
    if s == [] then 0 else DecimalValue(s[..|s| - 1]) * 10 + (s[|s| - 1] % 16) as nat
  }

  /** What `asciiToInt` returns: the decimal value truncated to 64 bits, or an error. */
  function AsciiValue(s: bytes): Option<int>
  {
    if s == [] || exists c <- s :: !Digit(c) then None else Some(Wrap(DecimalValue(s)))
  }

  lemma {:induction false} PowerShift(d: int, v: int, k: nat)
    requires k > 0
    ensures v * Power(10, k) + d * Power(10, k - 1) == (v * 10 + d) * Power(10, k - 1)
  {
    assert Power(10, k) == 10 * Power(10, k - 1);
  }

  /** The truncations of the sum, of the product and of the power cost nothing modulo 2^64. */
  lemma AddDigit(v: int, d: int, w: int)
    ensures Wrap(Wrap(v) + Wrap(d * Wrap(w))) == Wrap(v + d * w)
  {
    WrapSame(v);
    WrapSame(w);
    SameMul(Wrap(w), w, d);
    var term := d * Wrap(w);
    WrapSame(term);
    SameTrans(Wrap(term), term, d * w);
    SameAdd(Wrap(term), d * w, Wrap(v));
    SameAdd(Wrap(v), v, d * w);
    SameTrans(Wrap(v) + Wrap(term), Wrap(v) + d * w, v + d * w);
    SameWraps(Wrap(v) + Wrap(term), v + d * w);
  }

  /** Digit i of s times the weight of its place. */
  function Term(s: bytes, i: nat): int
    requires i < |s|
  {
    (s[i] % 16) as int * Power(10, |s| - i - 1)
  }

  /** The first i digits of s, each with its weight in the whole of s. */
  function Placed(s: bytes, i: nat): int
    requires i <= |s|
  {
    if i == 0 then 0 else Placed(s, i - 1) + Term(s, i - 1)
  }

  lemma {:induction false} PlacedValue(s: bytes, i: nat)
    requires i <= |s|
    ensures Placed(s, i) == DecimalValue(s[..i]) * Power(10, |s| - i)
  {
    if i > 0 {
      PlacedValue(s, i - 1);
      assert s[..i][..i - 1] == s[..i - 1];
      PowerShift((s[i - 1] % 16) as int, DecimalValue(s[..i - 1]), |s| - i + 1);
    }
  }

  lemma AllPlaced(s: bytes)
    ensures Placed(s, |s|) == DecimalValue(s)
  {
    PlacedValue(s, |s|);
    assert s[..|s|] == s;
  }

  method AsciiToInt(bts: bytes) returns (r: Option<int>)
    ensures r == AsciiValue(bts)
  {
    var n := |bts|;
    if n < 1 {
      return None;
    }
    var ret := 0;
    for i := 0 to n
      invariant forall j :: 0 <= j < i ==> Digit(bts[j])
      invariant ret == Wrap(Placed(bts, i))
    {
      if !Digit(bts[i]) {
        assert bts[i] in bts;
        return None;
      }
      var d := (bts[i] % 16) as int;
      var w := Pow(10, n - i - 1);
      AddDigit(Placed(bts, i), d, Power(10, n - i - 1));
      ret := Wrap(ret + Wrap(d * w));
    }
    AllPlaced(bts);
    r := Some(ret);
  }

  /** The decimal digits of n. */
  function Decimals(n: nat): bytes
  {
    if n < 10 then [('0' as int + n) as byte] else Decimals(n / 10) + [('0' as int + n % 10) as byte]
  }

  lemma {:induction false} DecimalsRead(n: nat)
    ensures Decimals(n) != [] && DecimalValue(Decimals(n)) == n && forall c <- Decimals(n) :: Digit(c)
  {
    if n >= 10 {
      DecimalsRead(n / 10);
      assert Decimals(n)[..|Decimals(n)| - 1] == Decimals(n / 10);
    } else {
      assert Decimals(n)[..0] == [];
    }
  }

  /** A number written in decimal is read back, truncated to 64 bits; and nothing is read exactly of the empty text and of
      one with a byte that is neither a digit nor one of the six characters behind '9'. */
  lemma ReadsDecimals(n: nat, s: bytes)
    ensures AsciiValue(Decimals(n)) == Some(Wrap(n)) && (n < 0x8000_0000_0000_0000 ==> Wrap(n) == n)
    ensures AsciiValue(s).None? <==> s == [] || exists i :: 0 <= i < |s| && !('0' as int <= s[i] as int <= '9' as int + 6)
  {
    DecimalsRead(n);
    if forall i :: 0 <= i < |s| ==> Digit(s[i]) {
      assert forall c <- s :: Digit(c);
    }
  }
}
