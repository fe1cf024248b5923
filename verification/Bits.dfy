/** Machine words as their bits, least significant first, and the bitwise operations of the codecs. */
module Bits {
  import opened Bytes

  type bits = seq<bool>

  function Pow2(k: nat): (r: nat)
    ensures r > 0
  {
    if k == 0 then 1 else 2 * Pow2(k - 1)
  }

  /** The low k bits of n. */
  function ToBits(n: nat, k: nat): (r: bits)
    ensures |r| == k
  {
    if k == 0 then [] else [n % 2 == 1] + ToBits(n / 2, k - 1)
  }

  function FromBits(s: bits): nat
  {
    if s == [] then 0 else (if s[0] then 1 else 0) + 2 * FromBits(s[1..])
  }

  lemma {:induction false} FromTo(n: nat, k: nat)
    requires n < Pow2(k)
    ensures FromBits(ToBits(n, k)) == n
    decreases k
  {
    if k > 0 {
      FromTo(n / 2, k - 1);
      assert ToBits(n, k)[1..] == ToBits(n / 2, k - 1);
    }
  }

  lemma {:induction false} ToFrom(s: bits)
    ensures FromBits(s) < Pow2(|s|) && ToBits(FromBits(s), |s|) == s
  {
    if s != [] {
      ToFrom(s[1..]);
      assert s == [s[0]] + s[1..];
    }
  }

  function XorBits(s: bits, t: bits): (r: bits)
    requires |s| == |t|
    ensures |r| == |s|
  {
    seq(|s|, i requires 0 <= i < |s| => s[i] != t[i])
  }

  /** The eight bits of a byte. */
  function Unpack8(b: byte): (r: bits)
    ensures |r| == 8
  {
    ToBits(b as nat, 8)
  }

  function Pack8(s: bits): byte
    requires |s| == 8
  {
    PackRange(s);
    FromBits(s) as byte
  }

  lemma PackRange(s: bits)
    requires |s| == 8
    ensures FromBits(s) < 256
  {
    ToFrom(s);
    Pow2Values();
  }

  lemma Pow2Values()
    ensures Pow2(3) == 8 && Pow2(4) == 16 && Pow2(7) == 128 && Pow2(8) == 256
  {
    assert Pow2(4) == 16;
    assert Pow2(8) == 16 * Pow2(4);
  }

  lemma PackUnpack(b: byte)
    ensures Pack8(Unpack8(b)) == b
  {
    Pow2Values();
    FromTo(b as nat, 8);
  }

  lemma UnpackPack(s: bits)
    requires |s| == 8
    ensures Unpack8(Pack8(s)) == s
  {
    ToFrom(s);
  }

  /** The `^` of two bytes. */
  function Xor(a: byte, b: byte): byte
  {
    Pack8(XorBits(Unpack8(a), Unpack8(b)))
  }

  lemma Halves(n: nat, m: nat)
    requires m > 0
    ensures n / 2 / m == n / (2 * m)
  {
    var q, r := n / 2 / m, n / 2 % m;
    assert n / 2 == q * m + r;
    assert n == q * (2 * m) + (2 * r + n % 2);
    DivUnique(n, 2 * m, q, 2 * r + n % 2);
  }

  /** The i-th binary digit of n, in arithmetic. */
  function Digit(n: nat, i: nat): (d: nat)
    ensures d < 2
  {
    n / Pow2(i) % 2
  }

  lemma {:induction false} BitOfNumber(n: nat, k: nat, i: nat)
    requires i < k
    ensures ToBits(n, k)[i] <==> Digit(n, i) == 1
    decreases k
  {
    if i > 0 {
      BitOfNumber(n / 2, k - 1, i - 1);
      NextDigit(n, i);
    }
  }

  /** The `^` of two bytes in arithmetic: each binary digit is the sum of theirs, modulo two. */
  lemma XorSum(a: byte, b: byte, i: nat)
    requires i < 8
    ensures Digit(Xor(a, b) as nat, i) == (Digit(a as nat, i) + Digit(b as nat, i)) % 2
  {
    UnpackPack(XorBits(Unpack8(a), Unpack8(b)));
    BitOfNumber(a as nat, 8, i);
    BitOfNumber(b as nat, 8, i);
    BitOfNumber(Xor(a, b) as nat, 8, i);
  }

  /** Zero changes nothing, and equal bytes cancel. */
  lemma XorZero(a: byte)
    ensures Xor(a, 0) == a && Xor(0, a) == a && Xor(a, a) == 0
  {
    var s, zero := Unpack8(a), Unpack8(0);
    assert forall i :: 0 <= i < 8 ==> !zero[i] by {
      forall i | 0 <= i < 8 ensures !zero[i] {
        BitOfNumber(0, 8, i);
      }
    }
    assert XorBits(s, zero) == s && XorBits(zero, s) == s && XorBits(s, s) == zero;
    PackUnpack(a);
    PackUnpack(0);
  }

  lemma XorTwice(a: byte, b: byte)
    ensures Xor(Xor(a, b), b) == a
  {
    var s, t := Unpack8(a), Unpack8(b);
    UnpackPack(XorBits(s, t));
    assert XorBits(XorBits(s, t), t) == s;
    PackUnpack(a);
  }

  /** The `|` of two naturals, bit by bit. */
  function Or(a: nat, b: nat): nat
    decreases a + b
  {
    if a == 0 && b == 0 then 0 else (if a % 2 == 1 || b % 2 == 1 then 1 else 0) + 2 * Or(a / 2, b / 2)
  }

  lemma {:induction false} OrZero(a: nat)
    ensures Or(a, 0) == a && Or(0, a) == a
  {
    if a > 0 {
      OrZero(a / 2);
    }
  }

  lemma {:induction false} OrBelow(a: nat, b: nat, k: nat)
    requires a < Pow2(k) && b < Pow2(k)
    ensures Or(a, b) < Pow2(k)
    decreases k
  {
    if k > 0 {
      OrBelow(a / 2, b / 2, k - 1);
    }
  }

  /** Disjoint bits add up. */
  lemma {:induction false} OrDisjoint(k: nat, x: nat, b: nat)
    requires b < Pow2(k)
    ensures Or(x * Pow2(k), b) == x * Pow2(k) + b && Or(b, x * Pow2(k)) == x * Pow2(k) + b
    decreases k
  {
    if k == 0 {
      OrZero(x);
    } else {
      var p := Pow2(k - 1);
      assert x * Pow2(k) == 2 * (x * p);
      OrDisjoint(k - 1, x, b / 2);
    }
  }

  lemma OrHalves(a: nat, b: nat)
    ensures Or(a, b) / 2 == Or(a / 2, b / 2) && (Or(a, b) % 2 == 1 <==> a % 2 == 1 || b % 2 == 1)
  {}

  lemma NextDigit(n: nat, i: nat)
    requires i > 0
    ensures Digit(n, i) == Digit(n / 2, i - 1)
  {
    Halves(n, Pow2(i - 1));
  }

  /** In arithmetic: each digit of `|` is set exactly when one of theirs is. */
  lemma {:induction false} OrEither(a: nat, b: nat, i: nat)
    ensures Digit(Or(a, b), i) == 1 <==> Digit(a, i) == 1 || Digit(b, i) == 1
    decreases i
  {
    OrHalves(a, b);
    if i > 0 {
      OrEither(a / 2, b / 2, i - 1);
      NextDigit(a, i);
      NextDigit(b, i);
      NextDigit(Or(a, b), i);
    }
  }
}
