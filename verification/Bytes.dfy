/** Bytes, the big-endian integers of Go's `encoding/binary`, and the option type every module shares. */
module Bytes {

  newtype byte = x: int | 0 <= x < 256

  type bytes = seq<byte>

  datatype Option<+T> = None | Some(value: T)

  function Min(a: int, b: int): (r: int)
    ensures r <= a && r <= b && (r == a || r == b)
  {
    if a < b then a else b
  }

  /** 256 to the power k: one more than the largest value k bytes can hold. */
  function Radix(k: nat): (r: nat)
    ensures r > 0
  {
    if k == 0 then 1 else 256 * Radix(k - 1)
  }

  /** The low k bytes of n, most significant first (`PutUint16`, `PutUint32`, `PutUint64` after truncation). */
  function PutUint(n: nat, k: nat): (r: bytes)
    ensures |r| == k
  {
    if k == 0 then [] else PutUint(n / 256, k - 1) + [(n % 256) as byte]
  }

  /** The value of a big-endian byte string (`Uint16`, `Uint32`, `Uint64`). */
  function GetUint(b: bytes): nat
  {
    if b == [] then 0 else GetUint(b[..|b| - 1]) * 256 + b[|b| - 1] as nat
  }

  lemma ModUnique(n: nat, m: nat, a: nat, c: nat)
    requires n == a * m + c && c < m
    ensures n % m == c
  {
    var d := n / m - a;
    assert d * m == c - n % m by { assert n == (n / m) * m + n % m; }
    assert d == 0 by {
      assert d >= 1 ==> d * m >= m;
      assert d <= -1 ==> -d * m >= m;
    }
  }

  lemma ModSplit(n: nat, e: nat)
    requires e > 0
    ensures n % (256 * e) == (n / 256 % e) * 256 + n % 256
  {
    var q := n / 256;
    assert n == (q / e) * (256 * e) + ((q % e) * 256 + n % 256) by {
      assert q == (q / e) * e + q % e;
      assert n == q * 256 + n % 256;
    }
    ModUnique(n, 256 * e, q / e, (q % e) * 256 + n % 256);
  }

  lemma DivUnique(n: nat, m: nat, a: nat, c: nat)
    requires n == a * m + c && c < m
    ensures n / m == a
  {
    ModUnique(n, m, a, c);
    assert n == (n / m) * m + n % m;
    assert (n / m - a) * m == 0;
  }

  lemma ShiftByte(g: nat, r: nat, c: nat, x: nat)
    ensures (g * r + c) * 256 + x == g * (256 * r) + (c * 256 + x)
  {
    assert g * r * 256 == g * (256 * r);
  }

  /** Big-endian: the value of two strings, one behind the other, and of one byte. */
  lemma {:induction false} Positional(a: bytes, b: bytes, x: byte)
    ensures GetUint(a + b) == GetUint(a) * Radix(|b|) + GetUint(b) && GetUint([x]) == x as nat
  {
    assert [x][..0] == [];
    if b == [] {
      assert a + b == a;
    } else {
      var c := b[..|b| - 1];
      Positional(a, c, x);
      assert (a + b)[..|a + b| - 1] == a + c && (a + b)[|a + b| - 1] == b[|b| - 1];
      ShiftByte(GetUint(a), Radix(|c|), GetUint(c), b[|b| - 1] as nat);
    }
  }

  /** Writing keeps n modulo 256^k, and reading gives exactly that value back. */
  lemma {:induction false} GetPut(n: nat, k: nat)
    ensures GetUint(PutUint(n, k)) == n % Radix(k)
  {
    if k == 0 {
    } else {
      GetPut(n / 256, k - 1);
      assert PutUint(n, k)[..k - 1] == PutUint(n / 256, k - 1);
      ModSplit(n, Radix(k - 1));
    }
  }

  /** Reading and writing back gives the same bytes. */
  lemma {:induction false} PutGet(b: bytes)
    ensures PutUint(GetUint(b), |b|) == b
  {
    if b != [] {
      PutGet(b[..|b| - 1]);
      assert b == b[..|b| - 1] + [b[|b| - 1]];
    }
  }

  lemma ModSmall(n: nat, m: nat)
    requires n < m
    ensures n % m == n
  {}

  lemma GetPutSmall(n: nat, k: nat)
    requires n < Radix(k)
    ensures GetUint(PutUint(n, k)) == n
  {
    GetPut(n, k);
    ModSmall(n, Radix(k));
  }

  lemma {:induction false} GetUintBound(b: bytes)
    ensures GetUint(b) < Radix(|b|)
  {
    if b != [] {
      GetUintBound(b[..|b| - 1]);
    }
  }

  /** A number of k bytes with the top bit clear is less than half of what k bytes can hold. */
  lemma {:induction false} TopBitClear(b: bytes)
    requires b != [] && b[0] < 0x80
    ensures 2 * GetUint(b) < Radix(|b|)
  {
    if |b| > 1 {
      TopBitClear(b[..|b| - 1]);
    }
  }

  /** The leading byte counts for at least its place value. */
  lemma {:induction false} LeadingByte(b: bytes)
    requires b != []
    ensures GetUint(b) >= b[0] as nat * Radix(|b| - 1)
  {
    if |b| > 1 {
      var a := b[..|b| - 1];
      LeadingByte(a);
      assert a[0] == b[0];
      assert b[0] as nat * Radix(|b| - 1) == 256 * (b[0] as nat * Radix(|a| - 1));
    }
  }

  lemma RadixValues()
    ensures Radix(2) == 0x1_0000 && Radix(4) == 0x1_0000_0000
    ensures Radix(7) == 0x100_0000_0000_0000 && Radix(8) == 0x1_0000_0000_0000_0000
  {
    assert Radix(4) == 256 * 256 * Radix(2);
    assert Radix(6) == 256 * 256 * Radix(4);
    assert Radix(8) == 256 * 256 * Radix(6);
  }

  /** Text in ASCII. */
  function Ascii(s: string): (r: bytes)
    ensures |r| == |s| && forall i :: 0 <= i < |r| ==> r[i] < 0x80
  {
    seq(|s|, i requires 0 <= i < |s| => (s[i] as int % 128) as byte)
  }

  /** The join of a list of byte strings. */
  function Concat(parts: seq<bytes>): bytes
  {
    if parts == [] then [] else parts[0] + Concat(parts[1..])
  }

  lemma {:induction false} ConcatAppend(a: seq<bytes>, b: seq<bytes>)
    ensures Concat(a + b) == Concat(a) + Concat(b)
  {
    if a == [] {
      assert a + b == b;
    } else {
      assert (a + b)[1..] == a[1..] + b;
      ConcatAppend(a[1..], b);
    }
  }
}
