// Bit masks on non-negative integers, and fixed-width integers as bytes in
// either byte order.
module Bits {

  function Pow2(k: nat): (r: nat)
    ensures r > 0
  {
    if k == 0 then 1 else 2 * Pow2(k - 1)
  }

  ghost predicate IsPow2(n: nat) {
    exists k: nat :: n == Pow2(k)
  }

  // x & y, bit by bit.
  function And(x: nat, y: nat): nat {
    if x == 0 then 0 else (x % 2) * (y % 2) + 2 * And(x / 2, y / 2)
  }

  // x & ~y, bit by bit.
  function AndNot(x: nat, y: nat): nat {
    if x == 0 then 0 else (x % 2) * (1 - y % 2) + 2 * AndNot(x / 2, y / 2)
  }

  lemma HalveMask(k: nat)
    requires k > 0
    ensures (Pow2(k) - 1) % 2 == 1
    ensures (Pow2(k) - 1) / 2 == Pow2(k - 1) - 1
  {
  }

  lemma ModHalf(x: nat, m: nat)
    requires m > 0
    ensures x % (2 * m) == x % 2 + 2 * ((x / 2) % m)
  {
    var q, r := (x / 2) / m, (x / 2) % m;
    assert x / 2 == q * m + r;
    assert x == (2 * m) * q + (x % 2 + 2 * r);
    DivModUnique(x, 2 * m, q, x % 2 + 2 * r);
  }

  lemma DivModUnique(x: int, d: nat, q: int, r: nat)
    requires d > 0
    requires x == d * q + r && r < d
    ensures x / d == q && x % d == r
  {
    var q' := x / d;
    if q' < q {
      MulMonotone(d, q', q - 1);
    } else if q' > q {
      MulMonotone(d, q + 1, q');
    }
  }

  lemma MulMonotone(d: nat, a: int, b: int)
    requires a <= b
    ensures d * a <= d * b
  {
  }

  // Masking with 2^k - 1 takes the remainder modulo 2^k ...
  lemma {:induction false} AndMask(x: nat, k: nat)
    ensures And(x, Pow2(k) - 1) == x % Pow2(k)
  {
    if x == 0 {
      DivModUnique(0, Pow2(k), 0, 0);
    } else if k == 0 {
      AndZero(x);
    } else {
      HalveMask(k);
      AndMask(x / 2, k - 1);
      ModHalf(x, Pow2(k - 1));
    }
  }

  lemma AndZero(x: nat)
    ensures And(x, 0) == 0
  {
  }

  // ... and masking with its complement takes it away.
  lemma {:induction false} AndNotMask(x: nat, k: nat)
    ensures AndNot(x, Pow2(k) - 1) == x - x % Pow2(k)
  {
    if x == 0 {
      DivModUnique(0, Pow2(k), 0, 0);
    } else if k == 0 {
      AndNotZero(x);
    } else {
      HalveMask(k);
      AndNotMask(x / 2, k - 1);
      ModHalf(x, Pow2(k - 1));
    }
  }

  lemma AndNotZero(x: nat)
    ensures AndNot(x, 0) == x
  {
  }

  // (v + (alignment - 1)) & ~(alignment - 1)
  function Align(v: nat, alignment: nat): nat
    requires alignment > 0
  {
    AndNot(v + (alignment - 1), alignment - 1)
  }

  // For a power of two, Align rounds up to the least multiple.
  lemma AlignRoundsUp(v: nat, a: nat)
    requires IsPow2(a)
    ensures a > 0
    ensures Align(v, a) % a == 0
    ensures v <= Align(v, a) < v + a
    ensures v > 0 ==> Align(v, a) >= a
  {
    var k: nat :| a == Pow2(k);
    var x := v + (a - 1);
    AndNotMask(x, k);
    MultipleBelow(x, a);
  }

  lemma MultipleBelow(x: nat, a: nat)
    requires a > 0
    ensures (x - x % a) % a == 0
    ensures x >= a ==> x - x % a >= a
  {
    DivModUnique(x - x % a, a, x / a, 0);
    if x >= a {
      MulMonotone(a, 1, x / a);
    }
  }

  // No multiple of a lies between v and Align(v, a).
  lemma AlignIsLeast(v: nat, a: nat, m: nat)
    requires IsPow2(a) && a > 0
    requires m % a == 0 && v <= m
    ensures Align(v, a) <= m
  {
    AlignRoundsUp(v, a);
    MultiplesApart(Align(v, a), m, a);
  }

  // Two distinct multiples of a differ by at least a.
  lemma MultiplesApart(x: nat, y: nat, a: nat)
    requires a > 0 && x % a == 0 && y % a == 0
    ensures y < x ==> y + a <= x
  {
    var p, q := x / a, y / a;
    if p <= q {
      MulMonotone(a, p, q);
    } else {
      MulMonotone(a, q, p - 1);
    }
  }
}

module Endian {
  import opened Common

  type Byte = x: int | 0 <= x < 256

  function Pow256(n: nat): (r: nat)
    ensures r > 0
  {
    if n == 0 then 1 else 256 * Pow256(n - 1)
  }

  // The value of bytes, most significant first.
  function Value(bs: seq<Byte>): nat {
    if bs == [] then 0 else 256 * Value(bs[..|bs| - 1]) + bs[|bs| - 1]
  }

  function Digits(v: nat, n: nat): (bs: seq<Byte>)
    ensures |bs| == n
  {
    if n == 0 then [] else Digits(v / 256, n - 1) + [v % 256]
  }

  // n bytes in target order holding v (modulo 2^(8n)).
  function Encode(v: nat, n: nat, little: bool): (bs: seq<Byte>)
    ensures |bs| == n
  {
    if little then Reversed(Digits(v, n)) else Digits(v, n)
  }

  function Decode(bs: seq<Byte>, little: bool): nat {
    if little then Value(Reversed(bs)) else Value(bs)
  }

  lemma {:induction false} ValueOfDigits(v: nat, n: nat)
    requires v < Pow256(n)
    ensures Value(Digits(v, n)) == v
  {
    if n > 0 {
      ValueOfDigits(v / 256, n - 1);
      assert Digits(v, n)[..n - 1] == Digits(v / 256, n - 1);
    }
  }

  lemma DecodeEncode(v: nat, n: nat, little: bool)
    requires v < Pow256(n)
    ensures Decode(Encode(v, n, little), little) == v
  {
    ValueOfDigits(v, n);
    assert Reversed(Reversed(Digits(v, n))) == Digits(v, n);
  }

  // Reading shifts the value left by one byte and ors in the next.
  method ReadValue(bytes: seq<Byte>, little: bool) returns (v: nat)
    ensures v == Decode(bytes, little)
  {
    var vs := bytes;
    if little {
      vs := Reversed(vs);
    }
    v := 0;
    for i := 0 to |vs|
      invariant v == Value(vs[..i])
    {
      assert vs[..i + 1][..i] == vs[..i];
      v := v * 256 + vs[i];
    }
    assert vs[..|vs|] == vs;
  }
}
