/** Byte strings read as little-endian numbers, and byte-order reversal. */
module Bytes {

  /** One octet of a buffer. */
  type Byte = b: int | 0 <= b < 256

  /** 256 to the power n: how many distinct values n bytes can hold. */
  function Pow256(n: nat): (r: nat)
    ensures r > 0
  {
    if n == 0 then 1 else 256 * Pow256(n - 1)
  }

  /** Byte i of u in positional notation: bits [8i, 8i+8) of u. */
  function Digit(u: nat, i: nat): (r: Byte)
  {
    (u / Pow256(i)) % 256
  }

  /** The n-byte little-endian layout of u, least significant byte first. */
  function LeBytes(n: nat, u: nat): (r: seq<Byte>)
    ensures |r| == n
  {
    if n == 0 then [] else [u % 256] + LeBytes(n - 1, u / 256)
  }

  /** The number a little-endian byte string denotes. */
  function LeValue(bs: seq<Byte>): (r: nat)
    ensures r < Pow256(|bs|)
  {
    if |bs| == 0 then 0 else bs[0] + 256 * LeValue(bs[1..])
  }

  /** The elements of s in the opposite order. */
  function Reverse<T>(s: seq<T>): (r: seq<T>)
    ensures |r| == |s|
    ensures forall i :: 0 <= i < |s| ==> r[i] == s[|s| - 1 - i]
  {
    if |s| == 0 then [] else Reverse(s[1..]) + [s[0]]
  }

  /** Reversing twice gives back the original sequence. */
  lemma ReverseReverse<T>(s: seq<T>)
    ensures Reverse(Reverse(s)) == s
  {
    var r := Reverse(Reverse(s));
    assert |r| == |s|;
    forall i | 0 <= i < |s|
      ensures r[i] == s[i]
    {
      assert r[i] == Reverse(s)[|s| - 1 - i];
    }
  }

  /** A sequence of at most one element is its own reverse. */
  lemma ReverseShort<T>(s: seq<T>)
    ensures |s| <= 1 ==> Reverse(s) == s
  {
  }

  /** Multiplying by a natural number preserves order. */
  lemma {:induction false} MulMonotone(c: nat, x: nat, y: nat)
    requires x <= y
    ensures c * x <= c * y
  {
    if x < y {
      MulMonotone(c, x, y - 1);
      assert c * y == c * (y - 1) + c;
    }
  }

  /** Uniqueness of quotient and remainder: if u = d*q + m with 0 <= m < d then
      u / d = q and u % d = m. */
  lemma DivUnique(u: nat, d: nat, q: nat, m: nat)
    requires d > 0
    requires m < d
    requires u == d * q + m
    ensures u / d == q
    ensures u % d == m
  {
    var q' := u / d;
    var m' := u % d;
    assert u == d * q' + m';
    if q' < q {
      MulMonotone(d, q' + 1, q);
      assert false;
    } else if q' > q {
      MulMonotone(d, q + 1, q');
      assert false;
    }
  }

  /** The distributive step behind `DivDiv`. */
  lemma MulSplit(a: nat, b: nat, q2: nat, r2: nat)
    ensures a * (b * q2 + r2) == (a * b) * q2 + a * r2
  {
  }

  /** The remainder bound behind `DivDiv`. */
  lemma RemainderBound(a: nat, b: nat, r: nat, r2: nat)
    requires r < a && r2 < b
    ensures a * r2 + r < a * b
  {
    MulMonotone(a, r2, b - 1);
    assert a * (b - 1) == a * b - a;
  }

  /** `DivDiv` with the quotients and remainders named: a number that is q
      times a plus r, where q is q2 times b plus r2, has quotient q2 by a*b. */
  lemma NestedQuotient(u: nat, a: nat, b: nat, q: nat, r: nat, q2: nat, r2: nat)
    requires a > 0 && b > 0
    requires u == a * q + r && r < a
    requires q == b * q2 + r2 && r2 < b
    ensures u / (a * b) == q2
  {
    MulSplit(a, b, q2, r2);
    RemainderBound(a, b, r, r2);
    DivUnique(u, a * b, q2, a * r2 + r);
  }

  /** Dividing by a, then by b, is dividing by a*b. */
  lemma DivDiv(u: nat, a: nat, b: nat)
    requires a > 0 && b > 0
    ensures u / a / b == u / (a * b)
  {
    NestedQuotient(u, a, b, u / a, u % a, u / a / b, (u / a) % b);
  }

  /** Byte i of the little-endian layout of u is bits [8i, 8i+8) of u. */
  lemma {:induction false} LeBytesDigit(n: nat, u: nat, i: nat)
    requires i < n
    ensures LeBytes(n, u)[i] == Digit(u, i)
  {
    if i > 0 {
      LeBytesDigit(n - 1, u / 256, i - 1);
      DivDiv(u, 256, Pow256(i - 1));
    }
  }

  /** Every byte string is the layout of the number it denotes. */
  lemma {:induction false} LeBytesOfLeValue(bs: seq<Byte>)
    ensures LeBytes(|bs|, LeValue(bs)) == bs
  {
    if |bs| > 0 {
      var rest := LeValue(bs[1..]);
      DivUnique(LeValue(bs), 256, rest, bs[0]);
      LeBytesOfLeValue(bs[1..]);
      assert bs == [bs[0]] + bs[1..];
    }
  }

  /** Every number below 256^n is denoted by its n-byte layout. */
  lemma {:induction false} LeValueOfLeBytes(n: nat, u: nat)
    requires u < Pow256(n)
    ensures LeValue(LeBytes(n, u)) == u
  {
    if n > 0 {
      var bs := LeBytes(n, u);
      assert bs[1..] == LeBytes(n - 1, u / 256);
      LeValueOfLeBytes(n - 1, u / 256);
    }
  }

  /** Two byte strings of the same length that denote the same number are equal. */
  lemma LeValueInjective(a: seq<Byte>, b: seq<Byte>)
    requires |a| == |b|
    requires LeValue(a) == LeValue(b)
    ensures a == b
  {
    LeBytesOfLeValue(a);
    LeBytesOfLeValue(b);
  }
}
