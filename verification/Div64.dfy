/** base/src/div64.c and the do_div macro of include/utility/div64.h: 64 by 32 bit division by
    shifting and subtracting. */
module Div64 {
  import opened Division

  const TWO32: nat := 0x1_0000_0000
  const TWO63: nat := 0x8000_0000_0000_0000
  const TWO64: nat := 0x1_0000_0000_0000_0000

  predicate PowerOfTwo(d: nat) { d == 1 || (d > 0 && d % 2 == 0 && PowerOfTwo(d / 2)) }

  /** The first reduction: the high word is divided on its own. */
  method Reduce(n: nat, base: nat) returns (res: nat, rem: nat)
    requires 0 < base < TWO32 && n < TWO64
    ensures n == res * base + rem && rem <= n
  {
    rem := n;
    var high := rem / TWO32;
    assert high < TWO32;
    res := 0;
    if high >= base {
      ghost var whole := high;
      high := high / base;
      assert high * base <= whole < TWO32;
      res := high * TWO32;
      rem := rem - high * base * TWO32;
    }
  }

  /** The doubling loop: b and d keep their proportion, and no sum reaches 64 bits. */
  method Align(base: nat, rem: nat) returns (b: nat, d: nat)
    requires 0 < base < TWO32 && rem < TWO64
    ensures b == d * base && PowerOfTwo(d) && b < TWO64 && rem < 2 * b
  {
    b, d := base, 1;
    while 0 < b < TWO63 && b < rem
      invariant b == d * base && PowerOfTwo(d) && 0 < b < TWO64
      decreases TWO64 - b
    {
      b := b + b;
      assert (d + d) / 2 == d && (d + d) % 2 == 0;
      d := d + d;
    }
  }

  /** One round of the second loop, before the shifts. */
  lemma Subtract(n: nat, base: nat, res: nat, rem: nat, b: nat, d: nat)
    requires n == res * base + rem && b == d * base && b <= rem
    ensures n == (res + d) * base + (rem - b)
  {
  }

  lemma Halve(base: nat, b: nat, d: nat)
    requires b == d * base && PowerOfTwo(d) && d > 1
    ensures b / 2 == d / 2 * base && b == 2 * (b / 2) && PowerOfTwo(d / 2)
  {
    assert d == 2 * (d / 2);
    assert b == 2 * (d / 2 * base);
  }

  lemma QuotientFits(n: nat, base: nat, res: nat, rem: nat)
    requires base > 0 && n == res * base + rem
    ensures res <= n
  {
  }

  /** What the second loop keeps: b is d times the base, and what remains is below twice b. */
  predicate Aligned(n: nat, base: nat, res: nat, rem: nat, b: nat, d: nat) {
    n == res * base + rem && b == d * base && PowerOfTwo(d) && rem < 2 * b
  }

  /** One round of the second loop: res never exceeds n, so no sum reaches 64 bits. */
  method Round(n: nat, base: nat, res: nat, rem: nat, b: nat, d: nat)
    returns (res': nat, rem': nat, b': nat, d': nat)
    requires base > 0 && Aligned(n, base, res, rem, b, d)
    ensures d' == d / 2 && res' <= n
    ensures if d' > 0 then Aligned(n, base, res', rem', b', d') else n == res' * base + rem' && rem' < base
  {
    res', rem' := res, rem;
    if rem' >= b {
      Subtract(n, base, res, rem, b, d);
      rem' := rem' - b;
      res' := res' + d;
    }
    QuotientFits(n, base, res', rem');
    if d > 1 {
      Halve(base, b, d);
    }
    b' := b / 2;
    d' := d / 2;
  }

  /** __div64_32: the quotient replaces n, the remainder is returned. */
  method Div6432(n: nat, base: nat) returns (res: nat, rem: nat)
    requires 0 < base < TWO32 && n < TWO64
    ensures res == n / base && rem == n % base
  {
    res, rem := Reduce(n, base);
    var b, d := Align(base, rem);
    res, rem, b, d := Round(n, base, res, rem, b, d);
    while d != 0
      invariant 0 <= d
      invariant if d > 0 then Aligned(n, base, res, rem, b, d) else n == res * base + rem && rem < base
      decreases d
    {
      res, rem, b, d := Round(n, base, res, rem, b, d);
    }
    assert res * base == base * res;
    DivModUnique(n, base, res, rem);
  }

  /** do_div: numbers that fit 32 bits are divided directly. */
  method DoDiv(n: nat, base: nat) returns (quotient: nat, rem: nat)
    requires 0 < base < TWO32 && n < TWO64
    ensures quotient == n / base && rem == n % base
    ensures n == quotient * base + rem && rem < base
  {
    if n / TWO32 == 0 {
      rem := n % TWO32 % base;
      quotient := n % TWO32 / base;
    } else {
      quotient, rem := Div6432(n, base);
    }
  }
}
