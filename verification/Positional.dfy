/** Bytes, and positional notation: a number and its fixed-width big-endian digits in one base. */
module Positional {

  type Byte = x: nat | x < 256

  function Pow(base: nat, n: nat): nat {
    if n == 0 then 1 else base * Pow(base, n - 1)
  }

  predicate AllBelow(ds: seq<nat>, base: nat) {
    forall i :: 0 <= i < |ds| ==> ds[i] < base
  }

  function Value(ds: seq<nat>, base: nat): nat {
    if ds == [] then 0 else Value(ds[..|ds| - 1], base) * base + ds[|ds| - 1]
  }

  function Digits(v: nat, base: nat, n: nat): seq<nat>
    requires base > 0
    decreases n
  {
    if n == 0 then [] else Digits(v / base, base, n - 1) + [v % base]
  }

  // ----- the few facts about products the proofs need -----

  lemma MulMonotone(a: nat, b: nat, c: nat)
    requires a <= b
    ensures a * c <= b * c
  {
    assert (b - a) * c >= 0;
    assert (b - a) * c == b * c - a * c;
  }

  lemma QuotientUnique(q: nat, r: nat, x: nat, d: nat, base: nat)
    requires r < base && d < base && q * base + r == x * base + d
    ensures q == x && r == d
  {
    if q < x {
      MulMonotone(q + 1, x, base);
    } else if x < q {
      MulMonotone(x + 1, q, base);
    }
  }

  lemma DivModOf(x: nat, base: nat, d: nat)
    requires d < base
    ensures (x * base + d) / base == x && (x * base + d) % base == d
  {
    var v := x * base + d;
    QuotientUnique(v / base, v % base, x, d, base);
  }

  lemma DivIdentity(v: nat, base: nat)
    requires base > 0
    ensures (v / base) * base + v % base == v
  {
  }

  lemma DivBound(v: nat, base: nat, m: nat)
    requires base > 0 && v < base * m
    ensures v / base < m
  {
    if v / base >= m {
      MulMonotone(m, v / base, base);
    }
  }

  lemma Regroup(x: nat, p: nat, y: nat, base: nat, d: nat)
    ensures (x * p + y) * base + d == x * (base * p) + (y * base + d)
  {
    calc {
      (x * p + y) * base + d;
      (x * p) * base + y * base + d;
      { assert (x * p) * base == x * (base * p) by { MulAssoc(x, p, base); } }
      x * (base * p) + (y * base + d);
    }
  }

  lemma MulAssoc(x: nat, p: nat, base: nat)
    ensures (x * p) * base == x * (base * p)
  {
  }

  lemma NextBelow(x: nat, p: nat, base: nat, d: nat)
    requires x < p && d < base
    ensures x * base + d < base * p
  {
    MulMonotone(x + 1, p, base);
  }

  // ----- powers -----

  lemma {:induction false} PowSum(base: nat, m: nat, n: nat)
    ensures Pow(base, m + n) == Pow(base, m) * Pow(base, n)
  {
    if m > 0 {
      PowSum(base, m - 1, n);
      MulAssoc(base, Pow(base, m - 1), Pow(base, n));
      MulGroups(base, Pow(base, m - 1), Pow(base, n));
    }
  }

  lemma MulGroups(a: nat, b: nat, c: nat)
    ensures a * (b * c) == (a * b) * c
  {
  }

  /** A power of a power of two. */
  lemma {:induction false} PowOfTwo(base: nat, k: nat, n: nat)
    requires base == Pow(2, k)
    ensures Pow(base, n) == Pow(2, k * n)
    decreases n
  {
    if n > 0 {
      PowOfTwo(base, k, n - 1);
      assert k * n == k + k * (n - 1);
      PowSum(2, k, k * (n - 1));
    }
  }

  // ----- digits and values undo each other -----

  lemma {:induction false} DigitsShape(v: nat, base: nat, n: nat)
    requires base > 0
    ensures |Digits(v, base, n)| == n && AllBelow(Digits(v, base, n), base)
    decreases n
  {
    if n > 0 {
      DigitsShape(v / base, base, n - 1);
    }
  }

  /** Digits are recovered from the value. */
  lemma {:induction false} DigitsOfValue(ds: seq<nat>, base: nat)
    requires base > 0 && AllBelow(ds, base)
    ensures Digits(Value(ds, base), base, |ds|) == ds
  {
    if ds != [] {
      var init, d := ds[..|ds| - 1], ds[|ds| - 1];
      DigitsOfValue(init, base);
      DivModOf(Value(init, base), base, d);
      assert ds == init + [d];
    }
  }

  lemma {:induction false} ValueBound(ds: seq<nat>, base: nat)
    requires base > 0 && AllBelow(ds, base)
    ensures Value(ds, base) < Pow(base, |ds|)
  {
    if ds != [] {
      var init := ds[..|ds| - 1];
      ValueBound(init, base);
      NextBelow(Value(init, base), Pow(base, |ds| - 1), base, ds[|ds| - 1]);
    }
  }

  /** The value is recovered from enough digits. */
  lemma {:induction false} ValueOfDigits(v: nat, base: nat, n: nat)
    requires base > 0 && v < Pow(base, n)
    ensures Value(Digits(v, base, n), base) == v
    decreases n
  {
    if n > 0 {
      DivBound(v, base, Pow(base, n - 1));
      ValueOfDigits(v / base, base, n - 1);
      DigitsShape(v / base, base, n - 1);
      var ds := Digits(v, base, n);
      assert ds[..n - 1] == Digits(v / base, base, n - 1);
      DivIdentity(v, base);
    }
  }

  lemma {:induction false} ValueOfConcat(a: seq<nat>, b: seq<nat>, base: nat)
    ensures Value(a + b, base) == Value(a, base) * Pow(base, |b|) + Value(b, base)
  {
    if b == [] {
      assert a + b == a;
    } else {
      var init, d := b[..|b| - 1], b[|b| - 1];
      assert (a + b)[..|a + b| - 1] == a + init;
      ValueOfConcat(a, init, base);
      Regroup(Value(a, base), Pow(base, |b| - 1), Value(init, base), base, d);
    }
  }

  lemma NoRemainder(x: nat, p: nat, d: nat, v: nat)
    requires d < p && v == x * p + d && v % p == 0
    ensures x * p == v
  {
    DivModOf(x, p, d);
  }

  /** If the last p digits carry nothing, the rest carry the whole value. */
  lemma LowDigitsZero(ds: seq<nat>, p: nat, base: nat)
    requires base > 0 && AllBelow(ds, base) && p <= |ds|
    requires Pow(base, p) > 0 && Value(ds, base) % Pow(base, p) == 0
    ensures Value(ds[..|ds| - p], base) * Pow(base, p) == Value(ds, base)
  {
    var hi, lo := ds[..|ds| - p], ds[|ds| - p..];
    assert ds == hi + lo;
    ValueOfConcat(hi, lo, base);
    ValueBound(lo, base);
    NoRemainder(Value(hi, base), Pow(base, p), Value(lo, base), Value(ds, base));
  }
}
