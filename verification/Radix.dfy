/** Digit sequences in any base, most significant digit first. */
module Radix {
  import opened Powers

  function Pow(b: nat, n: nat): nat {
    if n == 0 then 1 else b * Pow(b, n - 1)
  }

  predicate Below(s: seq<int>, base: nat) {
    forall i :: 0 <= i < |s| ==> 0 <= s[i] < base
  }

  predicate AllZero(s: seq<int>) {
    forall i :: 0 <= i < |s| ==> s[i] == 0
  }

  /** The number a digit sequence stands for. */
  function Value(s: seq<int>, base: nat): int {
    if s == [] then 0 else Value(s[..|s| - 1], base) * base + s[|s| - 1]
  }

  /** The digits of a number without leading zeroes; none for zero. */
  function Digits(n: nat, base: nat): seq<int>
    requires base > 1
  {
    if n == 0 then []
    else
      Shrinks(n, base);
      Digits(n / base, base) + [n % base]
  }

  predicate Canonical(s: seq<int>, base: nat) {
    Below(s, base) && (s != [] ==> s[0] != 0)
  }

  lemma PowPositive(b: nat, n: nat)
    requires b > 0
    ensures Pow(b, n) > 0
  {
    if n > 0 {
      PowPositive(b, n - 1);
      MulPositive(b, Pow(b, n - 1));
    }
  }

  lemma MulPositive(a: int, b: int)
    requires a > 0 && b > 0
    ensures a * b > 0
  {
  }

  lemma {:induction false} PowAdd(b: nat, m: nat, n: nat)
    ensures Pow(b, m + n) == Pow(b, m) * Pow(b, n)
  {
    if m > 0 {
      PowAdd(b, m - 1, n);
      assert Pow(b, m + n) == b * Pow(b, m - 1 + n);
      MulAssoc(b, Pow(b, m - 1), Pow(b, n));
    }
  }

  lemma {:induction false} PowMonotone(b: nat, m: nat, n: nat)
    requires b > 0 && m <= n
    ensures Pow(b, m) <= Pow(b, n)
  {
    if m < n {
      PowMonotone(b, m, n - 1);
      PowPositive(b, n - 1);
      MulMonotone(1, b, Pow(b, n - 1));
    }
  }

  /** A digit sequence stands for less than the power of its length. */
  lemma {:induction false} ValueBound(s: seq<int>, base: nat)
    requires Below(s, base)
    ensures 0 <= Value(s, base) < Pow(base, |s|)
  {
    if s != [] {
      var most := s[..|s| - 1];
      ValueBound(most, base);
      MulMonotone(Value(most, base) + 1, Pow(base, |most|), base);
      MulMonotone(0, Value(most, base), base);
      assert (Value(most, base) + 1) * base == Value(most, base) * base + base;
      assert Pow(base, |s|) == base * Pow(base, |most|);
    }
  }

  lemma ValueAppend(s: seq<int>, d: int, base: nat)
    ensures Value(s + [d], base) == Value(s, base) * base + d
  {
    assert (s + [d])[..|s|] == s;
  }

  lemma {:induction false} ZeroValue(s: seq<int>, base: nat)
    requires AllZero(s)
    ensures Value(s, base) == 0
  {
    if s != [] {
      ZeroValue(s[..|s| - 1], base);
    }
  }

  /** Leading zeroes do not count. */
  lemma {:induction false} ValueSkips(z: seq<int>, s: seq<int>, base: nat)
    requires AllZero(z)
    ensures Value(z + s, base) == Value(s, base)
  {
    if s == [] {
      assert z + s == z;
      ZeroValue(z, base);
    } else {
      ValueSkips(z, s[..|s| - 1], base);
      assert (z + s)[..|z + s| - 1] == z + s[..|s| - 1];
    }
  }

  lemma {:induction false} DigitsMean(n: nat, base: nat)
    requires base > 1
    ensures Canonical(Digits(n, base), base) && Value(Digits(n, base), base) == n
    decreases n
  {
    if n > 0 {
      Shrinks(n, base);
      var q, r := n / base, n % base;
      DivMod(n, base);
      DigitsMean(q, base);
      ValueAppend(Digits(q, base), r, base);
    }
  }

  lemma Shrinks(n: nat, base: nat)
    requires n > 0 && base > 1
    ensures 0 <= n / base < n
  {
    DivMod(n, base);
    MulMonotone(2, base, n / base);
  }

  /** A canonical sequence is the digits of its own value, so it is determined by it. */
  lemma {:induction false} CanonicalIsDigits(s: seq<int>, base: nat)
    requires base > 1 && Canonical(s, base)
    ensures Value(s, base) >= 0 && Digits(Value(s, base), base) == s
    ensures s != [] ==> Value(s, base) > 0
  {
    ValueBound(s, base);
    if s != [] {
      var most, last := s[..|s| - 1], s[|s| - 1];
      CanonicalIsDigits(most, base);
      ValueBound(most, base);
      DivModUnique(Value(s, base), base, Value(most, base), last);
      if most != [] {
        MulPositive(Value(most, base), base);
      } else {
        assert Value(most, base) * base == 0;
      }
      assert s == most + [last];
    }
  }
}
