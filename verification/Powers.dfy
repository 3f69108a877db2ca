/** Powers of two, division with remainder, and bitwise OR on naturals. */
module Powers {

  function Pow2(k: nat): (p: nat)
    ensures p > 0
  {
    if k == 0 then 1 else 2 * Pow2(k - 1)
  }

  lemma {:induction false} Pow2Add(a: nat, b: nat)
    ensures Pow2(a + b) == Pow2(a) * Pow2(b)
  {
    if a > 0 {
      Pow2Add(a - 1, b);
      assert Pow2(a + b) == 2 * Pow2(a - 1 + b);
      MulAssoc(2, Pow2(a - 1), Pow2(b));
    }
  }

  lemma {:induction false} Pow2Monotone(a: nat, b: nat)
    requires a <= b
    ensures Pow2(a) <= Pow2(b)
  {
    if a < b {
      Pow2Monotone(a, b - 1);
    }
  }

  lemma MulAssoc(a: int, b: int, c: int)
    ensures (a * b) * c == a * (b * c)
  {
  }

  lemma MulMonotone(a: int, b: int, c: int)
    requires a <= b && 0 <= c
    ensures a * c <= b * c && c * a <= c * b
  {
  }

  lemma MulStrict(a: int, b: int, c: int)
    requires a < b && 0 < c
    ensures a * c < b * c && c * a < c * b
    ensures a * c + c <= b * c
  {
    MulMonotone(a + 1, b, c);
    assert (a + 1) * c == a * c + c;
  }

  lemma Distribute(a: int, b: int, c: int)
    ensures (a + b) * c == a * c + b * c
    ensures (a - b) * c == a * c - b * c
    ensures c * (a + b) == c * a + c * b
    ensures c * (a - b) == c * a - c * b
  {
  }

  /** A product that the verifier does not multiply out on its own. */
  ghost function Times(a: int, b: int): int {
    if a <= 0 then 0 else b + Times(a - 1, b)
  }

  lemma {:induction false} TimesIsMul(a: int, b: int)
    requires 0 <= a
    ensures Times(a, b) == a * b
  {
    if a > 0 {
      TimesIsMul(a - 1, b);
      Distribute(a, 1, b);
    }
  }

  lemma TimesAdd(a: int, b: int, c: int)
    requires 0 <= a && 0 <= b
    ensures Times(a + b, c) == Times(a, c) + Times(b, c)
  {
    TimesIsMul(a, c);
    TimesIsMul(b, c);
    TimesIsMul(a + b, c);
    Distribute(a, b, c);
  }

  lemma {:induction false} TimesNonNegative(a: int, b: int)
    requires 0 <= b
    ensures 0 <= Times(a, b)
  {
    if a > 0 {
      TimesNonNegative(a - 1, b);
    }
  }

  /** Quotient and remainder are what division says they are. */
  lemma DivModUnique(x: int, m: int, q: int, r: int)
    requires 0 < m && x == q * m + r && 0 <= r < m
    ensures x / m == q && x % m == r
  {
    var d := x / m;
    assert x == d * m + x % m;
    Distribute(q, d, m);
    if d < q {
      MulMonotone(1, q - d, m);
    } else if d > q {
      MulMonotone(1, d - q, m);
      Distribute(d, q, m);
    }
  }

  lemma DivMod(x: int, m: int)
    requires 0 < m
    ensures x == x / m * m + x % m && 0 <= x % m < m
    ensures 0 <= x ==> 0 <= x / m
  {
    if 0 <= x && x / m < 0 {
      MulMonotone(x / m, -1, m);
    }
  }

  /** Bitwise OR, one bit at a time. */
  function BitOr(x: nat, y: nat): nat
    decreases x + y
  {
    if x == 0 && y == 0 then 0
    else (if x % 2 == 1 || y % 2 == 1 then 1 else 0) + 2 * BitOr(x / 2, y / 2)
  }

  lemma {:induction false} BitOrZero(y: nat)
    ensures BitOr(0, y) == y && BitOr(y, 0) == y
  {
    if y > 0 {
      BitOrZero(y / 2);
    }
  }

  lemma BitOrEven(x: nat, h: nat)
    ensures BitOr(x, 2 * h) == x % 2 + 2 * BitOr(x / 2, h)
    ensures BitOr(2 * h, x) == x % 2 + 2 * BitOr(h, x / 2)
  {
    assert 2 * h / 2 == h && 2 * h % 2 == 0;
  }

  /** OR adds when one side lies entirely below the other side's set bits. */
  lemma {:induction false} BitOrAdds(x: nat, y: nat, s: nat)
    requires x < Pow2(s)
    ensures BitOr(x, y * Pow2(s)) == x + y * Pow2(s)
    ensures BitOr(y * Pow2(s), x) == x + y * Pow2(s)
  {
    if s == 0 {
      BitOrZero(y);
    } else {
      BitOrAdds(x / 2, y, s - 1);
      BitOrEven(x, y * Pow2(s - 1));
      MulAssoc(2, y, Pow2(s - 1));
      MulAssoc(y, 2, Pow2(s - 1));
    }
  }
}
