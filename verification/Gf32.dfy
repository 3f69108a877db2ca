/** Bitwise XOR on naturals, the field GF(32) on top of it, and polynomials over
    that field modulo the Bech32 generator (section "Checksum" of BIP 173). */
module Gf32 {
  import opened Powers

  type symbol = x: int | 0 <= x < 32

  // ----- XOR -----

  function Xor(x: nat, y: nat): nat
    decreases x + y
  {
    if x == 0 && y == 0 then 0 else (x + y) % 2 + 2 * Xor(x / 2, y / 2)
  }

  lemma {:induction false} XorComm(x: nat, y: nat)
    ensures Xor(x, y) == Xor(y, x)
    decreases x + y
  {
    if x + y > 0 {
      XorComm(x / 2, y / 2);
    }
  }

  lemma {:induction false} XorHalves(x: nat, y: nat)
    ensures Xor(x, y) % 2 == (x + y) % 2 && Xor(x, y) / 2 == Xor(x / 2, y / 2)
  {
    Halves((x + y) % 2, Xor(x / 2, y / 2));
  }

  lemma Halves(b: nat, h: nat)
    requires b < 2
    ensures (b + 2 * h) % 2 == b && (b + 2 * h) / 2 == h
  {
  }

  lemma {:induction false} XorAssoc(x: nat, y: nat, z: nat)
    ensures Xor(Xor(x, y), z) == Xor(x, Xor(y, z))
    decreases x + y + z
  {
    if x + y + z > 0 {
      XorAssoc(x / 2, y / 2, z / 2);
      XorHalves(x, y);
      XorHalves(y, z);
      XorHalves(Xor(x, y), z);
      XorHalves(x, Xor(y, z));
      SameBits(Xor(Xor(x, y), z), Xor(x, Xor(y, z)), Xor(x, y), Xor(y, z), x, y, z);
    }
  }

  lemma SameBits(a: nat, b: nat, p: nat, q: nat, x: nat, y: nat, z: nat)
    requires a / 2 == b / 2 && p % 2 == (x + y) % 2 && q % 2 == (y + z) % 2
    requires a % 2 == (p + z) % 2 && b % 2 == (x + q) % 2
    ensures a == b
  {
  }

  lemma {:induction false} XorZero(x: nat)
    ensures Xor(x, 0) == x && Xor(0, x) == x && Xor(x, x) == 0
  {
    if x > 0 {
      XorZero(x / 2);
    }
  }

  lemma {:induction false} XorBound(x: nat, y: nat, k: nat)
    requires x < Pow2(k) && y < Pow2(k)
    ensures Xor(x, y) < Pow2(k)
    decreases k
  {
    if k > 0 {
      XorBound(x / 2, y / 2, k - 1);
    }
  }

  lemma {:induction false} XorLift(a: nat, b: nat, c: nat, d: nat, e: nat)
    requires Xor(a + b / 2, c + d / 2) == e + Xor(b / 2, d / 2)
    ensures Xor(2 * a + b, 2 * c + d) == 2 * e + Xor(b, d)
  {
    assert (2 * a + b) / 2 == a + b / 2 && (2 * c + d) / 2 == c + d / 2;
    XorHalves(2 * a + b, 2 * c + d);
    XorHalves(b, d);
    LiftBits(Xor(2 * a + b, 2 * c + d), Xor(b, d), a, b, c, d, e, Xor(b / 2, d / 2));
  }

  lemma LiftBits(x: nat, y: nat, a: nat, b: nat, c: nat, d: nat, e: nat, f: nat)
    requires x / 2 == e + f && y / 2 == f && x % 2 == (2 * a + b + (2 * c + d)) % 2 && y % 2 == (b + d) % 2
    ensures x == 2 * e + y
  {
  }

  function ShiftLeft(a: nat, k: nat): nat {
    if k == 0 then a else 2 * ShiftLeft(a, k - 1)
  }

  /** XOR works on the bits below and above any place separately. */
  lemma {:induction false} XorConcat(a: nat, b: nat, c: nat, d: nat, k: nat)
    requires b < Pow2(k) && d < Pow2(k)
    ensures Xor(ShiftLeft(a, k) + b, ShiftLeft(c, k) + d) == ShiftLeft(Xor(a, c), k) + Xor(b, d)
    decreases k
  {
    if k == 0 {
      XorZero(0);
    } else {
      XorConcat(a, b / 2, c, d / 2, k - 1);
      XorLift(ShiftLeft(a, k - 1), b, ShiftLeft(c, k - 1), d, ShiftLeft(Xor(a, c), k - 1));
    }
  }

  lemma ShiftFive(a: nat)
    ensures ShiftLeft(a, 5) == 32 * a
  {
    assert ShiftLeft(a, 1) == 2 * a;
    assert ShiftLeft(a, 2) == 4 * a;
    assert ShiftLeft(a, 3) == 8 * a;
    assert ShiftLeft(a, 4) == 16 * a;
  }

  lemma {:induction false} XorGroups(a: nat, b: symbol, c: nat, d: symbol)
    ensures Xor(32 * a + b, 32 * c + d) == 32 * Xor(a, c) + Xor(b, d)
  {
    assert Pow2(5) == 32;
    XorConcat(a, b, c, d, 5);
    ShiftFive(a);
    ShiftFive(c);
    ShiftFive(Xor(a, c));
  }

  /** Equal XORs with a common part have equal other parts. */
  lemma {:induction false} XorCancel(x: nat, y: nat, z: nat)
    requires Xor(x, z) == Xor(y, z)
    ensures x == y
  {
    XorAssoc(x, z, z);
    XorAssoc(y, z, z);
    XorZero(z);
    XorZero(x);
    XorZero(y);
  }

  lemma {:induction false} XorPairs(p: nat, q: nat, r: nat, s: nat)
    ensures Xor(Xor(p, q), Xor(r, s)) == Xor(Xor(p, r), Xor(q, s))
  {
    XorAssoc(p, q, Xor(r, s));
    XorAssoc(q, r, s);
    XorComm(q, r);
    XorAssoc(r, q, s);
    XorAssoc(p, r, Xor(q, s));
  }

  // ----- The field -----

  function Plus(x: symbol, y: symbol): symbol {
    assert Pow2(5) == 32;
    XorBound(x, y, 5);
    Xor(x, y)
  }

  /** Multiplication by the primitive element, modulo a^5 + a^3 + 1. */
  function Double(x: symbol): symbol {
    if x < 16 then 2 * x else Plus(2 * x - 32, 9)
  }

  function Low(x: symbol, y: nat): symbol {
    if y % 2 == 1 then x else 0
  }

  /** Multiplication, bit by bit of the second factor. */
  function Mul(x: symbol, y: nat): symbol
    decreases y
  {
    if y == 0 then 0 else Plus(Low(x, y), Mul(Double(x), y / 2))
  }

  lemma {:induction false} MulUnfold(x: symbol, y: nat)
    ensures Mul(x, y) == Plus(Low(x, y), Mul(Double(x), y / 2))
  {
    XorZero(0);
  }

  lemma {:induction false} LowLinear(x: symbol, y: nat, z: nat, w: nat)
    requires w % 2 == (y + z) % 2
    ensures Low(x, w) == Plus(Low(x, y), Low(x, z))
  {
    XorZero(x);
    XorZero(0);
  }

  lemma {:induction false} MulLinear(x: symbol, y: nat, z: nat)
    ensures Mul(x, Xor(y, z)) == Plus(Mul(x, y), Mul(x, z))
    decreases y + z
  {
    if y + z == 0 {
      XorZero(0);
    } else {
      var w := Xor(y, z);
      XorHalves(y, z);
      MulLinear(Double(x), y / 2, z / 2);
      MulUnfold(x, y);
      MulUnfold(x, z);
      MulUnfold(x, w);
      LowLinear(x, y, z, w);
      XorPairs(Low(x, y), Low(x, z), Mul(Double(x), y / 2), Mul(Double(x), z / 2));
    }
  }

  lemma MulZero(x: symbol)
    ensures Mul(x, 0) == 0 && Plus(x, 0) == x && Plus(0, x) == x && Plus(x, x) == 0
  {
    XorZero(x);
  }

  /** 18 times the powers of the primitive element. */
  lemma {:induction false} Doubles18()
    ensures Double(18) == 13 && Double(13) == 26 && Double(26) == 29 && Double(29) == 19
  {
    XorZero(1);
    assert Xor(1, 2) == 3 && Xor(2, 1) == 3 && Xor(3, 1) == 2;
    assert Xor(2, 4) == 6 && Xor(5, 2) == 7 && Xor(6, 2) == 4;
    assert Xor(10, 4) == 14 && Xor(13, 4) == 9;
    assert Xor(4, 9) == 13 && Xor(20, 9) == 29 && Xor(26, 9) == 19;
  }

  lemma {:induction false} OtherDoubles()
    ensures Double(19) == 15 && Double(30) == 21 && Double(22) == 5 && Double(20) == 1 && Double(21) == 3
  {
    XorZero(1);
    assert Xor(1, 1) == 0 && Xor(2, 1) == 3 && Xor(1, 2) == 3 && Xor(3, 1) == 2;
    assert Xor(3, 2) == 1 && Xor(5, 2) == 7 && Xor(2, 2) == 0 && Xor(7, 2) == 5;
    assert Xor(3, 4) == 7 && Xor(14, 4) == 10 && Xor(6, 4) == 2 && Xor(4, 4) == 0 && Xor(5, 4) == 1;
    assert Xor(6, 9) == 15 && Xor(28, 9) == 21 && Xor(12, 9) == 5 && Xor(8, 9) == 1 && Xor(10, 9) == 3;
  }

  predicate Odd(x: nat) { x % 2 == 1 }

  function When(p: bool, k: nat): nat { if p then k else 0 }

  /** The sum of some of five numbers. */
  function Pick(p: bool, q: bool, r: bool, s: bool, t: bool, a: nat, b: nat, c: nat, d: nat, e: nat): nat {
    Xor(When(p, a), Xor(When(q, b), Xor(When(r, c), Xor(When(s, d), When(t, e)))))
  }

  lemma OddSum(u: nat, x: nat, z: nat)
    requires z % 2 == (u + x) % 2
    ensures Odd(z) == (Odd(u) != Odd(x))
  {
  }

  lemma {:induction false} XorOdd(p: bool, a: nat, a2: nat, x: nat, x2: nat)
    requires a2 == a / 2 && x2 == x / 2
    ensures Odd(Xor(When(p, a), x)) == ((p && Odd(a)) != Odd(x))
    ensures Xor(When(p, a), x) / 2 == Xor(When(p, a2), x2)
  {
    XorHalves(When(p, a), x);
    OddSum(When(p, a), x, Xor(When(p, a), x));
  }

  /** A vanishing sum: its last bit, and the same sum of the halves. */
  lemma {:induction false} PickHalves(p: bool, q: bool, r: bool, s: bool, t: bool, a: nat, b: nat, c: nat, d: nat,
                                      e: nat,
                                      a2: nat, b2: nat, c2: nat, d2: nat, e2: nat)
    requires a2 == a / 2 && b2 == b / 2 && c2 == c / 2 && d2 == d / 2 && e2 == e / 2
    requires Pick(p, q, r, s, t, a, b, c, d, e) == 0
    ensures !((p && Odd(a)) != ((q && Odd(b)) != ((r && Odd(c)) != ((s && Odd(d)) != (t && Odd(e))))))
    ensures Pick(p, q, r, s, t, a2, b2, c2, d2, e2) == 0
  {
    var x := When(t, e);
    var y := Xor(When(s, d), x);
    var z := Xor(When(r, c), y);
    var w := Xor(When(q, b), z);
    XorOdd(s, d, d2, x, When(t, e2));
    XorOdd(r, c, c2, y, y / 2);
    XorOdd(q, b, b2, z, z / 2);
    XorOdd(p, a, a2, w, w / 2);
  }

  // Bit by bit from the lowest: what a vanishing sum of multiples of 18 says.

  lemma {:induction false} NoBit4(p: bool, q: bool, r: bool, s: bool, t: bool)
    requires Pick(p, q, r, s, t, 1, 0, 1, 1, 1) == 0
    ensures !(p != (r != (s != t)))
  {
    PickHalves(p, q, r, s, t, 1, 0, 1, 1, 1, 0, 0, 0, 0, 0);
  }

  lemma {:induction false} NoBit3(p: bool, q: bool, r: bool, s: bool, t: bool)
    requires Pick(p, q, r, s, t, 2, 1, 3, 3, 2) == 0
    ensures !(q != (r != s)) && !(p != (r != (s != t)))
  {
    PickHalves(p, q, r, s, t, 2, 1, 3, 3, 2, 1, 0, 1, 1, 1);
    NoBit4(p, q, r, s, t);
  }

  lemma {:induction false} NoBit2(p: bool, q: bool, r: bool, s: bool, t: bool)
    requires Pick(p, q, r, s, t, 4, 3, 6, 7, 4) == 0
    ensures !(q != s) && !(q != (r != s)) && !(p != (r != (s != t)))
  {
    PickHalves(p, q, r, s, t, 4, 3, 6, 7, 4, 2, 1, 3, 3, 2);
    NoBit3(p, q, r, s, t);
  }

  lemma {:induction false} NoBit1(p: bool, q: bool, r: bool, s: bool, t: bool)
    requires Pick(p, q, r, s, t, 9, 6, 13, 14, 9) == 0
    ensures !(p != (r != t)) && !(q != s) && !(q != (r != s)) && !(p != (r != (s != t)))
  {
    PickHalves(p, q, r, s, t, 9, 6, 13, 14, 9, 4, 3, 6, 7, 4);
    NoBit2(p, q, r, s, t);
  }

  lemma {:induction false} NoBit0(p: bool, q: bool, r: bool, s: bool, t: bool)
    requires Pick(p, q, r, s, t, 18, 13, 26, 29, 19) == 0
    ensures !(q != (s != t)) && !(p != (r != t)) && !(q != s) && !(q != (r != s)) && !(p != (r != (s != t)))
  {
    PickHalves(p, q, r, s, t, 18, 13, 26, 29, 19, 9, 6, 13, 14, 9);
    NoBit1(p, q, r, s, t);
  }

  lemma {:induction false} Mul18Sum(y: symbol)
    ensures Mul(18, y) == Pick(Odd(y), Odd(y / 2), Odd(y / 4), Odd(y / 8), Odd(y / 16), 18, 13, 26, 29, 19)
  {
    Doubles18();
    MulUnfold(18, y);
    MulUnfold(13, y / 2);
    MulUnfold(26, y / 4);
    MulUnfold(29, y / 8);
    MulUnfold(19, y / 16);
    assert y / 2 / 2 == y / 4 && y / 4 / 2 == y / 8 && y / 8 / 2 == y / 16 && y / 16 / 2 == 0;
    MulZero(Low(19, y / 16));
  }

  lemma AllEven(y: symbol)
    requires !Odd(y) && !Odd(y / 2) && !Odd(y / 4) && !Odd(y / 8) && !Odd(y / 16)
    ensures y == 0
  {
  }

  /** The generator's last coefficient divides no zero. */
  lemma Mul18(y: symbol)
    requires Mul(18, y) == 0
    ensures y == 0
  {
    Mul18Sum(y);
    NoBit0(Odd(y), Odd(y / 2), Odd(y / 4), Odd(y / 8), Odd(y / 16));
    AllEven(y);
  }

  // ----- Polynomials modulo the generator -----

  /** A remainder: the coefficients of x^5 down to 1. */
  datatype Rem = Rem(c0: symbol, c1: symbol, c2: symbol, c3: symbol, c4: symbol, c5: symbol)

  const ZERO: Rem := Rem(0, 0, 0, 0, 0, 0)
  const ONE: Rem := Rem(0, 0, 0, 0, 0, 1)

  function Sum(r: Rem, s: Rem): Rem {
    Rem(Plus(r.c0, s.c0), Plus(r.c1, s.c1), Plus(r.c2, s.c2), Plus(r.c3, s.c3), Plus(r.c4, s.c4), Plus(r.c5, s.c5))
  }

  /** Times x plus v, reduced by x^6 + 29x^5 + 22x^4 + 20x^3 + 21x^2 + 29x + 18. */
  function Step(r: Rem, v: symbol): Rem {
    Rem(Plus(r.c1, Mul(29, r.c0)), Plus(r.c2, Mul(22, r.c0)), Plus(r.c3, Mul(20, r.c0)),
        Plus(r.c4, Mul(21, r.c0)), Plus(r.c5, Mul(29, r.c0)), Plus(v, Mul(18, r.c0)))
  }

  /** The remainder after appending symbols to a polynomial. */
  function Append(r: Rem, v: seq<symbol>): Rem {
    if v == [] then r else Step(Append(r, v[..|v| - 1]), v[|v| - 1])
  }

  lemma Coordinate(k: symbol, a: symbol, b: symbol, p: symbol, q: symbol)
    ensures Plus(Plus(a, b), Mul(k, Plus(p, q))) == Plus(Plus(a, Mul(k, p)), Plus(b, Mul(k, q)))
  {
    MulLinear(k, p, q);
    XorPairs(a, b, Mul(k, p), Mul(k, q));
  }

  lemma StepLinear(r: Rem, s: Rem, v: symbol, w: symbol)
    ensures Step(Sum(r, s), Plus(v, w)) == Sum(Step(r, v), Step(s, w))
  {
    Coordinate(29, r.c1, s.c1, r.c0, s.c0);
    Coordinate(22, r.c2, s.c2, r.c0, s.c0);
    Coordinate(20, r.c3, s.c3, r.c0, s.c0);
    Coordinate(21, r.c4, s.c4, r.c0, s.c0);
    Coordinate(29, r.c5, s.c5, r.c0, s.c0);
    Coordinate(18, v, w, r.c0, s.c0);
  }

  lemma Cancel(a: symbol, b: symbol, c: symbol)
    requires Plus(a, c) == Plus(b, c) || Plus(c, a) == Plus(c, b)
    ensures a == b
  {
    XorComm(a, c);
    XorComm(b, c);
    XorCancel(a, b, c);
  }

  /** Equal multiples come from equal leading coefficients. */
  lemma SameLeading(p: symbol, q: symbol)
    requires Mul(18, p) == Mul(18, q)
    ensures p == q
  {
    MulLinear(18, p, q);
    MulZero(Mul(18, p));
    Mul18(Plus(p, q));
    XorZero(q);
    XorCancel(p, q, q);
  }

  lemma StepInjective(r: Rem, s: Rem, v: symbol)
    requires Step(r, v) == Step(s, v)
    ensures r == s
  {
    Cancel(Mul(18, r.c0), Mul(18, s.c0), v);
    SameLeading(r.c0, s.c0);
    Cancel(r.c1, s.c1, Mul(29, r.c0));
    Cancel(r.c2, s.c2, Mul(22, r.c0));
    Cancel(r.c3, s.c3, Mul(20, r.c0));
    Cancel(r.c4, s.c4, Mul(21, r.c0));
    Cancel(r.c5, s.c5, Mul(29, r.c0));
  }

  /** Appending the same symbols keeps different remainders different. */
  lemma {:induction false} AppendInjective(r: Rem, s: Rem, v: seq<symbol>)
    requires Append(r, v) == Append(s, v)
    ensures r == s
  {
    if v != [] {
      var most, last := v[..|v| - 1], v[|v| - 1];
      StepInjective(Append(r, most), Append(s, most), last);
      AppendInjective(r, s, most);
    }
  }

  /** Folding any step over a concatenation. */
  function Fold(step: (Rem, symbol) -> Rem, r: Rem, v: seq<symbol>): Rem {
    if v == [] then r else step(Fold(step, r, v[..|v| - 1]), v[|v| - 1])
  }

  lemma {:induction false} FoldConcat(step: (Rem, symbol) -> Rem, r: Rem, u: seq<symbol>, v: seq<symbol>)
    ensures Fold(step, r, u + v) == Fold(step, Fold(step, r, u), v)
  {
    if v == [] {
      assert u + v == u;
    } else {
      var most := v[..|v| - 1];
      FoldConcat(step, r, u, most);
      assert (u + v)[..|u + v| - 1] == u + most;
    }
  }

  lemma {:induction false} AppendIsFold(r: Rem, v: seq<symbol>)
    ensures Append(r, v) == Fold(Step, r, v)
  {
    if v != [] {
      AppendIsFold(r, v[..|v| - 1]);
    }
  }

  lemma AppendConcat(r: Rem, u: seq<symbol>, v: seq<symbol>)
    ensures Append(r, u + v) == Append(Append(r, u), v)
  {
    FoldConcat(Step, r, u, v);
    AppendIsFold(r, u + v);
    AppendIsFold(r, u);
    AppendIsFold(Append(r, u), v);
  }

  // ----- The remainder is that of a division -----

  /** The generator's coefficients after its leading one, of x^5 down to 1. */
  function Generator(j: nat): symbol
    requires 1 <= j <= 6
  {
    if j == 1 || j == 5 then 29
    else if j == 2 then 22
    else if j == 3 then 20
    else if j == 4 then 21
    else 18
  }

  function At(q: seq<symbol>, i: int): symbol {
    if 0 <= i < |q| then q[i] else 0
  }

  /** A coefficient of the product of q and the generator, from the highest power down:
      what the generator's first j coefficients after the leading one and the leading one
      itself contribute. */
  function Product(q: seq<symbol>, m: int, j: nat): symbol
    requires j <= 6
  {
    if j == 0 then At(q, m) else Plus(Product(q, m, j - 1), Mul(Generator(j), At(q, m - j)))
  }

  function Coefs(r: Rem): (c: seq<symbol>)
    ensures |c| == 6
  {
    [r.c0, r.c1, r.c2, r.c3, r.c4, r.c5]
  }

  /** Coefficient m of p is that of q times the generator plus s. */
  ghost predicate DividesAt(p: seq<symbol>, q: seq<symbol>, s: Rem, m: nat)
    requires |p| == |q| + 6 && m < |p|
  {
    p[m] == Plus(Product(q, m, 6), At(Coefs(s), m - |q|))
  }

  ghost predicate Divides(p: seq<symbol>, q: seq<symbol>, s: Rem) {
    |p| == |q| + 6 && forall m: nat {:trigger DividesAt(p, q, s, m)} :: m < |p| ==> DividesAt(p, q, s, m)
  }

  /** What a coefficient c at place n contributes to coefficient m of the product. */
  function Extra(n: nat, c: symbol, m: nat, j: nat): symbol
    requires j <= 6
  {
    if m == n then c else if n < m <= n + j then Mul(Generator(m - n), c) else 0
  }

  /** One more coefficient of the quotient adds its multiple of the generator. */
  lemma {:induction false} ProductExtend(q: seq<symbol>, c: symbol, m: nat, j: nat)
    requires j <= 6
    ensures Product(q + [c], m, j) == Plus(Product(q, m, j), Extra(|q|, c, m, j))
  {
    if j == 0 {
      MulZero(c);
      MulZero(At(q, m));
    } else {
      ProductExtend(q, c, m, j - 1);
      var a, k := Product(q, m, j - 1), Generator(j);
      if m - j == |q| {
        MulZero(k);
        MulZero(a);
      } else {
        PlusSwap(a, Mul(k, At(q, m - j)), Extra(|q|, c, m, j));
      }
    }
  }

  lemma PlusSwap(a: symbol, b: symbol, c: symbol)
    ensures Plus(Plus(a, b), c) == Plus(Plus(a, c), b)
  {
    XorAssoc(a, b, c);
    XorComm(b, c);
    XorAssoc(a, c, b);
  }

  /** The same amount added on both sides cancels. */
  lemma PlusTwice(a: symbol, b: symbol, c: symbol)
    ensures Plus(Plus(a, c), Plus(b, c)) == Plus(a, b)
  {
    XorPairs(a, c, b, c);
    MulZero(c);
    MulZero(Plus(a, b));
  }

  /** The remainder's next coefficients: its own moved up, plus the leading one's multiple of the generator. */
  lemma StepCoefs(r: Rem, v: symbol, i: nat)
    requires i < 6
    ensures Coefs(Step(r, v))[i] == Plus(if i < 5 then Coefs(r)[i + 1] else v, Mul(Generator(i + 1), r.c0))
  {
  }

  /** One step of the division. */
  lemma DivideStep(p: seq<symbol>, q: seq<symbol>, r: Rem, v: symbol, m: nat)
    requires Divides(p, q, r) && m <= |p|
    ensures DividesAt(p + [v], q + [r.c0], Step(r, v), m)
  {
    var n, c := |q|, r.c0;
    ProductExtend(q, c, m, 6);
    var a := Product(q, m, 6);
    if m < |p| {
      assert DividesAt(p, q, r, m);
    } else {
      NoProduct(q, m, 6);
      MulZero(v);
    }
    if m <= n {
      MulZero(a);
      MulZero(Plus(a, c));
    } else {
      StepCoefs(r, v, m - n - 1);
      PlusTwice(a, if m < |p| then Coefs(r)[m - n] else v, Mul(Generator(m - n), c));
    }
  }

  /** Past the end of both factors there is nothing. */
  lemma {:induction false} NoProduct(q: seq<symbol>, m: nat, j: nat)
    requires m >= |q| + j && j <= 6
    ensures Product(q, m, j) == 0
  {
    if j > 0 {
      NoProduct(q, m, j - 1);
      MulZero(Generator(j));
      MulZero(0);
    }
  }

  /** Appending symbols divides: some quotient times the generator plus the remainder
      is the polynomial. */
  lemma {:induction false} AppendDivides(r: Rem, v: seq<symbol>) returns (q: seq<symbol>)
    ensures |q| == |v| && Divides(Coefs(r) + v, q, Append(r, v))
  {
    if v == [] {
      q := [];
      assert Coefs(r) + v == Coefs(r);
      forall m: nat | m < 6 ensures DividesAt(Coefs(r), q, r, m) {
        NoProduct(q, m, 0);
        NoQuotient(m, 6);
        MulZero(Coefs(r)[m]);
      }
    } else {
      var most, last := v[..|v| - 1], v[|v| - 1];
      q := AppendDivides(r, most);
      var p, s := Coefs(r) + most, Append(r, most);
      assert p + [last] == Coefs(r) + v;
      forall m: nat | m < |p + [last]| ensures DividesAt(p + [last], q + [s.c0], Step(s, last), m) {
        DivideStep(p, q, s, last, m);
      }
      q := q + [s.c0];
    }
  }

  lemma {:induction false} NoQuotient(m: int, j: nat)
    requires j <= 6
    ensures Product([], m, j) == 0
  {
    if j > 0 {
      NoQuotient(m, j - 1);
      MulZero(Generator(j));
      MulZero(0);
    }
  }

  /** The leading coefficient and what lower ones of the quotient contribute. */
  lemma {:induction false} ProductLeads(q: seq<symbol>, t: seq<symbol>, m: nat, j: nat)
    requires j <= 6 && |q| == |t| && m < |q| && forall i :: 0 <= i < m ==> q[i] == t[i]
    ensures Product(q, m, j) == Product(t, m, j) ==> q[m] == t[m]
  {
    if j > 0 {
      ProductLeads(q, t, m, j - 1);
      assert At(q, m - j) == At(t, m - j);
      if Product(q, m, j) == Product(t, m, j) {
        Cancel(Product(q, m, j - 1), Product(t, m, j - 1), Mul(Generator(j), At(q, m - j)));
      }
    }
  }

  /** Quotient and remainder of a polynomial are determined. */
  lemma {:induction false} DivisionUnique(p: seq<symbol>, q: seq<symbol>, s: Rem, t: seq<symbol>, u: Rem)
    requires Divides(p, q, s) && Divides(p, t, u)
    ensures q == t && s == u
  {
    QuotientUnique(p, q, s, t, u, |q|);
    assert q == t;
    forall i | 0 <= i < 6 ensures Coefs(s)[i] == Coefs(u)[i] {
      var m := |q| + i;
      assert DividesAt(p, q, s, m) && DividesAt(p, t, u, m);
      Cancel(Coefs(s)[i], Coefs(u)[i], Product(q, m, 6));
    }
    assert Coefs(s)[0] == s.c0 && Coefs(s)[1] == s.c1 && Coefs(s)[2] == s.c2;
    assert Coefs(s)[3] == s.c3 && Coefs(s)[4] == s.c4 && Coefs(s)[5] == s.c5;
  }

  lemma {:induction false} QuotientUnique(p: seq<symbol>, q: seq<symbol>, s: Rem, t: seq<symbol>, u: Rem, n: nat)
    requires Divides(p, q, s) && Divides(p, t, u) && n <= |q|
    ensures forall i :: 0 <= i < n ==> q[i] == t[i]
  {
    if n > 0 {
      var m := n - 1;
      QuotientUnique(p, q, s, t, u, m);
      assert DividesAt(p, q, s, m) && DividesAt(p, t, u, m);
      MulZero(Product(q, m, 6));
      MulZero(Product(t, m, 6));
      ProductLeads(q, t, m, 6);
    }
  }

  /** Appending symbols gives the remainder of the division and nothing else. */
  lemma AppendIsRemainder(r: Rem, v: seq<symbol>, s: Rem)
    ensures (exists q :: Divides(Coefs(r) + v, q, s)) <==> s == Append(r, v)
  {
    var q := AppendDivides(r, v);
    if t :| Divides(Coefs(r) + v, t, s) {
      DivisionUnique(Coefs(r) + v, q, Append(r, v), t, s);
    }
  }

  // ----- Windows of at most six symbols -----

  function Zeroes(n: nat): (s: seq<symbol>)
    ensures |s| == n
  {
    seq(n, _ => 0 as symbol)
  }

  function Sym(x: seq<symbol>, i: nat): symbol
    requires i < 6
  {
    if 6 - i <= |x| then x[|x| - (6 - i)] else 0
  }

  /** A polynomial of degree below six is its own remainder. */
  function Place(x: seq<symbol>): Rem {
    Rem(Sym(x, 0), Sym(x, 1), Sym(x, 2), Sym(x, 3), Sym(x, 4), Sym(x, 5))
  }

  lemma PlaceStep(x: seq<symbol>, v: symbol)
    requires |x| < 6
    ensures Step(Place(x), v) == Place(x + [v])
  {
    var r := Place(x);
    assert r.c0 == 0;
    MulZero(29); MulZero(22); MulZero(20); MulZero(21); MulZero(18);
    MulZero(r.c1); MulZero(r.c2); MulZero(r.c3); MulZero(r.c4); MulZero(r.c5); MulZero(v);
  }

  lemma SumZero(r: Rem)
    ensures Sum(r, ZERO) == r && Sum(ZERO, r) == r && Sum(r, r) == ZERO
  {
    MulZero(r.c0); MulZero(r.c1); MulZero(r.c2); MulZero(r.c3); MulZero(r.c4); MulZero(r.c5);
  }

  /** Symbols in a short window add themselves to what zeroes there would give. */
  lemma {:induction false} WindowAdds(r: Rem, x: seq<symbol>)
    requires |x| <= 6
    ensures Append(r, x) == Sum(Append(r, Zeroes(|x|)), Place(x))
  {
    if x == [] {
      SumZero(r);
    } else {
      var most, last := x[..|x| - 1], x[|x| - 1];
      WindowAdds(r, most);
      assert Zeroes(|x|)[..|x| - 1] == Zeroes(|most|);
      MulZero(last);
      StepLinear(Append(r, Zeroes(|most|)), Place(most), 0, last);
      PlaceStep(most, last);
      assert x == most + [last];
    }
  }

  lemma SumCancel(r: Rem, s: Rem, t: Rem)
    requires Sum(t, r) == Sum(t, s)
    ensures r == s
  {
    Cancel(r.c0, s.c0, t.c0);
    Cancel(r.c1, s.c1, t.c1);
    Cancel(r.c2, s.c2, t.c2);
    Cancel(r.c3, s.c3, t.c3);
    Cancel(r.c4, s.c4, t.c4);
    Cancel(r.c5, s.c5, t.c5);
  }

  lemma PlaceInjective(x: seq<symbol>, y: seq<symbol>)
    requires |x| == |y| <= 6 && Place(x) == Place(y)
    ensures x == y
  {
    forall i | 0 <= i < |x| ensures x[i] == y[i] {
      assert Sym(x, i + (6 - |x|)) == x[i] && Sym(y, i + (6 - |y|)) == y[i];
      var j := i + (6 - |x|);
      assert j == 0 || j == 1 || j == 2 || j == 3 || j == 4 || j == 5;
    }
  }

  /** A change within six consecutive symbols always changes the remainder. */
  lemma BurstDetected(r: Rem, x: seq<symbol>, y: seq<symbol>, v: seq<symbol>)
    requires |x| == |y| <= 6 && x != y
    ensures Append(r, x + v) != Append(r, y + v)
  {
    if Append(r, x + v) == Append(r, y + v) {
      AppendConcat(r, x, v);
      AppendConcat(r, y, v);
      AppendInjective(Append(r, x), Append(r, y), v);
      WindowAdds(r, x);
      WindowAdds(r, y);
      SumCancel(Place(x), Place(y), Append(r, Zeroes(|x|)));
      PlaceInjective(x, y);
    }
  }
}
