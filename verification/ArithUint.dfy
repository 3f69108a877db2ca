/** Unsigned integers of any width as little-endian arrays of 32-bit limbs,
    against the naturals modulo a power of two. */
module ArithUint {
  import opened Powers

  const BASE: int := 0x1_0000_0000
  const UINT64_LIMIT: int := 0x1_0000_0000_0000_0000

  type Limb = x: int | 0 <= x < 0x1_0000_0000

  ghost function Unit(i: nat): nat {
    Pow2(32 * i)
  }

  /** The number a limb array stands for. */
  ghost function Value(s: seq<Limb>): nat {
    if s == [] then 0 else Value(s[..|s| - 1]) + s[|s| - 1] * Unit(|s| - 1)
  }

  lemma BaseIsPow2()
    ensures BASE == Pow2(32)
  {
    assert Pow2(8) == 256;
    Pow2Add(8, 8);
    Pow2Add(16, 16);
  }

  lemma UnitStep(i: nat)
    ensures Unit(i + 1) == Unit(i) * BASE == BASE * Unit(i)
    ensures Unit(0) == 1
  {
    BaseIsPow2();
    Pow2Add(32 * i, 32);
  }

  lemma ValueSnoc(s: seq<Limb>, i: nat)
    requires i < |s|
    ensures Value(s[..i + 1]) == Value(s[..i]) + s[i] * Unit(i)
  {
    assert s[..i + 1][..i] == s[..i];
  }

  lemma {:induction false} ValueBound(s: seq<Limb>)
    ensures Value(s) < Unit(|s|)
  {
    if s != [] {
      var n := |s| - 1;
      ValueBound(s[..n]);
      UnitStep(n);
      MulMonotone(s[n], BASE - 1, Unit(n));
      Distribute(BASE, 1, Unit(n));
    }
  }

  /** Changing one limb changes the value by that much at its weight. */
  lemma {:induction false} ValueUpdate(s: seq<Limb>, i: nat, x: Limb)
    requires i < |s|
    ensures Value(s[i := x]) == Value(s) + (x - s[i]) * Unit(i)
  {
    var n := |s| - 1;
    if i == n {
      assert s[i := x][..n] == s[..n];
      Distribute(x, s[i], Unit(n));
    } else {
      assert s[i := x][..n] == s[..n][i := x];
      ValueUpdate(s[..n], i, x);
    }
  }

  lemma {:induction false} ValueZeros(s: seq<Limb>)
    requires forall i :: 0 <= i < |s| ==> s[i] == 0
    ensures Value(s) == 0
  {
    if s != [] {
      ValueZeros(s[..|s| - 1]);
    }
  }

  /** Limbs that agree from position i up differ only by their lower parts. */
  lemma {:induction false} ValueSplit(s: seq<Limb>, t: seq<Limb>, i: nat)
    requires |s| == |t| && i <= |s| && s[i..] == t[i..]
    ensures Value(s) - Value(s[..i]) == Value(t) - Value(t[..i])
  {
    var n := |s| - 1;
    if i < |s| {
      assert s[n] == s[i..][n - i] && t[n] == t[i..][n - i];
      assert s[..n][i..] == s[i..][..n - i] && t[..n][i..] == t[i..][..n - i];
      assert s[..n][..i] == s[..i] && t[..n][..i] == t[..i];
      ValueSplit(s[..n], t[..n], i);
    } else {
      assert s[..i] == s && t[..i] == t;
    }
  }

  // ----- Carry chains -----

  /** One step of a carry loop: the low half stays, the high half is carried. */
  lemma CarryStep(low: nat, carry: nat, n: nat, i: nat, total: int, added: int)
    requires low + carry * Unit(i) == total
    requires n == carry + added
    ensures low + (n % BASE) * Unit(i) + (n / BASE) * Unit(i + 1) == total + added * Unit(i)
  {
    UnitStep(i);
    DivMod(n, BASE);
    Distribute(carry, added, Unit(i));
    Distribute(n / BASE * BASE, n % BASE, Unit(i));
    MulAssoc(n / BASE, BASE, Unit(i));
  }

  /** a += b */
  method Add(a: array<Limb>, b: array<Limb>)
    requires a.Length == b.Length
    modifies a
    ensures Value(a[..]) == (old(Value(a[..])) + old(Value(b[..]))) % Unit(a.Length)
  {
    ghost var x, y := a[..], b[..];
    var carry := 0;
    for i := 0 to a.Length
      invariant 0 <= carry <= 1
      invariant forall j :: i <= j < a.Length ==> a[j] == x[j] && b[j] == y[j]
      invariant Value(a[..i]) + carry * Unit(i) == Value(x[..i]) + Value(y[..i])
    {
      var n := carry + a[i] + b[i];
      assert n < UINT64_LIMIT;
      CarryStep(Value(a[..i]), carry, n, i, Value(x[..i]) + Value(y[..i]), x[i] as int + y[i] as int);
      Distribute(x[i], y[i], Unit(i));
      ValueSnoc(x, i);
      ValueSnoc(y, i);
      ghost var low := a[..i];
      a[i] := n % BASE;
      carry := n / BASE;
      assert a[..][..i] == low && a[..][..i + 1] == a[..i + 1];
      ValueSnoc(a[..], i);
    }
    assert a[..a.Length] == a[..] && x[..a.Length] == x && y[..a.Length] == y;
    ValueBound(a[..]);
    DivModUnique(Value(x) + Value(y), Unit(a.Length), carry, Value(a[..]));
  }

  /** a *= b32 */
  method MulSmall(a: array<Limb>, b32: Limb)
    modifies a
    ensures Value(a[..]) == (old(Value(a[..])) * b32) % Unit(a.Length)
  {
    ghost var x := a[..];
    var carry := 0;
    for i := 0 to a.Length
      invariant 0 <= carry < BASE
      invariant forall j :: i <= j < a.Length ==> a[j] == x[j]
      invariant Value(a[..i]) + carry * Unit(i) == Value(x[..i]) * b32
    {
      ProductFits(b32, a[i], 0, carry);
      var n := carry + b32 * a[i];
      assert n < UINT64_LIMIT;
      CarryStep(Value(a[..i]), carry, n, i, Value(x[..i]) * b32, b32 * x[i]);
      ValueSnoc(x, i);
      Distribute(Value(x[..i]), x[i] * Unit(i), b32);
      MulAssoc(b32, x[i], Unit(i));
      ghost var low := a[..i];
      a[i] := n % BASE;
      carry := n / BASE;
      assert a[..][..i] == low && a[..][..i + 1] == a[..i + 1];
      ValueSnoc(a[..], i);
    }
    assert a[..a.Length] == a[..] && x[..a.Length] == x;
    ValueBound(a[..]);
    DivModUnique(Value(x) * b32, Unit(a.Length), carry, Value(a[..]));
  }

  /** A limb product with a carry and an accumulator limb on top still fits 64 bits. */
  lemma ProductFits(x: int, y: int, acc: int, carry: int)
    requires 0 <= x < BASE && 0 <= y < BASE && 0 <= acc < BASE && 0 <= carry < BASE
    ensures 0 <= x * y && carry + acc + x * y < UINT64_LIMIT
  {
    MulMonotone(0, x, y);
    MulMonotone(x, BASE - 1, y);
    MulMonotone(y, BASE - 1, BASE - 1);
  }

  // ----- Complement, negation, subtraction, comparison -----

  /** ~a */
  method Complement(a: array<Limb>) returns (r: array<Limb>)
    ensures fresh(r) && r.Length == a.Length
    ensures Value(r[..]) == Unit(a.Length) - 1 - Value(a[..])
  {
    r := new Limb[a.Length](_ => 0);
    ghost var x := a[..];
    UnitStep(0);
    for i := 0 to a.Length
      invariant Value(r[..][..i]) == Unit(i) - 1 - Value(x[..i])
    {
      ghost var low := r[..][..i];
      r[i] := BASE - 1 - a[i];
      assert r[..][..i] == low;
      ComplementStep(r[..], x, i);
    }
    assert r[..][..a.Length] == r[..] && x[..a.Length] == x;
  }

  lemma ComplementStep(r: seq<Limb>, x: seq<Limb>, i: nat)
    requires i < |r| == |x| && r[i] == BASE - 1 - x[i]
    requires Value(r[..i]) == Unit(i) - 1 - Value(x[..i])
    ensures Value(r[..i + 1]) == Unit(i + 1) - 1 - Value(x[..i + 1])
  {
    ValueSnoc(r, i);
    ValueSnoc(x, i);
    UnitStep(i);
    Distribute(BASE - 1, x[i], Unit(i));
    Distribute(BASE, 1, Unit(i));
  }

  lemma IncrementStops(a: seq<Limb>, x: seq<Limb>, i: nat)
    requires |a| == |x| && i < |x| && a[i + 1..] == x[i + 1..] && a[i] as int == x[i] as int + 1
    requires Value(a[..i]) == 0 && Value(x[..i]) == Unit(i) - 1
    ensures Value(a) == (Value(x) + 1) % Unit(|x|)
  {
    ValueSnoc(a, i);
    ValueSnoc(x, i);
    ValueSplit(a, x, i + 1);
    Distribute(x[i], 1, Unit(i));
    assert Value(a) == Value(x) + 1;
    ValueBound(a);
    DivModUnique(Value(a), Unit(|x|), 0, Value(a));
  }

  lemma IncrementRipples(a: seq<Limb>, x: seq<Limb>, i: nat)
    requires |a| == |x| && i < |x| && a[i] == 0 && x[i] == BASE - 1
    requires Value(a[..i]) == 0 && Value(x[..i]) == Unit(i) - 1
    ensures Value(a[..i + 1]) == 0 && Value(x[..i + 1]) == Unit(i + 1) - 1
  {
    ValueSnoc(a, i);
    ValueSnoc(x, i);
    UnitStep(i);
    Distribute(BASE, 1, Unit(i));
  }

  /** ++a, rippling through limbs that wrap to zero. */
  method Increment(a: array<Limb>)
    modifies a
    ensures Value(a[..]) == (old(Value(a[..])) + 1) % Unit(a.Length)
  {
    ghost var x := a[..];
    var i := 0;
    UnitStep(0);
    while i < a.Length
      invariant 0 <= i <= a.Length
      invariant a[..][i..] == x[i..]
      invariant Value(a[..][..i]) == 0 && Value(x[..i]) == Unit(i) - 1
    {
      assert a[i] == a[..][i..][0] == x[i..][0] == x[i];
      ghost var before := a[..];
      a[i] := (a[i] + 1) % BASE;
      assert a[..][..i] == before[..i] && a[..][i + 1..] == before[i..][1..] == x[i + 1..];
      if a[i] != 0 {
        IncrementStops(a[..], x, i);
        return;
      }
      IncrementRipples(a[..], x, i);
      i := i + 1;
    }
    assert a[..][..i] == a[..] && x[..i] == x;
    DivModUnique(Value(x) + 1, Unit(a.Length), 1, 0);
  }

  /** -a in two's complement */
  method Negate(a: array<Limb>) returns (r: array<Limb>)
    ensures fresh(r) && r.Length == a.Length
    ensures Value(r[..]) == (Unit(a.Length) - Value(a[..])) % Unit(a.Length)
  {
    r := Complement(a);
    Increment(r);
  }

  /** a -= b, as a += -b */
  method Sub(a: array<Limb>, b: array<Limb>)
    requires a.Length == b.Length
    modifies a
    ensures Value(a[..]) == (old(Value(a[..])) - old(Value(b[..]))) % Unit(a.Length)
  {
    var neg := Negate(b);
    ghost var x, y, m := Value(a[..]), Value(b[..]), Unit(a.Length);
    ValueBound(b[..]);
    Add(a, neg);
    SubMod(x, y, m);
  }

  lemma SubMod(x: nat, y: nat, m: nat)
    requires 0 <= y < m
    ensures (x + (m - y) % m) % m == (x - y) % m
  {
    DivMod(x - y, m);
    var q, r := (x - y) / m, (x - y) % m;
    if y == 0 {
      DivModUnique(m, m, 1, 0);
    } else {
      DivModUnique(m - y, m, 0, m - y);
      Distribute(q, 1, m);
      DivModUnique(x + (m - y), m, q + 1, r);
    }
  }

  lemma HigherLimbDecides(s: seq<Limb>, t: seq<Limb>, i: nat)
    requires |s| == |t| && i < |s| && s[i] < t[i]
    requires forall j :: i < j < |s| ==> s[j] == t[j]
    ensures Value(s) < Value(t)
  {
    assert s[i + 1..] == t[i + 1..];
    ValueSplit(s, t, i + 1);
    ValueSnoc(s, i);
    ValueSnoc(t, i);
    ValueBound(s[..i]);
    MulStrict(s[i], t[i], Unit(i));
  }

  /** -1, 0 or 1 as a is below, equal to or above b */
  method CompareTo(a: array<Limb>, b: array<Limb>) returns (r: int)
    requires a.Length == b.Length
    ensures r == if Value(a[..]) < Value(b[..]) then -1 else if Value(a[..]) > Value(b[..]) then 1 else 0
  {
    ghost var x, y := a[..], b[..];
    var i := a.Length - 1;
    while i >= 0
      invariant -1 <= i < a.Length
      invariant forall j :: i < j < |x| ==> x[j] == y[j]
    {
      if a[i] < b[i] {
        HigherLimbDecides(x, y, i);
        return -1;
      }
      if a[i] > b[i] {
        HigherLimbDecides(y, x, i);
        return 1;
      }
      i := i - 1;
    }
    assert x == y;
    return 0;
  }

  lemma TwoLimbs(s: seq<Limb>)
    requires |s| >= 2
    ensures Value(s[..2]) == s[0] + s[1] * BASE < UINT64_LIMIT == Unit(2)
  {
    ValueSnoc(s, 0);
    ValueSnoc(s, 1);
    UnitStep(0);
    UnitStep(1);
    assert Unit(1) == BASE;
    ValueBound(s[..2]);
  }

  lemma HighLimbIsLarge(s: seq<Limb>, i: nat)
    requires 2 <= i < |s| && s[i] != 0
    ensures Value(s[..i + 1]) >= UINT64_LIMIT
  {
    ValueSnoc(s, i);
    TwoLimbs(s);
    Pow2Monotone(64, 32 * i);
    MulMonotone(1, s[i], Unit(i));
  }

  /** Whether a equals a 64-bit number */
  method EqualTo(a: array<Limb>, b: nat) returns (equal: bool)
    requires a.Length >= 2 && b < UINT64_LIMIT
    ensures equal <==> Value(a[..]) == b
  {
    var i := a.Length - 1;
    assert a[..][..a.Length] == a[..];
    while i >= 2
      invariant 1 <= i < a.Length
      invariant Value(a[..][..i + 1]) == Value(a[..])
    {
      if a[i] != 0 {
        HighLimbIsLarge(a[..], i);
        return false;
      }
      ValueSnoc(a[..], i);
      i := i - 1;
    }
    TwoLimbs(a[..]);
    if a[1] != b / BASE { return false; }
    if a[0] != b % BASE { return false; }
    return true;
  }

  lemma BitClear(x: nat, n: nat)
    requires x < Pow2(n + 1) && x / Pow2(n) % 2 != 1
    ensures x < Pow2(n)
  {
    var p := Pow2(n);
    DivMod(x, p);
    if x / p >= 2 {
      MulMonotone(2, x / p, p);
    }
  }

  lemma BitSet(x: nat, n: nat)
    requires x / Pow2(n) % 2 == 1
    ensures x >= Pow2(n)
  {
    if x < Pow2(n) {
      DivModUnique(x, Pow2(n), 0, x);
    }
  }

  lemma TopBit(low: seq<Limb>, x: nat, n: nat)
    requires Pow2(n) <= x < Pow2(n + 1)
    ensures Pow2(32 * |low| + n) <= Value(low) + x * Unit(|low|) < Pow2(32 * |low| + n + 1)
  {
    ValueBound(low);
    Pow2Add(n, 32 * |low|);
    Pow2Add(n + 1, 32 * |low|);
    MulMonotone(Pow2(n), x, Unit(|low|));
    MulStrict(x, Pow2(n + 1), Unit(|low|));
  }

  /** The highest set bit of a limb */
  method LimbBits(x: Limb) returns (nbits: nat)
    requires x != 0
    ensures nbits < 32 && Pow2(nbits) <= x < Pow2(nbits + 1)
  {
    BaseIsPow2();
    nbits := 31;
    while nbits > 0
      invariant 0 <= nbits <= 31 && x < Pow2(nbits + 1)
    {
      if x / Pow2(nbits) % 2 == 1 {
        BitSet(x, nbits);
        return;
      }
      BitClear(x, nbits);
      nbits := nbits - 1;
    }
  }

  /** The position of the highest set bit plus one, or zero */
  method Bits(a: array<Limb>) returns (r: nat)
    ensures r <= 32 * a.Length
    ensures r == 0 <==> Value(a[..]) == 0
    ensures r > 0 ==> Pow2(r - 1) <= Value(a[..]) < Pow2(r)
  {
    var pos := a.Length - 1;
    assert a[..][..a.Length] == a[..];
    while pos >= 0
      invariant -1 <= pos < a.Length
      invariant Value(a[..][..pos + 1]) == Value(a[..])
    {
      ValueSnoc(a[..], pos);
      if a[pos] != 0 {
        var nbits := LimbBits(a[pos]);
        TopBit(a[..][..pos], a[pos], nbits);
        return 32 * pos + nbits + 1;
      }
      pos := pos - 1;
    }
    return 0;
  }

  // ----- Shifts -----

  /** A limb shifted left by less than its width, as its low and high halves. */
  lemma ShiftedLimb(x: int, s: nat)
    requires 0 <= x < BASE && s < 32
    ensures x * Pow2(s) / BASE == x / Pow2(32 - s) < Pow2(s)
    ensures x * Pow2(s) % BASE == x % Pow2(32 - s) * Pow2(s)
  {
    BaseIsPow2();
    Pow2Add(32 - s, s);
    var h, l, p, t := x / Pow2(32 - s), x % Pow2(32 - s), Pow2(s), Pow2(32 - s);
    DivMod(x, t);
    Distribute(h * t, l, p);
    MulAssoc(h, t, p);
    MulStrict(l, t, p);
    MulMonotone(0, l, p);
    DivModUnique(x * p, BASE, h, l * p);
    if h >= p {
      MulMonotone(p, h, t);
    }
  }

  /** a[i] |= bits, where the limb has only bits below s and `bits` none. */
  method OrInto(a: array<Limb>, i: nat, bits: Limb, ghost high: nat, ghost s: nat)
    requires i < a.Length && a[i] < Pow2(s) && bits == high * Pow2(s) && s <= 32
    modifies a
    ensures a[i] as int == old(a[i]) as int + bits as int
    ensures forall j :: 0 <= j < a.Length && j != i ==> a[j] == old(a[j])
    ensures Value(a[..]) == old(Value(a[..])) + Times(bits, Unit(i))
  {
    BitOrAdds(a[i], high, s);
    OrFits(a[i], high, s);
    ghost var x, y := a[..], a[i] as int + bits as int;
    ValueUpdate(x, i, y);
    TimesIsMul(bits, Unit(i));
    a[i] := BitOr(a[i], bits);
    assert a[..] == x[i := y];
  }

  lemma OrFits(x: int, high: nat, s: nat)
    requires 0 <= x < Pow2(s) && high * Pow2(s) < BASE && s <= 32
    ensures x + high * Pow2(s) < BASE
  {
    BaseIsPow2();
    Pow2Add(32 - s, s);
    if high >= Pow2(32 - s) {
      MulMonotone(Pow2(32 - s), high, Pow2(s));
    }
    MulMonotone(high + 1, Pow2(32 - s), Pow2(s));
    Distribute(high, 1, Pow2(s));
  }

  method Clear(a: array<Limb>)
    modifies a
    ensures forall i :: 0 <= i < a.Length ==> a[i] == 0
    ensures Value(a[..]) == 0
  {
    for i := 0 to a.Length
      invariant forall j :: 0 <= j < i ==> a[j] == 0
    {
      a[i] := 0;
    }
    ValueZeros(a[..]);
  }

  lemma UnitSplit(i: nat, j: nat)
    requires j <= i
    ensures Unit(i) == Unit(i - j) * Unit(j)
  {
    Pow2Add(32 * (i - j), 32 * j);
  }

  /** What one limb adds to a number shifted left by k limbs and s bits. */
  lemma ShiftLeftStep(x: seq<Limb>, i: nat, k: nat, s: nat)
    requires i < |x| && s < 32
    ensures Value(x[..i + 1]) * Pow2(32 * k + s) ==
            Value(x[..i]) * Pow2(32 * k + s)
            + (x[i] * Pow2(s) / BASE) * Unit(i + k + 1) + (x[i] * Pow2(s) % BASE) * Unit(i + k)
  {
    var p, u, sh := x[i] * Pow2(s), Unit(i + k), Pow2(32 * k + s);
    ValueSnoc(x, i);
    Distribute(Value(x[..i]), x[i] * Unit(i), sh);
    assert (x[i] * Unit(i)) * sh == p * u by {
      Pow2Add(32 * i, 32 * k + s);
      Pow2Add(s, 32 * (i + k));
      assert 32 * i + (32 * k + s) == s + 32 * (i + k);
      MulAssoc(x[i], Unit(i), sh);
      MulAssoc(x[i], Pow2(s), u);
    }
    DivMod(p, BASE);
    Distribute(p / BASE * BASE, p % BASE, u);
    UnitStep(i + k);
    MulAssoc(p / BASE, BASE, u);
  }

  /** What falls off the top is a multiple of the modulus. */
  ghost function FallsOff(x: nat, i: nat, width: nat): (q: nat)
    ensures i >= width ==> q * Unit(width) == x * Unit(i)
    ensures i < width ==> q == 0
  {
    if i < width then 0
    else
      UnitSplit(i, width);
      MulAssoc(x, Unit(i - width), Unit(width));
      x * Unit(i - width)
  }

  /** The value a limb placed at position i contributes: nothing past the top. */
  ghost function Placed(x: int, i: nat, width: nat): int {
    if i < width then Times(x, Unit(i)) else 0
  }

  lemma PlacedOrFallen(x: nat, i: nat, width: nat)
    ensures Placed(x, i, width) + FallsOff(x, i, width) * Unit(width) == x * Unit(i)
  {
    TimesIsMul(x, Unit(i));
  }

  lemma ShiftLeftAccount(x: seq<Limb>, i: nat, k: nat, s: nat, v: nat, q: nat) returns (q': nat)
    requires i < |x| && s < 32
    requires v + Times(q, Unit(|x|)) == Times(Value(x[..i]), Pow2(32 * k + s))
    ensures v + Placed(x[i] * Pow2(s) / BASE, i + k + 1, |x|) + Placed(x[i] * Pow2(s) % BASE, i + k, |x|)
            + Times(q', Unit(|x|)) == Times(Value(x[..i + 1]), Pow2(32 * k + s))
  {
    var m, hi, lo := Unit(|x|), x[i] * Pow2(s) / BASE, x[i] * Pow2(s) % BASE;
    ShiftLeftStep(x, i, k, s);
    PlacedOrFallen(hi, i + k + 1, |x|);
    PlacedOrFallen(lo, i + k, |x|);
    var q1, q2 := FallsOff(hi, i + k + 1, |x|), FallsOff(lo, i + k, |x|);
    Distribute(q, q1, m);
    Distribute(q + q1, q2, m);
    q' := q + q1 + q2;
    TimesIsMul(q, m);
    TimesIsMul(q', m);
    TimesIsMul(Value(x[..i]), Pow2(32 * k + s));
    TimesIsMul(Value(x[..i + 1]), Pow2(32 * k + s));
  }

  /** OR one limb, shifted left by s bits, into positions pos and pos + 1. */
  method PlaceLeft(a: array<Limb>, x: Limb, pos: nat, s: nat)
    requires s < 32
    requires forall j :: pos < j < a.Length ==> a[j] == 0
    requires pos < a.Length ==> a[pos] < Pow2(s)
    modifies a
    ensures forall j :: pos + 1 < j < a.Length ==> a[j] == 0
    ensures pos + 1 < a.Length ==> a[pos + 1] < Pow2(s)
    ensures Value(a[..]) == old(Value(a[..])) + Placed(x * Pow2(s) / BASE, pos + 1, a.Length)
                            + Placed(x * Pow2(s) % BASE, pos, a.Length)
  {
    ShiftedLimb(x, s);
    if pos + 1 < a.Length && s != 0 {
      OrInto(a, pos + 1, x / Pow2(32 - s), x / Pow2(32 - s), 0);
    }
    if pos < a.Length {
      OrInto(a, pos, x * Pow2(s) % BASE, x % Pow2(32 - s), s);
    }
  }

  /** a <<= shift */
  method ShiftLeft(a: array<Limb>, shift: nat)
    modifies a
    ensures Value(a[..]) == old(Value(a[..])) * Pow2(shift) % Unit(a.Length)
  {
    var x := a[..];
    Clear(a);
    var k, s := shift / 32, shift % 32;
    ghost var q, m := 0, Unit(a.Length);
    for i := 0 to a.Length
      invariant forall j :: i + k < j < a.Length ==> a[j] == 0
      invariant i + k < a.Length ==> a[i + k] < Pow2(s)
      invariant Value(a[..]) + Times(q, m) == Times(Value(x[..i]), Pow2(32 * k + s))
    {
      q := ShiftLeftAccount(x, i, k, s, Value(a[..]), q);
      PlaceLeft(a, x[i], i + k, s);
    }
    assert x[..a.Length] == x;
    ValueBound(a[..]);
    ProductDone(Value(x), Pow2(shift), m, q, Value(a[..]));
  }

  /** What a right shift by k limbs and s bits has dropped after i limbs. */
  ghost function LowPart(x: seq<Limb>, i: nat, k: nat, s: nat): nat
    requires i <= |x|
  {
    if i <= k then Value(x[..i]) else Value(x[..k]) + (x[k] % Pow2(s)) * Unit(k)
  }

  lemma LowPartBound(x: seq<Limb>, i: nat, k: nat, s: nat)
    requires i <= |x|
    ensures LowPart(x, i, k, s) < Pow2(32 * k + s)
  {
    Pow2Add(s, 32 * k);
    if i <= k {
      ValueBound(x[..i]);
      Pow2Monotone(32 * i, 32 * k + s);
    } else {
      ValueBound(x[..k]);
      DivMod(x[k], Pow2(s));
      MulStrict(x[k] % Pow2(s), Pow2(s), Unit(k));
    }
  }

  /** The value of the two parts of a limb that a right shift keeps: its high
      bits at position pos, its low bits at the top of position pos - 1. */
  ghost function KeptRight(high: int, low: int, pos: int): (v: int)
    ensures v >= 0
  {
    TimesNonNegative(high, Unit(if pos >= 0 then pos else 0));
    TimesNonNegative(low, Unit(if pos >= 1 then pos - 1 else 0));
    (if pos >= 0 then Times(high, Unit(pos)) else 0) + (if pos >= 1 then Times(low, Unit(pos - 1)) else 0)
  }

  ghost function HighBits(x: int, s: nat): int {
    x / Pow2(s)
  }

  ghost function LowBits(x: int, s: nat): int
    requires s < 32
  {
    x % Pow2(s) * Pow2(32 - s)
  }

  lemma HighBitsWeight(h: nat, i: nat, k: nat, s: nat)
    requires k <= i
    ensures Times(h, Unit(i - k)) * Pow2(32 * k + s) == h * Pow2(s) * Unit(i)
  {
    TimesIsMul(h, Unit(i - k));
    Pow2Add(32 * (i - k), 32 * k + s);
    Pow2Add(s, 32 * i);
    assert 32 * (i - k) + (32 * k + s) == s + 32 * i;
    MulAssoc(h, Unit(i - k), Pow2(32 * k + s));
    MulAssoc(h, Pow2(s), Unit(i));
  }

  lemma LowBitsWeight(l: nat, i: nat, k: nat, s: nat)
    requires k < i && s < 32
    ensures Times(l * Pow2(32 - s), Unit(i - k - 1)) * Pow2(32 * k + s) == l * Unit(i)
  {
    var t, w := Pow2(32 - s), Unit(i - k - 1);
    MulMonotone(0, l, t);
    TimesIsMul(l * t, w);
    Pow2Add(32 - s, 32 * (i - k - 1));
    Pow2Add(32 - s + 32 * (i - k - 1), 32 * k + s);
    assert 32 - s + 32 * (i - k - 1) + (32 * k + s) == 32 * i;
    MulAssoc(l, t, w);
    MulAssoc(l, t * w, Pow2(32 * k + s));
  }

  lemma KeptAtEdge(x: nat, k: nat, s: nat)
    requires s < 32
    ensures KeptRight(HighBits(x, s), LowBits(x, s), 0) * Pow2(32 * k + s) + (x % Pow2(s)) * Unit(k) == x * Unit(k)
  {
    DivMod(x, Pow2(s));
    var h, l := x / Pow2(s), x % Pow2(s);
    Distribute(h * Pow2(s), l, Unit(k));
    HighBitsWeight(h, k, k, s);
    assert KeptRight(HighBits(x, s), LowBits(x, s), 0) == Times(h, Unit(0));
  }

  lemma KeptAbove(x: nat, i: nat, k: nat, s: nat)
    requires s < 32 && k < i
    ensures KeptRight(HighBits(x, s), LowBits(x, s), i - k) * Pow2(32 * k + s) == x * Unit(i)
  {
    DivMod(x, Pow2(s));
    var h, l := x / Pow2(s), x % Pow2(s);
    Distribute(h * Pow2(s), l, Unit(i));
    HighBitsWeight(h, i, k, s);
    LowBitsWeight(l, i, k, s);
    var t1, t2 := Times(h, Unit(i - k)), Times(l * Pow2(32 - s), Unit(i - k - 1));
    assert KeptRight(HighBits(x, s), LowBits(x, s), i - k) == t1 + t2;
    Distribute(t1, t2, Pow2(32 * k + s));
  }

  /** The first i limbs are v, shifted, and what has been dropped. */
  ghost predicate Gathered(x: seq<Limb>, i: nat, k: nat, s: nat, v: nat)
    requires i <= |x|
  {
    Times(v, Pow2(32 * k + s)) + LowPart(x, i, k, s) == Value(x[..i])
  }

  lemma ShiftRightAccount(x: seq<Limb>, i: nat, k: nat, s: nat, v: nat)
    requires i < |x| && s < 32 && Gathered(x, i, k, s, v)
    ensures Gathered(x, i + 1, k, s, v + KeptRight(HighBits(x[i], s), LowBits(x[i], s), i - k))
  {
    var p, kept := Pow2(32 * k + s), KeptRight(HighBits(x[i], s), LowBits(x[i], s), i - k);
    ValueSnoc(x, i);
    if i == k {
      KeptAtEdge(x[i], k, s);
    } else if i > k {
      KeptAbove(x[i], i, k, s);
    }
    TimesIsMul(v, p);
    TimesIsMul(v + kept, p);
    Distribute(v, kept, p);
  }

  /** OR one limb, shifted right by s bits, into positions pos and pos - 1. */
  method PlaceRight(a: array<Limb>, x: Limb, pos: int, s: nat)
    requires s < 32 && pos < a.Length
    requires forall j :: 0 <= j < a.Length && pos <= j ==> a[j] == 0
    requires pos >= 1 ==> a[pos - 1] < Pow2(32 - s)
    modifies a
    ensures forall j :: 0 <= j < a.Length && pos + 1 <= j ==> a[j] == 0
    ensures pos >= 0 ==> a[pos] < Pow2(32 - s)
    ensures Value(a[..]) == old(Value(a[..])) + KeptRight(HighBits(x, s), LowBits(x, s), pos)
  {
    DroppedBits(x, s);
    ghost var v, kept := Value(a[..]), LowBits(x, s);
    if pos - 1 >= 0 && s != 0 {
      OrInto(a, pos - 1, x * Pow2(32 - s) % BASE, x % Pow2(s), 32 - s);
    }
    assert Value(a[..]) == v + if pos >= 1 then Times(kept, Unit(pos - 1)) else 0;
    if pos >= 0 {
      var high := x / Pow2(s);
      OrInto(a, pos, high, high, 0);
    }
  }

  lemma DroppedBits(x: int, s: nat)
    requires 0 <= x < BASE && s < 32
    ensures 0 <= x / Pow2(s) < Pow2(32 - s)
    ensures s != 0 ==> x * Pow2(32 - s) % BASE == x % Pow2(s) * Pow2(32 - s)
    ensures s == 0 ==> x % Pow2(s) * Pow2(32 - s) == 0
  {
    if s == 0 {
      BaseIsPow2();
    } else {
      ShiftedLimb(x, 32 - s);
    }
  }

  /** Places every limb of x, shifted right by k limbs and s bits. */
  method GatherRight(a: array<Limb>, x: seq<Limb>, k: nat, s: nat)
    requires |x| == a.Length && s < 32 && forall j :: 0 <= j < a.Length ==> a[j] == 0
    modifies a
    ensures Value(a[..]) == Value(x) / Pow2(32 * k + s)
  {
    ValueZeros(a[..]);
    ghost var v: nat := 0;
    for i := 0 to a.Length
      invariant forall j :: 0 <= j < a.Length && i - k <= j ==> a[j] == 0
      invariant i - k >= 1 ==> a[i - k - 1] < Pow2(32 - s)
      invariant v == Value(a[..]) && Gathered(x, i, k, s, v)
    {
      ShiftRightAccount(x, i, k, s, v);
      PlaceRight(a, x[i], i - k, s);
      v := Value(a[..]);
    }
    assert x[..a.Length] == x;
    ShiftRightDone(x, k, s, v);
  }

  /** a >>= shift */
  method ShiftRight(a: array<Limb>, shift: nat)
    modifies a
    ensures Value(a[..]) == old(Value(a[..])) / Pow2(shift)
  {
    var x := a[..];
    Clear(a);
    GatherRight(a, x, shift / 32, shift % 32);
  }

  lemma ShiftRightDone(x: seq<Limb>, k: nat, s: nat, v: nat)
    requires Gathered(x, |x|, k, s, v)
    ensures v == Value(x) / Pow2(32 * k + s)
  {
    assert x[..|x|] == x;
    LowPartBound(x, |x|, k, s);
    TimesIsMul(v, Pow2(32 * k + s));
    DivModUnique(Value(x), Pow2(32 * k + s), v, LowPart(x, |x|, k, s));
  }

  // ----- Multiplication -----

  lemma RowProduct(b: seq<Limb>, i: nat, j: nat, c: Limb)
    requires i < |b|
    ensures c * Value(b[..i + 1]) * Unit(j) == c * Value(b[..i]) * Unit(j) + c * b[i] * Unit(i + j)
  {
    ValueSnoc(b, i);
    UnitSplit(i + j, j);
    Distribute(Value(b[..i]), b[i] * Unit(i), c);
    Distribute(c * Value(b[..i]), c * (b[i] * Unit(i)), Unit(j));
    MulAssoc(c, b[i], Unit(i));
    MulAssoc(c * b[i], Unit(i), Unit(j));
  }

  /** One step of a row of schoolbook multiplication: the position's new limb and
      carry hold what was there, the old carry and the product. */
  lemma RowStep(a: seq<Limb>, i: nat, carry: int, n: int, product: int)
    requires i < |a| && n == carry + a[i] + product
    ensures Value(a[i := n % BASE]) + (n / BASE) * Unit(i + 1) == Value(a) + carry * Unit(i) + product * Unit(i)
  {
    var u := Unit(i);
    ValueUpdate(a, i, n % BASE);
    UnitStep(i);
    DivMod(n, BASE);
    Distribute(n % BASE, a[i], u);
    Distribute(n / BASE * BASE, n % BASE, u);
    MulAssoc(n / BASE, BASE, u);
    Distribute(carry + a[i], product, u);
    Distribute(carry, a[i], u);
  }

  lemma RowAccount(a: seq<Limb>, b: seq<Limb>, i: nat, j: nat, c: Limb, carry: nat, n: nat, v0: int)
    requires i < |b| && i + j < |a| && n == carry + a[i + j] + c * b[i]
    requires Value(a) + Times(carry, Unit(i + j)) == v0 + Times(c, Times(Value(b[..i]), Unit(j)))
    ensures Value(a[i + j := n % BASE]) + Times(n / BASE, Unit(i + 1 + j)) ==
            v0 + Times(c, Times(Value(b[..i + 1]), Unit(j)))
  {
    var product := c * b[i];
    RowStep(a, i + j, carry, n, product);
    RowProduct(b, i, j, c);
    TimesIsMul(carry, Unit(i + j));
    TimesIsMul(n / BASE, Unit(i + 1 + j));
    forall k | 0 <= k <= |b| ensures Times(c, Times(Value(b[..k]), Unit(j))) == c * Value(b[..k]) * Unit(j) {
      TimesIsMul(Value(b[..k]), Unit(j));
      TimesIsMul(c, Value(b[..k]) * Unit(j));
      MulAssoc(c, Value(b[..k]), Unit(j));
    }
  }

  /** Adds one limb times b, shifted by j limbs, into a; what does not fit is
      carried out of the top. */
  method AddRow(a: array<Limb>, b: array<Limb>, j: nat, c: Limb) returns (ghost carry: nat)
    requires a.Length == b.Length && j <= a.Length && a != b
    modifies a
    ensures Value(a[..]) + Times(carry, Unit(a.Length)) ==
            old(Value(a[..])) + Times(c, Times(Value(b[..][..a.Length - j]), Unit(j)))
  {
    ghost var v0, y := Value(a[..]), b[..];
    var carry64 := 0;
    var i := 0;
    TimesIsMul(c, 0);
    while i + j < a.Length
      invariant 0 <= i && i + j <= a.Length && 0 <= carry64 < BASE
      invariant Value(a[..]) + Times(carry64, Unit(i + j)) == v0 + Times(c, Times(Value(y[..i]), Unit(j)))
    {
      ProductFits(c, b[i], a[i + j], carry64);
      var n := carry64 + a[i + j] + c * b[i];
      assert n < UINT64_LIMIT;
      RowAccount(a[..], y, i, j, c, carry64, n, v0);
      ghost var before := a[..];
      var low: Limb := n % BASE;
      a[i + j] := low;
      assert a[..] == before[i + j := low];
      carry64 := n / BASE;
      i := i + 1;
    }
    carry := carry64;
  }

  lemma {:induction false} ValueTop(s: seq<Limb>, i: nat) returns (t: nat)
    requires i <= |s|
    ensures Value(s) == Value(s[..i]) + t * Unit(i)
  {
    if i == |s| {
      assert s[..i] == s;
      t := 0;
    } else {
      var n := |s| - 1;
      var t0 := ValueTop(s[..n], i);
      assert s[..n][..i] == s[..i];
      UnitSplit(n, i);
      MulAssoc(s[n], Unit(n - i), Unit(i));
      Distribute(t0, s[n] * Unit(n - i), Unit(i));
      t := t0 + s[n] * Unit(n - i);
    }
  }

  /** A whole row is the part that fits plus a multiple of the modulus. */
  lemma WholeRow(y: seq<Limb>, j: nat, c: Limb) returns (t: nat)
    requires j <= |y|
    ensures 0 <= c * Unit(j)
    ensures Times(c * Unit(j), Value(y)) == Times(c, Times(Value(y[..|y| - j]), Unit(j))) + Times(t, Unit(|y|))
  {
    var low := Value(y[..|y| - j]);
    var t0 := ValueTop(y, |y| - j);
    MulMonotone(0, c, t0);
    MulMonotone(0, c, Unit(j));
    t := c * t0;
    UnitSplit(|y|, j);
    RowProducts(c, low, t0, Unit(|y| - j), Unit(j));
    TimesIsMul(t, Unit(|y|));
    TimesIsMul(c * Unit(j), Value(y));
    TimesIsMul(low, Unit(j));
    TimesIsMul(c, low * Unit(j));
  }

  lemma RowProducts(c: int, low: int, t: int, u: int, w: int)
    ensures c * w * (low + t * u) == c * (low * w) + c * t * (u * w)
  {
    MulAssoc(c, w, low + t * u);
    Distribute(low, t * u, w);
    Distribute(w * low, w * (t * u), c);
    MulAssoc(t, u, w);
    MulAssoc(c, t, u * w);
  }

  /** After one more row the accumulator is congruent to one more limb's worth of the product. */
  lemma ProductAccount(x: seq<Limb>, y: seq<Limb>, j: nat, v: int, v': int, q: nat, carry: nat) returns (q': nat)
    requires |x| == |y| && j < |x|
    requires v + Times(q, Unit(|x|)) == Times(Value(x[..j]), Value(y))
    requires v' + Times(carry, Unit(|x|)) == v + Times(x[j], Times(Value(y[..|x| - j]), Unit(j)))
    ensures v' + Times(q', Unit(|x|)) == Times(Value(x[..j + 1]), Value(y))
  {
    var t := WholeRow(y, j, x[j]);
    ValueSnoc(x, j);
    TimesAdd(Value(x[..j]), x[j] * Unit(j), Value(y));
    TimesAdd(q, carry, Unit(|x|));
    TimesAdd(q + carry, t, Unit(|x|));
    q' := q + carry + t;
  }

  lemma ProductDone(x: nat, y: nat, m: nat, q: nat, v: nat)
    requires 0 < m && v < m && v + Times(q, m) == Times(x, y)
    ensures v == x * y % m
  {
    TimesIsMul(q, m);
    TimesIsMul(x, y);
    DivModUnique(x * y, m, q, v);
  }

  /** a *= b */
  method Mul(a: array<Limb>, b: array<Limb>)
    requires a.Length == b.Length
    modifies a
    ensures Value(a[..]) == old(Value(a[..])) * old(Value(b[..])) % Unit(a.Length)
  {
    var acc := Product(a, b);
    Assign(a, acc);
  }

  method Product(a: array<Limb>, b: array<Limb>) returns (acc: array<Limb>)
    requires a.Length == b.Length
    ensures fresh(acc) && acc.Length == a.Length
    ensures Value(acc[..]) == Value(a[..]) * Value(b[..]) % Unit(a.Length)
  {
    ghost var x, y, q := a[..], b[..], 0;
    acc := new Limb[a.Length](_ => 0);
    ValueZeros(acc[..]);
    for j := 0 to a.Length
      invariant a[..] == x && b[..] == y
      invariant Value(acc[..]) + Times(q, Unit(a.Length)) == Times(Value(x[..j]), Value(y))
    {
      ghost var v := Value(acc[..]);
      ghost var carry := AddRow(acc, b, j, a[j]);
      q := ProductAccount(x, y, j, v, Value(acc[..]), q, carry);
    }
    assert x[..a.Length] == x;
    ValueBound(acc[..]);
    ProductDone(Value(x), Value(y), Unit(a.Length), q, Value(acc[..]));
  }

  /** a = b */
  method Assign(a: array<Limb>, b: array<Limb>)
    requires a.Length == b.Length
    modifies a
    ensures a[..] == old(b[..])
  {
    ghost var y := b[..];
    for i := 0 to a.Length
      invariant forall j :: 0 <= j < i ==> a[j] == y[j]
      invariant forall j :: i <= j < a.Length ==> b[j] == y[j]
    {
      a[i] := b[i];
    }
  }

  method Copy(b: array<Limb>) returns (a: array<Limb>)
    ensures fresh(a) && a.Length == b.Length && a[..] == b[..]
  {
    a := new Limb[b.Length](_ => 0);
    Assign(a, b);
  }

  // ----- Division -----

  /** Bit `shift` of the quotient has not been set yet, nor any below it. */
  ghost predicate ClearUpTo(p: seq<Limb>, shift: int) {
    0 <= shift < 32 * |p| ==>
      && (forall j :: 0 <= j < shift / 32 ==> p[j] == 0)
      && p[shift / 32] % Pow2(shift % 32 + 1) == 0
  }

  lemma MultipleOfHigher(p: nat, t: nat)
    requires p % Pow2(t + 1) == 0
    ensures p % Pow2(t) == 0 && (p + Pow2(t)) % Pow2(t) == 0
  {
    var h, b := p / Pow2(t + 1), Pow2(t);
    DivMod(p, Pow2(t + 1));
    MulAssoc(h, 2, b);
    assert p == (2 * h) * b;
    DivModUnique(p, b, 2 * h, 0);
    Distribute(2 * h, 1, b);
    DivModUnique(p + b, b, 2 * h + 1, 0);
  }

  lemma FreeBit(p: nat, t: nat)
    requires p < BASE && t < 32 && p % Pow2(t + 1) == 0
    ensures BitOr(p, Pow2(t)) == p + Pow2(t) < BASE
  {
    var h := p / Pow2(t + 1);
    DivMod(p, Pow2(t + 1));
    BitOrAdds(Pow2(t), h, t + 1);
    OrFits(Pow2(t), h, t + 1);
  }

  lemma BitSetEffect(x: seq<Limb>, shift: nat, limb: Limb)
    requires shift < 32 * |x| && ClearUpTo(x, shift)
    requires limb as int == x[shift / 32] as int + Pow2(shift % 32)
    ensures Value(x[shift / 32 := limb]) == Value(x) + Pow2(shift)
    ensures ClearUpTo(x[shift / 32 := limb], shift - 1)
    ensures ClearUpTo(x, shift - 1)
  {
    var k, t := shift / 32, shift % 32;
    ValueUpdate(x, k, limb);
    Pow2Add(t, 32 * k);
    MultipleOfHigher(x[k], t);
    if t == 0 && k > 0 {
      assert (shift - 1) / 32 == k - 1;
      DivModUnique(0, Pow2((shift - 1) % 32 + 1), 0, 0);
    }
  }

  /** a[shift / 32] |= 1 << (shift & 31) */
  method SetBit(a: array<Limb>, shift: nat)
    requires shift < 32 * a.Length && ClearUpTo(a[..], shift)
    modifies a
    ensures Value(a[..]) == old(Value(a[..])) + Pow2(shift)
    ensures ClearUpTo(a[..], shift - 1)
  {
    ghost var x := a[..];
    FreeBit(a[shift / 32], shift % 32);
    a[shift / 32] := BitOr(a[shift / 32], Pow2(shift % 32));
    assert a[..] == x[shift / 32 := a[shift / 32]];
    BitSetEffect(x, shift, a[shift / 32]);
  }

  /** One round of shift-and-subtract keeps num + quotient * divisor. */
  ghost predicate DivisionInv(num: nat, quotient: nat, dividend: nat, divisor: nat, shift: int)
    requires shift >= -1
  {
    && num + Times(quotient, divisor) == dividend
    && num < Times(divisor, Pow2(shift + 1))
  }

  lemma ZeroIsClear(p: seq<Limb>, shift: nat)
    requires forall i :: 0 <= i < |p| ==> p[i] == 0
    ensures Value(p) == 0 && ClearUpTo(p, shift)
  {
    ValueZeros(p);
    DivModUnique(0, Pow2(shift % 32 + 1), 0, 0);
  }

  lemma DivisionStarts(dividend: nat, divisor: nat, numBits: nat, divBits: nat, width: nat)
    requires 0 < divBits <= numBits <= 32 * width
    requires dividend < Pow2(numBits) && Pow2(divBits - 1) <= divisor < Pow2(divBits)
    ensures DivisionInv(dividend, 0, dividend, divisor, numBits - divBits)
    ensures divisor * Pow2(numBits - divBits) % Unit(width) == Times(divisor, Pow2(numBits - divBits))
  {
    var shift := numBits - divBits;
    Pow2Add(divBits - 1, shift + 1);
    MulMonotone(Pow2(divBits - 1), divisor, Pow2(shift + 1));
    TimesIsMul(divisor, Pow2(shift + 1));
    Pow2Add(divBits, shift);
    MulStrict(divisor, Pow2(divBits), Pow2(shift));
    TimesIsMul(divisor, Pow2(shift));
    FitsInWidth(divisor * Pow2(shift), numBits, width);
  }

  lemma DivisionStep(num: nat, quotient: nat, dividend: nat, divisor: nat, shift: nat, div: nat)
    requires DivisionInv(num, quotient, dividend, divisor, shift)
    requires div == Times(divisor, Pow2(shift))
    ensures num < div ==> DivisionInv(num, quotient, dividend, divisor, shift - 1)
    ensures num >= div ==> DivisionInv(num - div, quotient + Pow2(shift), dividend, divisor, shift - 1)
  {
    var p := Pow2(shift);
    TimesIsMul(divisor, p);
    TimesIsMul(divisor, 2 * p);
    TimesIsMul(quotient, divisor);
    TimesIsMul(quotient + p, divisor);
    Distribute(quotient, p, divisor);
    MulAssoc(divisor, 2, p);
  }

  /** The shifted divisor, shifted back by one. */
  lemma ShiftedBack(divisor: nat, shift: nat, div: nat)
    requires shift > 0 && div == Times(divisor, Pow2(shift))
    ensures div / Pow2(1) == Times(divisor, Pow2(shift - 1))
  {
    TimesIsMul(divisor, Pow2(shift));
    TimesIsMul(divisor, Pow2(shift - 1));
    MulAssoc(divisor, Pow2(shift - 1), 2);
    DivModUnique(div, Pow2(1), divisor * Pow2(shift - 1), 0);
  }

  lemma DivisionEnds(num: nat, quotient: nat, dividend: nat, divisor: nat)
    requires DivisionInv(num, quotient, dividend, divisor, -1) && divisor > 0
    ensures quotient == dividend / divisor && num == dividend % divisor
  {
    TimesIsMul(divisor, 1);
    TimesIsMul(quotient, divisor);
    DivModUnique(dividend, divisor, quotient, num);
  }

  lemma FitsInWidth(v: nat, bits: nat, width: nat)
    requires v < Pow2(bits) && bits <= 32 * width
    ensures v < Unit(width) && v % Unit(width) == v
  {
    Pow2Monotone(bits, 32 * width);
    DivModUnique(v, Unit(width), 0, v);
  }

  /** a /= b, leaving the remainder in the working copy `num`. `thrown` is the
      source's division-by-zero error. */
  method Div(a: array<Limb>, b: array<Limb>) returns (thrown: bool, num: array<Limb>)
    requires a.Length == b.Length
    modifies a
    ensures fresh(num) && num.Length == a.Length
    ensures thrown <==> old(Value(b[..])) == 0
    ensures thrown ==> Value(a[..]) == 0
    ensures !thrown ==> Value(a[..]) == old(Value(a[..])) / old(Value(b[..]))
    ensures !thrown ==> Value(num[..]) == old(Value(a[..])) % old(Value(b[..]))
  {
    var div := Copy(b);
    num := Copy(a);
    ghost var n, d := Value(a[..]), Value(b[..]);
    Clear(a);
    var numBits := Bits(num);
    var divBits := Bits(div);
    if divBits == 0 { return true, num; }
    if divBits > numBits {
      if numBits > 0 { Pow2Monotone(numBits, divBits - 1); }
      DivModUnique(n, d, 0, n);
      return false, num;
    }
    DivideFrom(a, num, div, numBits, divBits);
    return false, num;
  }

  /** The case where the divisor is not the longer number: align it and subtract
      it, one bit lower each time. */
  method DivideFrom(a: array<Limb>, num: array<Limb>, div: array<Limb>, numBits: nat, divBits: nat)
    requires a.Length == num.Length == div.Length && a != num && a != div && num != div
    requires forall i :: 0 <= i < a.Length ==> a[i] == 0
    requires 0 < divBits <= numBits <= 32 * a.Length
    requires Value(num[..]) < Pow2(numBits) && Pow2(divBits - 1) <= Value(div[..]) < Pow2(divBits)
    modifies a, num, div
    ensures Value(a[..]) == old(Value(num[..])) / old(Value(div[..]))
    ensures Value(num[..]) == old(Value(num[..])) % old(Value(div[..]))
  {
    var shift := numBits - divBits;
    ghost var n, d := Value(num[..]), Value(div[..]);
    DivisionStarts(n, d, numBits, divBits, a.Length);
    ZeroIsClear(a[..], shift);
    ShiftLeft(div, shift);
    DivideLoop(a, num, div, shift, n, d);
    DivisionEnds(Value(num[..]), Value(a[..]), n, d);
  }

  method DivideLoop(a: array<Limb>, num: array<Limb>, div: array<Limb>, start: nat, ghost n: nat, ghost d: nat)
    requires a.Length == num.Length == div.Length && a != num && a != div && num != div
    requires start < 32 * a.Length && d > 0 && ClearUpTo(a[..], start)
    requires DivisionInv(Value(num[..]), Value(a[..]), n, d, start)
    requires Value(div[..]) == Times(d, Pow2(start))
    modifies a, num, div
    ensures DivisionInv(Value(num[..]), Value(a[..]), n, d, -1)
  {
    var shift: int := start;
    while shift >= 0
      invariant -1 <= shift <= start
      invariant ClearUpTo(a[..], shift)
      invariant DivisionInv(Value(num[..]), Value(a[..]), n, d, shift)
      invariant shift >= 0 ==> Value(div[..]) == Times(d, Pow2(shift))
    {
      if shift > 0 {
        ShiftedBack(d, shift, Value(div[..]));
      }
      SubtractIfFits(a, num, div, shift, n, d);
      ghost var x, y := a[..], num[..];
      ShiftRight(div, 1);
      assert a[..] == x && num[..] == y;
      shift := shift - 1;
    }
  }

  /** One round: subtract the shifted divisor if it fits, and set the quotient's bit. */
  method SubtractIfFits(a: array<Limb>, num: array<Limb>, div: array<Limb>, shift: nat, ghost n: nat, ghost d: nat)
    requires a.Length == num.Length == div.Length && a != num && a != div && num != div
    requires shift < 32 * a.Length && ClearUpTo(a[..], shift)
    requires DivisionInv(Value(num[..]), Value(a[..]), n, d, shift)
    requires Value(div[..]) == Times(d, Pow2(shift))
    modifies a, num
    ensures ClearUpTo(a[..], shift - 1)
    ensures DivisionInv(Value(num[..]), Value(a[..]), n, d, shift - 1)
  {
    ghost var v, w := Value(num[..]), Value(div[..]);
    DivisionStep(v, Value(a[..]), n, d, shift, w);
    ClearBelow(a[..], shift);
    var c := CompareTo(num, div);
    if c >= 0 {
      ValueBound(num[..]);
      DivModUnique(v - w, Unit(a.Length), 0, v - w);
      Sub(num, div);
      SetBit(a, shift);
    }
  }

  lemma ClearBelow(x: seq<Limb>, shift: nat)
    requires shift < 32 * |x| && ClearUpTo(x, shift)
    ensures ClearUpTo(x, shift - 1)
  {
    FreeBit(x[shift / 32], shift % 32);
    BitSetEffect(x, shift, x[shift / 32] + Pow2(shift % 32));
  }
}
