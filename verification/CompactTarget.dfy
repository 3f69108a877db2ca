/** The compact float format for 256-bit targets, and the work of a block. */
module CompactTarget {
  import opened Powers
  import opened ArithUint

  const WIDTH: nat := 8
  const SIGN_BIT: int := 0x0080_0000
  const MANTISSA_LIMIT: int := 0x0080_0000
  const EXPONENT_UNIT: int := 0x0100_0000
  const UINT32_LIMIT: int := 0x1_0000_0000

  ghost function Pow256(k: nat): nat {
    Pow2(8 * k)
  }

  function Mantissa(c: nat): nat { c % MANTISSA_LIMIT }
  function Exponent(c: nat): nat { c / EXPONENT_UNIT }
  predicate Sign(c: nat) { c / SIGN_BIT % 2 == 1 }

  /** The number a compact value denotes, whatever its size: mantissa times
      256 to the power of exponent minus three, rounded down. */
  ghost function Number(c: nat): int {
    if Exponent(c) <= 3 then Mantissa(c) / Pow256(3 - Exponent(c))
    else Mantissa(c) * Pow256(Exponent(c) - 3)
  }

  lemma NumberNatural(c: nat)
    ensures Number(c) >= 0
  {
    if Exponent(c) <= 3 {
      DivMod(Mantissa(c), Pow256(3 - Exponent(c)));
    } else {
      MulMonotone(0, Mantissa(c), Pow256(Exponent(c) - 3));
    }
  }

  lemma Pow256Values()
    ensures Pow256(0) == 1 && Pow256(1) == 256 && Pow256(2) == 0x1_0000 && Pow256(3) == 0x100_0000
  {
    assert Pow2(8) == 256;
    Pow2Add(8, 8);
    Pow2Add(16, 8);
  }

  lemma Pow256Add(a: nat, b: nat)
    ensures Pow256(a + b) == Pow256(a) * Pow256(b)
  {
    Pow2Add(8 * a, 8 * b);
  }

  lemma Pow256Split(a: nat, b: nat)
    requires b <= a
    ensures Pow256(a) == Pow256(a - b) * Pow256(b)
  {
    Pow256Add(a - b, b);
  }

  /** a = b for a 64-bit number */
  method SetSmall(a: array<Limb>, b: nat)
    requires a.Length >= 2 && b < UINT64_LIMIT
    modifies a
    ensures Value(a[..]) == b
  {
    a[0] := b % BASE;
    a[1] := b / BASE;
    for i := 2 to a.Length
      invariant a[0] == b % BASE && a[1] == b / BASE
      invariant forall j :: 2 <= j < i ==> a[j] == 0
    {
      a[i] := 0;
    }
    SmallValue(a[..]);
  }

  lemma {:induction false} SmallValue(s: seq<Limb>)
    requires |s| >= 2 && forall j :: 2 <= j < |s| ==> s[j] == 0
    ensures Value(s) == s[0] + s[1] * BASE
  {
    if |s| == 2 {
      TwoLimbs(s);
      assert s[..2] == s;
    } else {
      SmallValue(s[..|s| - 1]);
    }
  }

  /** The three-way test on size and mantissa is exact. */
  lemma OverflowTest(word: nat, size: nat)
    requires word < MANTISSA_LIMIT && size > 3
    ensures word != 0 && (size > 34 || (word > 0xff && size > 33) || (word > 0xffff && size > 32))
            <==> word * Pow256(size - 3) >= Unit(WIDTH)
  {
    var k := size - 3;
    if k >= 32 {
      OverflowLarge(word, k);
    } else if k == 31 {
      OverflowAt(word, 31);
    } else if k == 30 {
      OverflowAt(word, 30);
    } else {
      NoOverflow(word, k);
    }
    Pow256Values();
  }

  lemma OverflowLarge(word: nat, k: nat)
    requires k >= 32
    ensures word * Pow256(k) >= Unit(WIDTH) <==> word > 0
  {
    Pow2Monotone(256, 8 * k);
    if word > 0 {
      MulMonotone(1, word, Pow256(k));
    }
  }

  lemma NoOverflow(word: nat, k: nat)
    requires word < MANTISSA_LIMIT && k <= 29
    ensures word * Pow256(k) < Unit(WIDTH)
  {
    Pow256Values();
    OverflowAt(word, 29);
    Pow2Monotone(8 * k, 8 * 29);
    MulMonotone(Pow256(k), Pow256(29), word);
  }

  lemma OverflowAt(word: nat, k: nat)
    requires k <= 32
    ensures word * Pow256(k) >= Unit(WIDTH) <==> word >= Pow256(32 - k)
  {
    assert Unit(WIDTH) == Pow256(32);
    Pow256Add(32 - k, k);
    CompareScaled(word, Pow256(32 - k), Pow256(k));
  }

  lemma CompareScaled(a: int, b: int, c: nat)
    requires c > 0
    ensures a * c >= b * c <==> a >= b
  {
    if a >= b { MulMonotone(b, a, c); } else { MulStrict(a, b, c); }
  }

  /** Decodes a compact value into a. */
  method SetCompact(a: array<Limb>, nCompact: nat) returns (negative: bool, overflow: bool)
    requires a.Length == WIDTH && nCompact < UINT32_LIMIT
    modifies a
    ensures Value(a[..]) == Number(nCompact) % Unit(WIDTH)
    ensures negative <==> Sign(nCompact) && Number(nCompact) != 0
    ensures overflow <==> Number(nCompact) >= Unit(WIDTH)
  {
    var nSize := nCompact / EXPONENT_UNIT;
    var nWord := nCompact % MANTISSA_LIMIT;
    if nSize <= 3 {
      nWord := nWord / Pow2(8 * (3 - nSize));
      SmallNumber(nCompact);
      SetSmall(a, nWord);
    } else {
      SetSmall(a, nWord);
      ShiftLeft(a, 8 * (nSize - 3));
      OverflowTest(nWord, nSize);
      LargeNumberZero(nWord, nSize - 3);
    }
    negative := nWord != 0 && nCompact / SIGN_BIT % 2 == 1;
    overflow := nWord != 0 && (nSize > 34 || (nWord > 0xff && nSize > 33) || (nWord > 0xffff && nSize > 32));
  }

  lemma SmallNumber(c: nat)
    requires Exponent(c) <= 3
    ensures Number(c) < MANTISSA_LIMIT && Number(c) < Unit(WIDTH) && Number(c) % Unit(WIDTH) == Number(c)
  {
    var p := Pow256(3 - Exponent(c));
    NumberNatural(c);
    DivMod(Mantissa(c), p);
    MulMonotone(1, p, Number(c));
    Pow256Values();
    Pow2Monotone(24, 32 * WIDTH);
    DivModUnique(Number(c), Unit(WIDTH), 0, Number(c));
  }

  lemma LargeNumberZero(m: nat, k: nat)
    ensures m * Pow256(k) == 0 <==> m == 0
  {
    if m > 0 { MulMonotone(1, m, Pow256(k)); }
  }

  // ----- Encoding -----

  /** The least number of bytes that hold v. */
  ghost predicate ByteLength(v: nat, n: nat) {
    v < Pow256(n) && (n > 0 ==> Pow256(n - 1) <= v)
  }

  /** The top three bytes of an n-byte number, padded on the right if shorter. */
  ghost function Leading(v: nat, n: nat): int {
    if n <= 3 then v * Pow256(3 - n) else v / Pow256(n - 3)
  }

  /** GetCompact's result for an n-byte number. */
  ghost function Encoded(v: nat, n: nat, negative: bool): int {
    var w := Leading(v, n);
    if w >= SIGN_BIT then Packed(w / 256, n + 1, negative) else Packed(w, n, negative)
  }

  function Packed(word: int, size: int, negative: bool): int {
    size * EXPONENT_UNIT + word + if negative && word != 0 then SIGN_BIT else 0
  }

  lemma LeadingBound(v: nat, n: nat)
    requires ByteLength(v, n)
    ensures 0 <= Leading(v, n) < 0x100_0000
  {
    Pow256Values();
    if n <= 3 {
      Pow256Split(3, 3 - n);
      MulStrict(v, Pow256(n), Pow256(3 - n));
      MulMonotone(0, v, Pow256(3 - n));
    } else {
      Pow256Split(n, n - 3);
      var p := Pow256(n - 3);
      DivMod(v, p);
      if v / p >= 0x100_0000 { MulMonotone(0x100_0000, v / p, p); }
    }
  }

  lemma BytesOfBits(v: nat, bits: nat)
    requires bits == 0 <==> v == 0
    requires bits > 0 ==> Pow2(bits - 1) <= v < Pow2(bits)
    ensures ByteLength(v, (bits + 7) / 8)
  {
    if bits > 0 {
      var n := (bits + 7) / 8;
      Pow2Monotone(bits, 8 * n);
      Pow2Monotone(8 * (n - 1), bits - 1);
    }
  }

  lemma ByteLengthFits(v: nat, n: nat)
    requires ByteLength(v, n) && v < Unit(WIDTH)
    ensures n <= 32
  {
    if n > 32 { Pow2Monotone(256, 8 * (n - 1)); }
  }

  /** The low 64 bits. */
  method GetLow64(a: array<Limb>) returns (low: nat)
    requires a.Length >= 2
    ensures low < UINT64_LIMIT
    ensures Value(a[..]) < UINT64_LIMIT ==> low == Value(a[..])
  {
    TwoLimbs(a[..]);
    low := a[0] + a[1] * BASE;
    ghost var t := ValueTop(a[..], 2);
    if t > 0 { MulMonotone(1, t, Unit(2)); }
  }

  /** The top three bytes as the code takes them. */
  method LeadingBytes(a: array<Limb>, nSize: nat) returns (word: nat)
    requires a.Length == WIDTH && ByteLength(Value(a[..]), nSize)
    ensures word == Leading(Value(a[..]), nSize)
  {
    ghost var v := Value(a[..]);
    LeadingBound(v, nSize);
    Pow256Values();
    if nSize <= 3 {
      Pow2Monotone(8 * nSize, 24);
      var low := GetLow64(a);
      word := low * Pow2(8 * (3 - nSize));
    } else {
      var bn := Copy(a);
      ShiftRight(bn, 8 * (nSize - 3));
      word := GetLow64(bn);
    }
  }

  /** GetCompact's last part: move the mantissa clear of the sign bit and join
      the three fields, which share no bits. The source's two assertions hold. */
  method Pack(leading: nat, size: nat, negative: bool) returns (nCompact: nat)
    requires leading < EXPONENT_UNIT && size <= 32
    ensures nCompact < UINT32_LIMIT
    ensures nCompact == if leading >= SIGN_BIT then Packed(leading / 256, size + 1, negative)
                        else Packed(leading, size, negative)
  {
    var word, nSize := leading, size;
    if word / SIGN_BIT % 2 == 1 {
      word := word / 256;
      nSize := nSize + 1;
    }
    assert word < MANTISSA_LIMIT;
    assert nSize < 256;
    nCompact := nSize * EXPONENT_UNIT + word;
    nCompact := nCompact + if negative && word != 0 then SIGN_BIT else 0;
  }

  /** Encodes a as a compact value. */
  method GetCompact(a: array<Limb>, negative: bool) returns (nCompact: nat)
    requires a.Length == WIDTH
    ensures nCompact < UINT32_LIMIT
    ensures exists n :: ByteLength(Value(a[..]), n) && nCompact == Encoded(Value(a[..]), n, negative)
  {
    var bits := Bits(a);
    var nSize := (bits + 7) / 8;
    BytesOfBits(Value(a[..]), bits);
    ValueBound(a[..]);
    ByteLengthFits(Value(a[..]), nSize);
    LeadingBound(Value(a[..]), nSize);
    var word := LeadingBytes(a, nSize);
    nCompact := Pack(word, nSize, negative);
    assert nCompact == Encoded(Value(a[..]), nSize, negative);
  }

  // ----- Round trip -----

  lemma {:induction false} ByteLengthUnique(v: nat, n: nat, m: nat)
    requires ByteLength(v, n) && ByteLength(v, m)
    ensures n == m
  {
    if n < m {
      Pow2Monotone(8 * n, 8 * (m - 1));
    } else if m < n {
      Pow2Monotone(8 * m, 8 * (n - 1));
    }
  }

  /** How many low-order bytes the encoding of an n-byte number drops. */
  ghost function Dropped(v: nat, n: nat): nat {
    var size := if Leading(v, n) >= SIGN_BIT then n + 1 else n;
    if size <= 3 then 0 else size - 3
  }

  lemma PackedFields(word: int, size: int, negative: bool)
    requires 0 <= word < MANTISSA_LIMIT && 0 <= size
    ensures Packed(word, size, negative) >= 0
    ensures Mantissa(Packed(word, size, negative)) == word
    ensures Exponent(Packed(word, size, negative)) == size
    ensures Sign(Packed(word, size, negative)) <==> negative && word != 0
  {
    var c := Packed(word, size, negative);
    var sign := if negative && word != 0 then 1 else 0;
    DivModUnique(c, MANTISSA_LIMIT, 2 * size + sign, word);
    DivModUnique(c, EXPONENT_UNIT, size, sign * SIGN_BIT + word);
  }

  lemma DivTwice(v: nat, a: nat, b: nat)
    requires a > 0 && b > 0
    ensures v / a / b == v / (a * b)
  {
    var q := v / a / b;
    DivMod(v, a);
    DivMod(v / a, b);
    var r1, r2 := v % a, v / a % b;
    assert v == (q * b + r2) * a + r1;
    Distribute(q * b, r2, a);
    MulAssoc(q, b, a);
    MulMonotone(r2, b - 1, a);
    Distribute(b, 1, a);
    MulMonotone(0, r2, a);
    DivModUnique(v, a * b, q, r2 * a + r1);
  }

  /** A number other than zero has a mantissa other than zero. */
  lemma LeadingNonZero(v: nat, n: nat)
    requires ByteLength(v, n)
    ensures Leading(v, n) == 0 <==> v == 0
  {
    if n <= 3 {
      LargeNumberZero(v, 3 - n);
    } else {
      Pow256Split(n - 1, n - 3);
      Pow256Values();
      var p := Pow256(n - 3);
      DivMod(v, p);
      MulMonotone(1, Pow256(2), p);
    }
  }

  /** Decoding an encoded number gives it back with its low-order bytes cleared. */
  lemma DecodeEncoded(v: nat, n: nat, negative: bool)
    requires ByteLength(v, n)
    ensures Encoded(v, n, negative) >= 0 && (Sign(Encoded(v, n, negative)) <==> negative && v != 0)
    ensures Number(Encoded(v, n, negative)) == v / Pow256(Dropped(v, n)) * Pow256(Dropped(v, n))
  {
    var w := Leading(v, n);
    LeadingBound(v, n);
    LeadingNonZero(v, n);
    if w < SIGN_BIT {
      PackedFields(w, n, negative);
      DecodeShort(v, n);
    } else {
      PackedFields(w / 256, n + 1, negative);
      DecodeLong(v, n);
    }
  }

  /** The mantissa as it is. */
  lemma DecodeShort(v: nat, n: nat)
    requires ByteLength(v, n) && 0 <= Leading(v, n) < SIGN_BIT
    ensures (if n <= 3 then Leading(v, n) / Pow256(3 - n) else Leading(v, n) * Pow256(n - 3))
            == v / Pow256(Dropped(v, n)) * Pow256(Dropped(v, n))
  {
    if n <= 3 {
      DivModUnique(Leading(v, n), Pow256(3 - n), v, 0);
      DivModUnique(v, 1, v, 0);
    }
  }

  /** The mantissa moved clear of the sign bit. */
  lemma DecodeLong(v: nat, n: nat)
    requires ByteLength(v, n) && Leading(v, n) >= SIGN_BIT
    ensures (if n + 1 <= 3 then Leading(v, n) / 256 / Pow256(2 - n) else Leading(v, n) / 256 * Pow256(n - 2))
            == v / Pow256(Dropped(v, n)) * Pow256(Dropped(v, n))
  {
    var w := Leading(v, n);
    Pow256Values();
    if n < 3 {
      Pow256Add(2 - n, 1);
      MulAssoc(v, Pow256(2 - n), 256);
      DivModUnique(w, 256, v * Pow256(2 - n), 0);
      DivModUnique(w / 256, Pow256(2 - n), v, 0);
      DivModUnique(v, 1, v, 0);
    } else {
      Pow256Add(n - 3, 1);
      DivTwice(v, Pow256(n - 3), 256);
    }
  }

  lemma DroppedIsFew(v: nat, n: nat)
    ensures Dropped(v, n) == 0 || Dropped(v, n) <= n - 2
  {
  }

  /** Clearing the dropped bytes does not shorten the number. */
  lemma ClearedLength(v: nat, n: nat, k: nat)
    requires ByteLength(v, n) && (k == 0 || k < n)
    ensures v / Pow256(k) * Pow256(k) >= 0 && v / Pow256(k) * Pow256(k) <= v
    ensures ByteLength(v / Pow256(k) * Pow256(k), n)
  {
    var p := Pow256(k);
    DivMod(v, p);
    if k == 0 {
      assert p == 1;
      DivModUnique(v, 1, v, 0);
    } else {
      Pow256Split(n - 1, k);
      var top := Pow256(n - 1 - k);
      if v / p < top {
        MulMonotone(v / p, top - 1, p);
        Distribute(top, 1, p);
      }
      MulMonotone(top, v / p, p);
    }
  }

  lemma ClearedLeading(v: nat, n: nat)
    requires ByteLength(v, n)
    ensures var p, w := Pow256(Dropped(v, n)), Leading(v, n);
            v / p * p >= 0 && Leading(v / p * p, n) == if w < SIGN_BIT || n < 3 then w else w / 256 * 256
  {
    var k, w := Dropped(v, n), Leading(v, n);
    var p := Pow256(k);
    LeadingBound(v, n);
    DroppedIsFew(v, n);
    ClearedLength(v, n, k);
    Pow256Values();
    if k == 0 {
      DivModUnique(v, 1, v, 0);
      if n > 3 { DivModUnique(v, 1, v, 0); }
    } else if n > 3 {
      if w < SIGN_BIT {
        DivModUnique(w * p, p, w, 0);
      } else {
        Pow256Add(n - 3, 1);
        DivTwice(v, Pow256(n - 3), 256);
        var q := Pow256(n - 3);
        MulAssoc(w / 256, 256, q);
        MulAssoc(w / 256, q, 256);
        DivModUnique(w / 256 * p, q, w / 256 * 256, 0);
      }
    }
  }

  lemma EncodeCleared(v: nat, n: nat, negative: bool)
    requires ByteLength(v, n)
    ensures var u := v / Pow256(Dropped(v, n)) * Pow256(Dropped(v, n));
            0 <= u <= v && ByteLength(u, n) && Encoded(u, n, negative) == Encoded(v, n, negative)
  {
    LeadingBound(v, n);
    DroppedIsFew(v, n);
    ClearedLength(v, n, Dropped(v, n));
    ClearedLeading(v, n);
    var w, w' := Leading(v, n), Leading(v / Pow256(Dropped(v, n)) * Pow256(Dropped(v, n)), n);
    assert w >= SIGN_BIT ==> w' >= SIGN_BIT && w' / 256 == w / 256;
  }

  /** Every number: its encoding decodes with the sign it was given, unless it is zero,
      to the number with only low-order bytes cleared, and encoding that again changes
      nothing. */
  lemma CompactRoundTrip(v: nat, n: nat, negative: bool)
    requires ByteLength(v, n)
    ensures Encoded(v, n, negative) >= 0 && (Sign(Encoded(v, n, negative)) <==> negative && v != 0)
    ensures var u := Number(Encoded(v, n, negative));
            && 0 <= u <= v && (u == 0 <==> v == 0)
            && u == v - v % Pow256(Dropped(v, n))
            && ByteLength(u, n) && Encoded(u, n, negative) == Encoded(v, n, negative)
  {
    DecodeEncoded(v, n, negative);
    EncodeCleared(v, n, negative);
    DivMod(v, Pow256(Dropped(v, n)));
    if v > 0 {
      assert n > 0;
    }
  }

  /** Zero has no sign. */
  lemma EncodedZero(n: nat, negative: bool)
    requires ByteLength(0, n)
    ensures Encoded(0, n, negative) == Encoded(0, n, false)
  {
    LeadingNonZero(0, n);
  }

  /** Encodes, decodes and encodes again. Only the k lowest bytes are lost, and only once. */
  method Reencode(a: array<Limb>, negative: bool)
    returns (c: nat, sign: bool, overflow: bool, again: nat, b: array<Limb>, ghost k: nat)
    requires a.Length == WIDTH
    ensures again == c && !overflow && (sign <==> negative && Value(a[..]) != 0)
    ensures b.Length == WIDTH && Value(b[..]) == Value(a[..]) - Value(a[..]) % Pow256(k)
    ensures exists n :: ByteLength(Value(a[..]), n) && k == Dropped(Value(a[..]), n)
  {
    c := GetCompact(a, negative);
    ghost var v, n :| v == Value(a[..]) && ByteLength(v, n) && c == Encoded(v, n, negative);
    k := Dropped(v, n);
    CompactRoundTrip(v, n, negative);
    b := new Limb[WIDTH](_ => 0);
    ghost var x := a[..];
    ValueBound(x);
    sign, overflow := SetCompact(b, c);
    ghost var u := Number(c);
    DivModUnique(u, Unit(WIDTH), 0, u);
    assert a[..] == x;
    again := GetCompact(b, sign);
    ghost var m :| ByteLength(u, m) && again == Encoded(u, m, sign);
    ByteLengthUnique(u, n, m);
    if sign != negative {
      EncodedZero(n, negative);
      EncodedZero(n, sign);
    }
  }

  // ----- Block work -----

  /** The expected work of a block with compact target nBits. */
  ghost function WorkOf(nBits: nat, proofOfStake: bool): int {
    var t := Number(nBits);
    if t == 0 || Sign(nBits) || t >= Unit(WIDTH) then 0
    else if proofOfStake then (NumberNatural(nBits); Unit(WIDTH) / (t + 1))
    else 1
  }

  lemma TargetBelowMax(c: nat)
    requires Number(c) < Unit(WIDTH)
    ensures Number(c) + 1 < Unit(WIDTH)
  {
    assert Unit(WIDTH) == 2 * Pow2(255);
    if Exponent(c) <= 3 {
      SmallNumber(c);
      Pow2Monotone(31, 255);
      assert Pow2(31) == 0x8000_0000 by { BaseIsPow2(); }
    } else {
      var e, m := Exponent(c) - 3, Mantissa(c);
      assert Pow256(e) == 2 * Pow2(8 * e - 1);
      MulAssoc(m, 2, Pow2(8 * e - 1));
      MulAssoc(2, m, Pow2(8 * e - 1));
      assert Number(c) == 2 * (m * Pow2(8 * e - 1));
    }
  }

  /** 2^256 / (t + 1) without ever holding 2^256. */
  lemma WorkFormula(m: nat, t: nat)
    requires 0 < t && t + 1 < m
    ensures (m - 1 - t) / (t + 1) + 1 == m / (t + 1) < m
    ensures (t + 1) % m == t + 1 && m / (t + 1) % m == m / (t + 1)
  {
    var d, q := t + 1, (m - 1 - t) / (t + 1);
    DivMod(m - d, d);
    Distribute(q, 1, d);
    DivModUnique(m, d, q + 1, (m - d) % d);
    DivMod(m, d);
    if m / d >= m {
      MulMonotone(m, m / d, d);
      MulMonotone(2, d, m);
    }
    DivModUnique(d, m, 0, d);
    DivModUnique(m / d, m, 0, m / d);
  }

  /** A target that a block can meet: positive, without the sign and within 256 bits. */
  ghost predicate ValidTarget(nBits: nat) {
    0 < Number(nBits) < Unit(WIDTH) && !Sign(nBits)
  }

  /** The work of a target is how often it and one more go into 2^256. */
  lemma WorkMeans(nBits: nat)
    ensures ValidTarget(nBits) ==>
              var t, w := Number(nBits), WorkOf(nBits, true);
              w * (t + 1) <= Unit(WIDTH) < (w + 1) * (t + 1)
    ensures ValidTarget(nBits) ==> WorkOf(nBits, false) == 1
    ensures !ValidTarget(nBits) ==> WorkOf(nBits, true) == WorkOf(nBits, false) == 0
  {
    NumberNatural(nBits);
    if ValidTarget(nBits) {
      var t := Number(nBits);
      DivMod(Unit(WIDTH), t + 1);
      Distribute(Unit(WIDTH) / (t + 1), 1, t + 1);
    }
  }

  /** The work of a block: one for proof of work, and for proof of stake how often the
      target and one more go into 2^256. `thrown` would be a division by zero. */
  method GetBlockProof(nBits: nat, proofOfStake: bool) returns (work: array<Limb>, thrown: bool)
    requires nBits < UINT32_LIMIT
    ensures !thrown && work.Length == WIDTH
    ensures ValidTarget(nBits) && proofOfStake ==>
              var t, w := Number(nBits), Value(work[..]);
              w * (t + 1) <= Unit(WIDTH) < (w + 1) * (t + 1)
    ensures ValidTarget(nBits) && !proofOfStake ==> Value(work[..]) == 1
    ensures !ValidTarget(nBits) ==> Value(work[..]) == 0
  {
    WorkMeans(nBits);
    work, thrown := ComputeWork(nBits, proofOfStake);
  }

  method ComputeWork(nBits: nat, proofOfStake: bool) returns (work: array<Limb>, thrown: bool)
    requires nBits < UINT32_LIMIT
    ensures !thrown && work.Length == WIDTH
    ensures Value(work[..]) == WorkOf(nBits, proofOfStake)
  {
    thrown := false;
    var bnTarget := new Limb[WIDTH](_ => 0);
    work := new Limb[WIDTH](_ => 0);
    ValueZeros(work[..]);
    var negative, overflow := SetCompact(bnTarget, nBits);
    var zero := EqualTo(bnTarget, 0);
    NumberNatural(nBits);
    ghost var t := Number(nBits);
    if t < Unit(WIDTH) { DivModUnique(t, Unit(WIDTH), 0, t); }
    if negative || overflow || zero { return; }
    if !proofOfStake {
      SetSmall(work, 1);
      return;
    }
    TargetBelowMax(nBits);
    thrown := StakeWork(bnTarget, work);
  }

  /** work = ~target / (target + 1) + 1 */
  method StakeWork(target: array<Limb>, work: array<Limb>) returns (thrown: bool)
    requires target.Length == work.Length == WIDTH && target != work
    requires 0 < Value(target[..]) && Value(target[..]) + 1 < Unit(WIDTH)
    modifies work
    ensures !thrown && Value(work[..]) == Unit(WIDTH) / (Value(target[..]) + 1)
  {
    ghost var t, m := Value(target[..]), Unit(WIDTH);
    WorkFormula(m, t);
    var divisor := PlusOne(target);
    var quotient := Complement(target);
    var rest;
    thrown, rest := Div(quotient, divisor);
    var sum := PlusOne(quotient);
    Assign(work, sum);
  }

  /** a + 1 */
  method PlusOne(a: array<Limb>) returns (r: array<Limb>)
    requires a.Length == WIDTH
    ensures fresh(r) && r.Length == WIDTH
    ensures Value(r[..]) == (Value(a[..]) + 1) % Unit(WIDTH)
  {
    var one := new Limb[WIDTH](_ => 0);
    SetSmall(one, 1);
    r := Copy(a);
    Add(r, one);
  }
}
