/** Base58: arbitrary bytes as text, by rewriting one big number from base 256
    to base 58 and back in fixed-size digit buffers. */
module Base58 {
  import opened Options
  import opened Powers
  import opened Radix

  type byte = x: int | 0 <= x < 256

  // ----- The alphabet -----

  /** The six runs of the alphabet: no 0, I, O or l. */
  function Letter(d: nat): char
    requires d < 58
  {
    if d < 9 then '1' + d as char
    else if d < 17 then 'A' + (d - 9) as char
    else if d < 22 then 'J' + (d - 17) as char
    else if d < 33 then 'P' + (d - 22) as char
    else if d < 44 then 'a' + (d - 33) as char
    else 'm' + (d - 44) as char
  }

  /** The table back from characters; -1 marks a character outside the alphabet. */
  function DigitOf(c: char): int {
    if '1' <= c <= '9' then c as int - '1' as int
    else if 'A' <= c <= 'H' then c as int - 'A' as int + 9
    else if 'J' <= c <= 'N' then c as int - 'J' as int + 17
    else if 'P' <= c <= 'Z' then c as int - 'P' as int + 22
    else if 'a' <= c <= 'k' then c as int - 'a' as int + 33
    else if 'm' <= c <= 'z' then c as int - 'm' as int + 44
    else -1
  }

  predicate IsSpace(c: char) {
    c == ' ' || '\t' <= c <= '\r'
  }

  /** The letters are the digits and letters of ASCII but for 0, I, O and l, in ascending order. */
  lemma Alphabet(d: nat, e: nat, c: char)
    ensures d < e < 58 ==> Letter(d) < Letter(e)
    ensures DigitOf(c) >= 0 <==>
              ('0' <= c <= '9' || 'A' <= c <= 'Z' || 'a' <= c <= 'z') && c != '0' && c != 'I' && c != 'O' && c != 'l'
  {
  }

  lemma LetterAndBack(d: nat)
    requires d < 58
    ensures DigitOf(Letter(d)) == d && !IsSpace(Letter(d)) && Letter(d) != '\0' && (Letter(d) == '1' <==> d == 0)
  {
  }

  lemma DigitAndBack(c: char)
    requires DigitOf(c) >= 0
    ensures DigitOf(c) < 58 && Letter(DigitOf(c)) == c && !IsSpace(c) && (c == '1' <==> DigitOf(c) == 0)
  {
  }

  function Letters(ds: seq<int>): (s: string)
    requires Below(ds, 58)
    ensures |s| == |ds|
  {
    seq(|ds|, i requires 0 <= i < |ds| => Letter(ds[i]))
  }

  function DigitsOf(s: string): (ds: seq<int>)
    ensures |ds| == |s|
  {
    seq(|s|, i requires 0 <= i < |s| => DigitOf(s[i]))
  }

  // ----- Multiplying a digit buffer in place -----

  /** The digits of p * m + c, as far as they fit. */
  ghost function Scaled(p: seq<int>, m: nat, c: nat, base: nat): seq<int>
    requires base > 0 && Below(p, base)
  {
    if p == [] then []
    else
      var x := Column(p, m, c);
      Scaled(p[..|p| - 1], m, x / base, base) + [x % base]
  }

  /** What does not fit. */
  ghost function Spill(p: seq<int>, m: nat, c: nat, base: nat): nat
    requires base > 0 && Below(p, base)
  {
    if p == [] then c else Spill(p[..|p| - 1], m, Column(p, m, c) / base, base)
  }

  ghost function Column(p: seq<int>, m: nat, c: nat): nat
    requires p != [] && p[|p| - 1] >= 0
  {
    MulMonotone(0, p[|p| - 1], m);
    c + m * p[|p| - 1]
  }

  /** Nothing is lost: the digits and the spill make up the product. */
  lemma {:induction false} ScaledMeans(p: seq<int>, m: nat, c: nat, base: nat)
    requires base > 0 && Below(p, base)
    ensures |Scaled(p, m, c, base)| == |p| && Below(Scaled(p, m, c, base), base)
    ensures Value(Scaled(p, m, c, base), base) + Spill(p, m, c, base) * Pow(base, |p|) == Value(p, base) * m + c
  {
    if p != [] {
      var most, x := p[..|p| - 1], Column(p, m, c);
      var q, r := x / base, x % base;
      ScaledMeans(most, m, q, base);
      DivMod(x, base);
      var v, sc, sp, w :=
        Value(most, base), Value(Scaled(most, m, q, base), base), Spill(most, m, q, base), Pow(base, |most|);
      ValueAppend(Scaled(most, m, q, base), r, base);
      assert Pow(base, |p|) == base * w;
      ColumnSums(v, sc, sp * w, m, q, r, base, c, p[|p| - 1]);
      MulAssoc(sp, w, base);
      assert base * w == w * base;
    }
  }

  lemma ColumnSums(v: int, sc: int, spill: int, m: int, q: int, r: int, base: int, c: int, d: int)
    requires sc + spill == v * m + q && c + m * d == q * base + r
    ensures sc * base + r + spill * base == (v * base + d) * m + c
  {
    assert (sc + spill) * base == (v * m + q) * base;
    Distribute(sc, spill, base);
    Distribute(v * m, q, base);
    Distribute(v * base, d, m);
    assert v * m * base == v * base * m;
  }

  /** Room enough means no spill. */
  lemma NoSpill(p: seq<int>, m: nat, c: nat, base: nat)
    requires base > 0 && Below(p, base) && Value(p, base) * m + c < Pow(base, |p|)
    ensures Spill(p, m, c, base) == 0 && Value(Scaled(p, m, c, base), base) == Value(p, base) * m + c
  {
    ScaledMeans(p, m, c, base);
    ValueBound(Scaled(p, m, c, base), base);
    var sp := Spill(p, m, c, base);
    if sp > 0 {
      MulMonotone(1, sp, Pow(base, |p|));
    }
  }

  lemma {:induction false} ScaledZero(p: seq<int>, m: nat, base: nat)
    requires base > 0 && AllZero(p)
    ensures Scaled(p, m, 0, base) == p
  {
    if p != [] {
      ScaledZero(p[..|p| - 1], m, base);
      assert Column(p, m, 0) == 0;
      assert p == p[..|p| - 1] + [0];
    }
  }

  /** A buffer whose last `length` digits are in use, the first of them not zero. */
  ghost predicate Holds(buf: seq<int>, length: nat, base: nat) {
    && Below(buf, base) && length <= |buf| && AllZero(buf[..|buf| - length])
    && (length > 0 ==> buf[|buf| - length] != 0)
  }

  lemma ScaleStep(p: seq<int>, k: nat, m: nat, c: nat, base: nat, tail: seq<int>)
    requires base > 0 && Below(p, base) && 0 < k <= |p|
    ensures Below(p[..k], base) && Below(p[..k - 1], base) && p[k - 1] >= 0
    ensures var x := c + m * p[k - 1];
            && 0 <= x && 0 <= x / base && 0 <= x % base < base
            && Scaled(p[..k], m, c, base) + tail == Scaled(p[..k - 1], m, x / base, base) + ([x % base] + tail)
            && Spill(p[..k], m, c, base) == Spill(p[..k - 1], m, x / base, base)
  {
    assert p[..k][..k - 1] == p[..k - 1];
    MulMonotone(0, p[k - 1], m);
    var x := c + m * p[k - 1];
    DivMod(x, base);
    assert Column(p[..k], m, c) == x;
  }

  /** A column is not zero when its carry or its digit was not. */
  lemma ColumnNotZero(x: nat, base: nat)
    requires base > 0 && x > 0
    ensures x / base != 0 || x % base != 0
  {
    DivMod(x, base);
  }

  /** The columns from k on are done. */
  ghost predicate Midway(p: seq<int>, q: seq<int>, k: nat, length: nat, m: nat, ch: nat, carry: nat, base: nat)
    requires base > 0 && Below(p, base)
  {
    && |q| == |p| && k <= |p| && Below(p[..k], base) && q[..k] == p[..k]
    && Scaled(p, m, ch, base) == Scaled(p[..k], m, carry, base) + q[k..]
    && Spill(p, m, ch, base) == Spill(p[..k], m, carry, base)
    && (k < |p| && length <= |p| - k ==> carry != 0 || q[k] != 0)
  }

  lemma Start(p: seq<int>, length: nat, m: nat, ch: nat, base: nat)
    requires base > 0 && Below(p, base)
    ensures Midway(p, p, |p|, length, m, ch, ch, base)
  {
    assert p[..|p|] == p;
  }

  lemma Step(p: seq<int>, q: seq<int>, k: nat, length: nat, m: nat, ch: nat, carry: nat, base: nat)
    requires base > 1 && m > 0 && Holds(p, length, base) && 0 < k && Midway(p, q, k, length, m, ch, carry, base)
    requires carry != 0 || |p| - k < length
    ensures q[k - 1] == p[k - 1] && 0 <= carry + m * q[k - 1]
    ensures var x := carry + m * q[k - 1];
            0 <= x / base && Midway(p, q[k - 1 := x % base], k - 1, length, m, ch, x / base, base)
  {
    assert q[k - 1] == p[..k][k - 1] == p[k - 1];
    var tail, d := q[k..], p[k - 1];
    ScaleStep(p, k, m, carry, base, tail);
    var x := carry + m * d;
    if length <= |p| - (k - 1) {
      if carry == 0 {
        assert d == p[|p| - length];
        MulMonotone(1, d, m);
      } else {
        MulMonotone(0, d, m);
      }
      ColumnNotZero(x, base);
    }
    var q' := q[k - 1 := x % base];
    assert q'[k - 1..] == [x % base] + tail;
    assert q'[..k - 1] == p[..k][..k - 1] == p[..k - 1];
  }

  /** The carry has died out, and what is left of the buffer is right. */
  lemma Finish(p: seq<int>, q: seq<int>, k: nat, length: nat, m: nat, ch: nat, carry: nat, base: nat)
    requires base > 1 && Holds(p, length, base) && Midway(p, q, k, length, m, ch, carry, base)
    requires Value(p, base) * m + ch < Pow(base, |p|)
    requires k == 0 || (carry == 0 && length <= |p| - k)
    ensures carry == 0 && Holds(q, |p| - k, base) && Value(q, base) == Value(p, base) * m + ch
  {
    NoSpill(p, m, ch, base);
    ScaledMeans(p, m, ch, base);
    assert AllZero(p[..k]);
    ScaledZero(p[..k], m, base);
    assert q == q[..k] + q[k..];
  }

  /** buf := buf * m + ch, from the last digit up to where the carry dies out. */
  method MulAdd(buf: array<int>, length: nat, m: nat, ch: nat, base: nat) returns (longer: nat)
    requires base > 1 && m > 0 && Holds(buf[..], length, base)
    requires Value(buf[..], base) * m + ch < Pow(base, buf.Length)
    modifies buf
    ensures Holds(buf[..], longer, base)
    ensures Value(buf[..], base) == old(Value(buf[..], base)) * m + ch
  {
    ghost var p := buf[..];
    Start(p, length, m, ch, base);
    var carry: nat, i: nat := ch, 0;
    while (carry != 0 || i < length) && i < buf.Length
      invariant i <= buf.Length && Midway(p, buf[..], buf.Length - i, length, m, ch, carry, base)
    {
      var k := buf.Length - i - 1;
      ghost var q := buf[..];
      Step(p, q, k + 1, length, m, ch, carry, base);
      var x := carry + m * buf[k];
      buf[k] := x % base;
      assert buf[..] == q[k := x % base];
      carry := x / base;
      i := i + 1;
    }
    Finish(p, buf[..], buf.Length - i, length, m, ch, carry, base);
    assert carry == 0;
    longer := i;
  }

  // ----- The buffers are large enough -----

  lemma PowersOf58()
    ensures Pow(58, 1) == 58 && Pow(58, 2) == 3364 && Pow(58, 3) == 195112 && Pow(58, 4) == 11316496
    ensures Pow(58, 5) == 656356768
    ensures Pow(58, 6) == 38068692544 && Pow(58, 7) == 2207984167552 && Pow(58, 8) == 128063081718016
    ensures Pow(58, 9) == 7427658739644928 && Pow(58, 10) == 430804206899405824
    ensures Pow(58, 11) == 24986644000165537792 && Pow(58, 12) == 1449225352009601191936
    ensures Pow(58, 13) == 84055070416556869132288
    ensures Pow(58, 14) == 4875194084160298409672704 && Pow(58, 15) == 282761256881297307761016832
  {
    assert Pow(58, 5) == 58 * Pow(58, 4);
    assert Pow(58, 8) == 58 * (58 * (58 * Pow(58, 5)));
    assert Pow(58, 11) == 58 * (58 * (58 * Pow(58, 8)));
    assert Pow(58, 13) == 58 * (58 * Pow(58, 11));
    assert Pow(58, 15) == 58 * (58 * Pow(58, 13));
  }

  lemma PowersOf256()
    ensures Pow(256, 0) == 1 && Pow(256, 1) == 256 && Pow(256, 2) == 65536 && Pow(256, 3) == 16777216
    ensures Pow(256, 4) == 4294967296
    ensures Pow(256, 5) == 1099511627776 && Pow(256, 6) == 281474976710656 && Pow(256, 7) == 72057594037927936
    ensures Pow(256, 8) == 18446744073709551616
    ensures Pow(256, 9) == 4722366482869645213696 && Pow(256, 10) == 1208925819614629174706176
    ensures Pow(256, 11) == 309485009821345068724781056
  {
    assert Pow(256, 5) == 256 * Pow(256, 4);
    assert Pow(256, 8) == 256 * (256 * (256 * Pow(256, 5)));
    assert Pow(256, 10) == 256 * (256 * Pow(256, 8));
    assert Pow(256, 11) == 256 * Pow(256, 10);
  }

  lemma PowStep(a: nat, da: nat, na: nat, b: nat, db: nat, nb: nat)
    requires a > 0 && b > 0 && Pow(a, da) <= Pow(b, db) && Pow(a, na) <= Pow(b, nb)
    ensures Pow(a, da + na) <= Pow(b, db + nb)
  {
    PowAdd(a, da, na);
    PowAdd(b, db, nb);
    PowPositive(a, na);
    MulMonotone(Pow(a, da), Pow(b, db), Pow(a, na));
    PowPositive(b, db);
    MulMonotone(Pow(a, na), Pow(b, nb), Pow(b, db));
  }

  /** 138 base-58 digits are enough for 100 bytes, at any length. */
  lemma {:induction false} EncodeFits(n: nat)
    ensures Pow(256, n) <= Pow(58, n * 138 / 100 + 1)
  {
    PowersOf58();
    PowersOf256();
    if n >= 8 {
      EncodeFits(n - 8);
      PowStep(256, 8, n - 8, 58, 11, (n - 8) * 138 / 100 + 1);
      PowMonotone(58, 11 + ((n - 8) * 138 / 100 + 1), n * 138 / 100 + 1);
    } else {
      assert n == 0 || n == 1 || n == 2 || n == 3 || n == 4 || n == 5 || n == 6 || n == 7;
    }
  }

  lemma DecodeFitsRest(b: nat)
    requires b < 15
    ensures (733 * b - 20) / 1000 + 1 >= 0 && Pow(58, b) <= Pow(256, (733 * b - 20) / 1000 + 1)
  {
    PowersOf58();
    PowersOf256();
    assert b == 0 || b == 1 || b == 2 || b == 3 || b == 4 || b == 5 || b == 6 || b == 7
        || b == 8 || b == 9 || b == 10 || b == 11 || b == 12 || b == 13 || b == 14;
  }

  lemma {:induction false} DecodeFitsSmall(n: nat, a: nat, b: nat)
    requires n == 15 * a + b && b < 15
    ensures (733 * b - 20) / 1000 + 1 >= 0 && Pow(58, n) <= Pow(256, 11 * a + ((733 * b - 20) / 1000 + 1))
    decreases a
  {
    DecodeFitsRest(b);
    if a > 0 {
      DecodeFitsSmall(n - 15, a - 1, b);
      PowersOf58();
      PowersOf256();
      PowStep(58, 15, n - 15, 256, 11, 11 * (a - 1) + ((733 * b - 20) / 1000 + 1));
    }
  }

  lemma SmallSize(n: nat, a: nat, b: nat)
    requires n == 15 * a + b && b < 15 && a <= 4
    ensures 11 * a + ((733 * b - 20) / 1000 + 1) <= n * 733 / 1000 + 1
  {
    assert a == 0 || a == 1 || a == 2 || a == 3 || a == 4;
  }

  lemma SeventyOne()
    ensures Pow(58, 71) <= Pow(256, 52)
  {
    PowersOf58();
    PowersOf256();
    PowAdd(58, 15, 15);
    PowAdd(58, 30, 30);
    PowAdd(58, 60, 11);
    PowAdd(256, 11, 11);
    PowAdd(256, 22, 22);
    PowAdd(256, 44, 8);
  }

  /** 733 bytes are enough for 1000 base-58 digits, at any length. */
  lemma {:induction false} DecodeFits(n: nat)
    ensures Pow(58, n) <= Pow(256, n * 733 / 1000 + 1)
  {
    if n >= 71 {
      DecodeFits(n - 71);
      SeventyOne();
      PowStep(58, 71, n - 71, 256, 52, (n - 71) * 733 / 1000 + 1);
      PowMonotone(256, 52 + ((n - 71) * 733 / 1000 + 1), n * 733 / 1000 + 1);
    } else {
      var a, b := n / 15, n % 15;
      DecodeFitsSmall(n, a, b);
      SmallSize(n, a, b);
      PowMonotone(256, 11 * a + ((733 * b - 20) / 1000 + 1), n * 733 / 1000 + 1);
    }
  }

  // ----- Encoding -----

  function Repeat<T>(x: T, n: nat): (s: seq<T>)
    ensures |s| == n && forall i :: 0 <= i < n ==> s[i] == x
  {
    seq(n, _ => x)
  }

  function LeadingZeroes(x: seq<int>): (n: nat)
    ensures n <= |x| && (forall i :: 0 <= i < n ==> x[i] == 0) && (n < |x| ==> x[n] != 0)
  {
    if x != [] && x[0] == 0 then 1 + LeadingZeroes(x[1..]) else 0
  }

  /** The text of a byte string: a '1' for every leading zero byte, then the
      number that the rest stands for, in base 58. */
  function Base58(x: seq<byte>): string {
    var z := LeadingZeroes(x);
    var n := Number(x[z..]);
    DigitsMean(n, 58);
    Repeat('1', z) + Letters(Digits(n, 58))
  }

  function Number(x: seq<byte>): nat {
    ValueBound(x, 256);
    Value(x, 256)
  }

  /** One more byte still fits. */
  lemma ByteFits(x: seq<byte>, j: nat, size: nat)
    requires j < |x| && size == |x| * 138 / 100 + 1
    ensures Number(x[..j]) * 256 + x[j] == Number(x[..j + 1]) < Pow(58, size)
  {
    assert x[..j + 1] == x[..j] + [x[j]];
    ValueAppend(x[..j], x[j], 256);
    ValueBound(x[..j + 1], 256);
    PowMonotone(256, j + 1, |x|);
    EncodeFits(|x|);
  }

  /** The digits in use, without leading zeroes, are the digits of the value. */
  lemma InUse(buf: seq<int>, k: nat, base: nat)
    requires base > 1 && Below(buf, base) && k <= |buf| && AllZero(buf[..k]) && (k < |buf| ==> buf[k] != 0)
    ensures Value(buf, base) >= 0 && buf[k..] == Digits(Value(buf, base), base)
  {
    ValueSkips(buf[..k], buf[k..], base);
    assert buf == buf[..k] + buf[k..];
    CanonicalIsDigits(buf[k..], base);
  }

  /** Rewrites a number that is given as bytes into base 58. */
  method Rewrite(x: seq<byte>) returns (digits: seq<int>)
    ensures digits == Digits(Number(x), 58)
  {
    var size := |x| * 138 / 100 + 1;
    var b58 := new int[size](_ => 0);
    ZeroValue(b58[..], 58);
    var length, j := 0, 0;
    while j < |x|
      invariant j <= |x| && Holds(b58[..], length, 58) && Value(b58[..], 58) == Number(x[..j])
    {
      ByteFits(x, j, size);
      length := MulAdd(b58, length, 256, x[j], 58);
      j := j + 1;
    }
    assert x[..j] == x;
    var k := size - length;
    while k < size && b58[k] == 0
      invariant size - length <= k <= size && AllZero(b58[..k])
    {
      k := k + 1;
    }
    InUse(b58[..], k, 58);
    digits := b58[k..];
    assert digits == b58[..][k..];
  }

  method EncodeBase58(input: seq<byte>) returns (s: string)
    ensures s == Base58(input)
  {
    var rest, zeroes := input, 0;
    while |rest| > 0 && rest[0] == 0
      invariant zeroes <= |input| && rest == input[zeroes..] && forall i :: 0 <= i < zeroes ==> input[i] == 0
    {
      rest := rest[1..];
      zeroes := zeroes + 1;
    }
    assert LeadingZeroes(input) == zeroes;
    var digits := Rewrite(rest);
    DigitsMean(Number(rest), 58);
    s := Repeat('1', zeroes);
    for i := 0 to |digits|
      invariant s == Repeat('1', zeroes) + Letters(digits[..i])
    {
      s := s + [Letter(digits[i])];
      assert Letters(digits[..i + 1]) == Letters(digits[..i]) + [Letter(digits[i])];
    }
    assert digits[..|digits|] == digits;
  }

  // ----- Decoding -----

  datatype Kind = Space | One | Solid {
    predicate Has(c: char) {
      match this
      case Space => IsSpace(c)
      case One => c == '1'
      case Solid => !IsSpace(c)
    }
  }

  /** How many characters at the start are of one kind. */
  function Run(s: string, k: Kind): (n: nat)
    ensures n <= |s| && (forall i :: 0 <= i < n ==> k.Has(s[i])) && (n < |s| ==> !k.Has(s[n]))
  {
    if s != [] && k.Has(s[0]) then 1 + Run(s[1..], k) else 0
  }

  predicate Alphabetic(s: string) {
    forall i :: 0 <= i < |s| ==> DigitOf(s[i]) >= 0
  }

  predicate Blank(s: string) {
    forall i :: 0 <= i < |s| ==> IsSpace(s[i])
  }

  lemma AlphabeticBelow(s: string)
    requires Alphabetic(s)
    ensures Below(DigitsOf(s), 58)
  {
    forall i | 0 <= i < |s| ensures 0 <= DigitsOf(s)[i] < 58 {
      DigitAndBack(s[i]);
    }
  }

  /** The bytes of the number that a text in the alphabet stands for. */
  function Bytes(s: string): (x: seq<byte>)
    requires Alphabetic(s)
  {
    AlphabeticBelow(s);
    ValueBound(DigitsOf(s), 58);
    DigitsMean(Value(DigitsOf(s), 58), 256);
    Digits(Value(DigitsOf(s), 58), 256)
  }

  /** The text without surrounding spaces, cut after its leading '1's. */
  function Spaceless(s: string): string { s[Run(s, Space)..] }
  function Ones(s: string): nat { Run(Spaceless(s), One) }
  function Body(s: string): string { Spaceless(s)[Ones(s)..] }
  function Solid(s: string): string { Body(s)[..Run(Body(s), Kind.Solid)] }

  predicate Readable(s: string) {
    '\0' !in s && Alphabetic(Solid(s)) && Blank(Body(s)[|Solid(s)|..])
  }

  predicate Exceeds(s: string, max: int)
    requires Readable(s)
  {
    (Ones(s) > 0 && Ones(s) > max) || (Solid(s) != [] && Ones(s) + |Bytes(Solid(s))| > max)
  }

  /** The bytes a text stands for, if it is readable and they are not too many. */
  function Unbase58(s: string, max: int): Option<seq<byte>> {
    if !Readable(s) || Exceeds(s, max) then None else Some(Repeat(0 as byte, Ones(s)) + Bytes(Solid(s)))
  }

  lemma {:induction false} DigitsGrow(m: nat, n: nat, base: nat)
    requires base > 1 && m <= n
    ensures |Digits(m, base)| <= |Digits(n, base)|
    decreases n
  {
    if m > 0 {
      Shrinks(m, base);
      Shrinks(n, base);
      DivMod(m, base);
      DivMod(n, base);
      QuotientGrows(m, n, base);
      DigitsGrow(m / base, n / base, base);
    }
  }

  lemma QuotientGrows(m: nat, n: nat, base: nat)
    requires base > 0 && m <= n
    ensures m / base <= n / base
  {
    DivMod(m, base);
    DivMod(n, base);
    if n / base < m / base {
      MulStrict(n / base, m / base, base);
    }
  }

  lemma {:induction false} ValueGrows(s: seq<int>, j: nat, base: nat)
    requires base > 0 && Below(s, base) && j <= |s|
    ensures 0 <= Value(s[..j], base) <= Value(s, base)
  {
    if j == |s| {
      assert s[..j] == s;
      ValueBound(s, base);
    } else {
      var most := s[..|s| - 1];
      ValueGrows(most, j, base);
      assert most[..j] == s[..j];
      MulMonotone(1, base, Value(most, base));
    }
  }

  /** More digits, no fewer bytes. */
  lemma BytesGrow(s: string, j: nat)
    requires Alphabetic(s) && j <= |s|
    ensures Alphabetic(s[..j]) && |Bytes(s[..j])| <= |Bytes(s)|
  {
    AlphabeticBelow(s);
    assert DigitsOf(s[..j]) == DigitsOf(s)[..j];
    ValueGrows(DigitsOf(s), j, 58);
    DigitsGrow(Value(DigitsOf(s[..j]), 58), Value(DigitsOf(s), 58), 256);
  }

  /** One more digit still fits. */
  lemma DigitFits(b: string, j: nat, size: nat)
    requires j < |b| && Alphabetic(b[..j]) && DigitOf(b[j]) >= 0 && size == |b| * 733 / 1000 + 1
    ensures Alphabetic(b[..j + 1]) && DigitOf(b[j]) < 58
    ensures Value(DigitsOf(b[..j]), 58) * 58 + DigitOf(b[j]) == Value(DigitsOf(b[..j + 1]), 58) < Pow(256, size)
  {
    DigitAndBack(b[j]);
    assert b[..j + 1] == b[..j] + [b[j]];
    assert DigitsOf(b[..j + 1]) == DigitsOf(b[..j]) + [DigitOf(b[j])];
    ValueAppend(DigitsOf(b[..j]), DigitOf(b[j]), 58);
    AlphabeticBelow(b[..j + 1]);
    ValueBound(DigitsOf(b[..j + 1]), 58);
    PowMonotone(58, j + 1, |b|);
    DecodeFits(|b|);
  }

  lemma InUseBytes(buf: seq<int>, length: nat, s: string)
    requires Holds(buf, length, 256) && Alphabetic(s) && Value(buf, 256) == Value(DigitsOf(s), 58)
    ensures buf[|buf| - length..] == Bytes(s) && |Bytes(s)| == length
  {
    InUse(buf, |buf| - length, 256);
  }

  lemma TooMany(b: string, j: nat, k: nat)
    requires j <= k <= |b| && Alphabetic(b[..j])
    ensures Alphabetic(b[..k]) ==> |Bytes(b[..j])| <= |Bytes(b[..k])|
  {
    if Alphabetic(b[..k]) {
      assert b[..k][..j] == b[..j];
      BytesGrow(b[..k], j);
    }
  }

  /** Takes one more digit into the buffer. */
  method PushDigit(b256: array<int>, length: nat, b: string, j: nat) returns (longer: nat)
    requires j < |b| && Alphabetic(b[..j]) && DigitOf(b[j]) >= 0 && b256.Length == |b| * 733 / 1000 + 1
    requires Holds(b256[..], length, 256) && Value(b256[..], 256) == Value(DigitsOf(b[..j]), 58)
    modifies b256
    ensures Holds(b256[..], longer, 256) && Alphabetic(b[..j + 1])
    ensures Value(b256[..], 256) == Value(DigitsOf(b[..j + 1]), 58) && |Bytes(b[..j + 1])| == longer
  {
    DigitFits(b, j, b256.Length);
    longer := MulAdd(b256, length, 58, DigitOf(b[j]), 256);
    InUseBytes(b256[..], longer, b[..j + 1]);
  }

  /** Reads digits up to a space or the end. */
  method ReadDigits(b: string, zeroes: nat, max: int) returns (ok: bool, digits: seq<byte>, j: nat)
    ensures ok ==>
              && j == Run(b, Kind.Solid) && Alphabetic(b[..j]) && digits == Bytes(b[..j])
              && (j > 0 ==> zeroes + |digits| <= max)
    ensures !ok ==> var solid := b[..Run(b, Kind.Solid)];
                    solid != [] && (Alphabetic(solid) ==> zeroes + |Bytes(solid)| > max)
  {
    var size := |b| * 733 / 1000 + 1;
    var b256 := new int[size](_ => 0);
    ZeroValue(b256[..], 256);
    var length: nat := 0;
    j := 0;
    while j < |b| && !IsSpace(b[j])
      invariant j <= |b| && (forall i :: 0 <= i < j ==> !IsSpace(b[i])) && Alphabetic(b[..j])
      invariant Holds(b256[..], length, 256) && Value(b256[..], 256) == Value(DigitsOf(b[..j]), 58)
      invariant j > 0 ==> length + zeroes <= max
    {
      assert j < Run(b, Kind.Solid);
      if DigitOf(b[j]) == -1 {
        assert b[..Run(b, Kind.Solid)][j] == b[j];
        return false, [], j;
      }
      length := PushDigit(b256, length, b, j);
      j := j + 1;
      if length + zeroes > max {
        TooMany(b, j, Run(b, Kind.Solid));
        return false, [], j;
      }
    }
    assert Run(b, Kind.Solid) == j;
    InUseBytes(b256[..], length, b[..j]);
    ok := true;
    digits := b256[..][size - length..];
  }

  /** Where a run of spaces that starts at j ends. */
  method SkipSpaces(s: string, j: nat) returns (k: nat)
    requires j <= |s|
    ensures k <= |s| && k == j + Run(s[j..], Space)
    ensures k == |s| <==> Blank(s[j..])
  {
    k := j;
    while k < |s| && IsSpace(s[k])
      invariant j <= k <= |s| && forall i :: j <= i < k ==> IsSpace(s[i])
    {
      k := k + 1;
    }
    assert Run(s[j..], Space) == k - j;
    assert k < |s| ==> s[j..][k - j] == s[k];
  }

  /** Counts leading '1's, giving up beyond the limit. */
  method CountOnes(text: string, max: int) returns (ok: bool, zeroes: nat)
    ensures ok ==> zeroes == Run(text, One) && (zeroes > 0 ==> zeroes <= max)
    ensures !ok ==> Run(text, One) > 0 && Run(text, One) > max
  {
    zeroes := 0;
    while zeroes < |text| && text[zeroes] == '1'
      invariant zeroes <= Run(text, One) && (zeroes > 0 ==> zeroes <= max)
    {
      zeroes := zeroes + 1;
      if zeroes > max {
        return false, zeroes;
      }
    }
    ok := true;
  }

  method DecodeBase58(str: string, max: int) returns (r: Option<seq<byte>>)
    ensures r == Unbase58(str, max)
  {
    if '\0' in str {
      return None;
    }
    var p := SkipSpaces(str, 0);
    assert str[0..] == str;
    var text := str[p..];
    assert text == Spaceless(str);
    var fits, zeroes := CountOnes(text, max);
    if !fits {
      return None;
    }
    var body := text[zeroes..];
    var ok, digits, j := ReadDigits(body, zeroes, max);
    if !ok {
      return None;
    }
    var k := SkipSpaces(body, j);
    if k < |body| {
      return None;
    }
    r := Some(Repeat(0, zeroes) + digits);
  }

  // ----- Round trips -----

  lemma LettersAndBack(ds: seq<int>)
    requires Below(ds, 58)
    ensures Alphabetic(Letters(ds)) && DigitsOf(Letters(ds)) == ds
    ensures forall i :: 0 <= i < |ds| ==>
            !IsSpace(Letters(ds)[i]) && Letters(ds)[i] != '\0' && (Letters(ds)[i] == '1' <==> ds[i] == 0)
  {
    forall i | 0 <= i < |ds|
      ensures DigitOf(Letters(ds)[i]) == ds[i] && !IsSpace(Letters(ds)[i]) && Letters(ds)[i] != '\0'
      ensures (Letters(ds)[i] == '1' <==> ds[i] == 0)
    {
      LetterAndBack(ds[i]);
    }
  }

  lemma DigitsAndBack(s: string)
    requires Alphabetic(s)
    ensures Below(DigitsOf(s), 58) && Letters(DigitsOf(s)) == s
  {
    AlphabeticBelow(s);
    forall i | 0 <= i < |s| ensures Letters(DigitsOf(s))[i] == s[i] {
      DigitAndBack(s[i]);
    }
  }

  /** How a text without spaces is taken apart. */
  lemma Anatomy(z: nat, t: string)
    requires forall i :: 0 <= i < |t| ==> !IsSpace(t[i])
    requires t != [] ==> t[0] != '1'
    ensures var s := Repeat('1', z) + t; Spaceless(s) == s && Ones(s) == z && Body(s) == t && Solid(s) == t
  {
    var s := Repeat('1', z) + t;
    assert Run(s, Space) == 0;
    assert Spaceless(s) == s;
    assert z < |s| ==> s[z] == t[0];
    assert Run(s, One) == z;
    assert s[z..] == t;
    assert Run(t, Kind.Solid) == |t|;
    assert t[..|t|] == t;
  }

  /** The text of canonical bytes reads back as those bytes. */
  lemma TextOf(rest: seq<byte>, t: string)
    requires Canonical(rest, 256) && Canonical(Digits(Number(rest), 58), 58) && t == Letters(Digits(Number(rest), 58))
    ensures Alphabetic(t) && Bytes(t) == rest && (t == [] <==> rest == [])
    ensures forall i :: 0 <= i < |t| ==> !IsSpace(t[i]) && t[i] != '\0'
    ensures t != [] ==> t[0] != '1'
  {
    DigitsMean(Number(rest), 58);
    LettersAndBack(Digits(Number(rest), 58));
    CanonicalIsDigits(rest, 256);
  }

  /** Decoding undoes encoding, exactly when the bytes are within the limit. */
  lemma DecodeEncoded(x: seq<byte>, max: int)
    ensures Unbase58(Base58(x), max) == if x == [] || |x| <= max then Some(x) else None
  {
    var z := LeadingZeroes(x);
    var rest := x[z..];
    Peel(x);
    DigitsMean(Number(rest), 58);
    var t := Letters(Digits(Number(rest), 58));
    TextOf(rest, t);
    Anatomy(z, t);
    ReadsBack(Repeat('1', z) + t, z, t, rest, max);
  }

  lemma Peel(x: seq<byte>)
    ensures x == Repeat(0, LeadingZeroes(x)) + x[LeadingZeroes(x)..] && Canonical(x[LeadingZeroes(x)..], 256)
  {
  }

  lemma ReadsBack(s: string, z: nat, t: string, rest: seq<byte>, max: int)
    requires s == Repeat('1', z) + t && Ones(s) == z && Body(s) == t && Solid(s) == t
    requires Alphabetic(t) && Bytes(t) == rest && (t == [] <==> rest == []) && '\0' !in t
    ensures Unbase58(s, max) == if z + |rest| == 0 || z + |rest| <= max then Some(Repeat(0, z) + rest) else None
  {
    assert Blank(t[|t|..]);
  }

  lemma DecodedParts(z: nat, t: string, x: seq<byte>)
    requires Alphabetic(t) && x == Repeat(0, z) + Bytes(t)
    ensures LeadingZeroes(x) == z && x[z..] == Bytes(t)
  {
    AlphabeticBelow(t);
    ValueBound(DigitsOf(t), 58);
    DigitsMean(Value(DigitsOf(t), 58), 256);
    assert z < |x| ==> x[z] == Bytes(t)[0];
  }

  /** The bytes of a body that does not start with '1' have that body as their text. */
  lemma BodyText(t: string)
    requires Alphabetic(t) && (t != [] ==> t[0] != '1')
    ensures Digits(Number(Bytes(t)), 58) == DigitsOf(t) && Below(DigitsOf(t), 58) && Letters(DigitsOf(t)) == t
  {
    DigitsAndBack(t);
    ValueBound(DigitsOf(t), 58);
    DigitsMean(Value(DigitsOf(t), 58), 256);
    if t != [] { DigitAndBack(t[0]); }
    CanonicalIsDigits(DigitsOf(t), 58);
  }

  /** The text of decoded bytes is the text they came from. */
  lemma DecodedText(z: nat, t: string, x: seq<byte>)
    requires Alphabetic(t) && (t != [] ==> t[0] != '1') && x == Repeat(0, z) + Bytes(t)
    ensures Base58(x) == Repeat('1', z) + t
  {
    DecodedParts(z, t, x);
    BodyText(t);
  }

  lemma Cut(s: string, z: nat, b: string, t: string)
    requires z <= |s| && b == s[z..] && t <= b && (forall i :: 0 <= i < z ==> s[i] == '1')
    ensures s[..z + |t|] == Repeat('1', z) + t && s[z + |t|..] == b[|t|..]
  {
  }

  /** Encoding undoes decoding, up to surrounding spaces. */
  lemma EncodeDecoded(s: string, max: int)
    requires Unbase58(s, max).Some?
    ensures Base58(Unbase58(s, max).value) == Spaceless(s)[..Ones(s) + |Solid(s)|]
    ensures Blank(s[..Run(s, Space)]) && Blank(Spaceless(s)[Ones(s) + |Solid(s)|..])
  {
    Cut(Spaceless(s), Ones(s), Body(s), Solid(s));
    DecodedText(Ones(s), Solid(s), Unbase58(s, max).value);
  }

  // ----- With a checksum -----

  const INT_MAX: int := 0x7fff_ffff

  /** A hash of bytes, at least four bytes long. */
  datatype Hasher = Hasher(f: seq<byte> -> seq<byte>) {
    function Sum(x: seq<byte>): (c: seq<byte>)
      ensures |c| == 4
    {
      var h := f(x) + Repeat(0, 4);
      h[..4]
    }
  }

  method EncodeBase58Check(hasher: Hasher, input: seq<byte>) returns (s: string)
    ensures s == Base58(input + hasher.Sum(input))
  {
    s := EncodeBase58(input + hasher.Sum(input));
  }

  function CheckLimit(max: int): int {
    if max > INT_MAX - 4 then INT_MAX else max + 4
  }

  method DecodeBase58Check(hasher: Hasher, str: string, max: int) returns (r: Option<seq<byte>>)
    ensures r.Some? ==> Unbase58(str, CheckLimit(max)) == Some(r.value + hasher.Sum(r.value))
    ensures r.None? ==> forall x: seq<byte> :: Unbase58(str, CheckLimit(max)) != Some(x + hasher.Sum(x))
  {
    var d := DecodeBase58(str, CheckLimit(max));
    if d.None? || |d.value| < 4 {
      return None;
    }
    var n := |d.value| - 4;
    var x := d.value[..n];
    forall y: seq<byte> | Unbase58(str, CheckLimit(max)) == Some(y + hasher.Sum(y))
      ensures y == x && hasher.Sum(x) == d.value[n..]
    {
      assert d.value[..n] == y;
      assert d.value[n..] == hasher.Sum(y);
    }
    if hasher.Sum(x) != d.value[n..] {
      return None;
    }
    assert d.value == x + d.value[n..];
    r := Some(x);
  }

  /** A checked text reads back exactly when its bytes and checksum are within the limit. */
  method CheckedRoundTrip(hasher: Hasher, x: seq<byte>, max: int) returns (r: Option<seq<byte>>)
    ensures r == if |x| + 4 <= CheckLimit(max) then Some(x) else None
  {
    var s := EncodeBase58Check(hasher, x);
    var whole := x + hasher.Sum(x);
    DecodeEncoded(whole, CheckLimit(max));
    r := DecodeBase58Check(hasher, s, max);
    if |whole| <= CheckLimit(max) {
      assert r.Some?;
      assert r.value == (r.value + hasher.Sum(r.value))[..|x|] == whole[..|x|] == x;
    }
  }
}
