/** Bech32 (section "Bech32" of BIP 173): the packed checksum loop and the text
    format around it. */
module Bech32 {
  import opened Gf32
  import opened Options

  // ----- The packed remainder -----

  /** Six five-bit groups in one integer, the coefficient of x^5 on top. */
  function Pack(r: Rem): nat {
    32 * (32 * (32 * (32 * (32 * r.c0 + r.c1) + r.c2) + r.c3) + r.c4) + r.c5
  }

  function Symbols(r: Rem): seq<symbol> {
    [r.c0, r.c1, r.c2, r.c3, r.c4, r.c5]
  }

  /** Symbols joined five bits each. */
  function Joined(s: seq<symbol>): nat {
    if s == [] then 0 else 32 * Joined(s[..|s| - 1]) + s[|s| - 1]
  }

  lemma PackIsJoined(r: Rem)
    ensures Pack(r) == Joined(Symbols(r))
  {
    var s := Symbols(r);
    assert s[..5][..4] == s[..4] && s[..4][..3] == s[..3] && s[..3][..2] == s[..2] && s[..2][..1] == s[..1];
    assert s[..1][..0] == [];
    assert Joined(s[..1]) == r.c0;
    assert Joined(s[..2]) == 32 * r.c0 + r.c1;
    assert Joined(s[..3]) == 32 * Joined(s[..2]) + r.c2;
    assert Joined(s[..4]) == 32 * Joined(s[..3]) + r.c3;
    assert Joined(s[..5]) == 32 * Joined(s[..4]) + r.c4;
  }

  function PlusAll(s: seq<symbol>, t: seq<symbol>): seq<symbol>
    requires |s| == |t|
  {
    seq(|s|, i requires 0 <= i < |s| => Plus(s[i], t[i]))
  }

  lemma {:induction false} JoinedPlus(s: seq<symbol>, t: seq<symbol>)
    requires |s| == |t|
    ensures Xor(Joined(s), Joined(t)) == Joined(PlusAll(s, t))
  {
    if s == [] {
      XorZero(0);
    } else {
      var n := |s| - 1;
      JoinedPlus(s[..n], t[..n]);
      XorGroups(Joined(s[..n]), s[n], Joined(t[..n]), t[n]);
      assert PlusAll(s, t)[..n] == PlusAll(s[..n], t[..n]);
    }
  }

  lemma {:induction false} JoinedInjective(s: seq<symbol>, t: seq<symbol>)
    requires |s| == |t| && Joined(s) == Joined(t)
    ensures s == t
  {
    if s != [] {
      var n := |s| - 1;
      JoinedInjective(s[..n], t[..n]);
      assert s == s[..n] + [s[n]] && t == t[..n] + [t[n]];
    }
  }

  /** Adding packed remainders adds them coefficient by coefficient. */
  lemma PackSum(r: Rem, s: Rem)
    ensures Xor(Pack(r), Pack(s)) == Pack(Sum(r, s))
  {
    PackIsJoined(r);
    PackIsJoined(s);
    PackIsJoined(Sum(r, s));
    JoinedPlus(Symbols(r), Symbols(s));
    assert PlusAll(Symbols(r), Symbols(s)) == Symbols(Sum(r, s));
  }

  lemma PackInjective(r: Rem, s: Rem)
    requires Pack(r) == Pack(s)
    ensures r == s
  {
    PackIsJoined(r);
    PackIsJoined(s);
    JoinedInjective(Symbols(r), Symbols(s));
    assert r == Rem(Symbols(r)[0], Symbols(r)[1], Symbols(r)[2], Symbols(r)[3], Symbols(r)[4], Symbols(r)[5]);
    assert s == Rem(Symbols(s)[0], Symbols(s)[1], Symbols(s)[2], Symbols(s)[3], Symbols(s)[4], Symbols(s)[5]);
  }

  lemma TopGroup(c0: symbol, m: nat, x: nat)
    requires m < 0x200_0000 && x == 0x200_0000 * c0 + m
    ensures x / 0x200_0000 == c0 && x % 0x200_0000 == m
  {
  }

  lemma {:induction false} ShiftIn(m: nat, v: symbol)
    ensures Xor(m * 32, v) == 32 * m + v
  {
    XorGroups(m, 0, 0, v);
    XorZero(m);
    XorZero(v);
  }

  /** The top group, and what shifting a symbol in below the rest gives. */
  lemma PackShifts(r: Rem, v: symbol)
    ensures Pack(r) / 0x200_0000 == r.c0
    ensures Xor(Pack(r) % 0x200_0000 * 32, v) == Pack(Rem(r.c1, r.c2, r.c3, r.c4, r.c5, v))
  {
    var m := 32 * (32 * (32 * (32 * r.c1 + r.c2) + r.c3) + r.c4) + r.c5;
    TopGroup(r.c0, m, Pack(r));
    ShiftIn(m, v);
  }

  function Multiple(k: Rem, y: nat): Rem {
    Rem(Mul(k.c0, y), Mul(k.c1, y), Mul(k.c2, y), Mul(k.c3, y), Mul(k.c4, y), Mul(k.c5, y))
  }

  function Doubled(k: Rem): Rem {
    Rem(Double(k.c0), Double(k.c1), Double(k.c2), Double(k.c3), Double(k.c4), Double(k.c5))
  }

  /** One bit of a multiple in one coefficient. */
  lemma BitOf(x: symbol, k: symbol, y: nat)
    ensures Plus(x, Mul(k, y)) == Plus(if Odd(y) then Plus(x, k) else x, Mul(Double(k), y / 2))
  {
    MulUnfold(k, y);
    XorAssoc(x, Low(k, y), Mul(Double(k), y / 2));
    MulZero(x);
  }

  /** One bit of a multiple. */
  lemma BitOfMultiple(g: Rem, k: Rem, y: nat)
    ensures Sum(g, Multiple(k, y)) == Sum(if Odd(y) then Sum(g, k) else g, Multiple(Doubled(k), y / 2))
  {
    BitOf(g.c0, k.c0, y);
    BitOf(g.c1, k.c1, y);
    BitOf(g.c2, k.c2, y);
    BitOf(g.c3, k.c3, y);
    BitOf(g.c4, k.c4, y);
    BitOf(g.c5, k.c5, y);
  }

  /** x^6 modulo the generator, times the powers of the primitive element. */
  const K1: Rem := Rem(29, 22, 20, 21, 29, 18)
  const K2: Rem := Rem(19, 5, 1, 3, 19, 13)
  const K3: Rem := Rem(15, 10, 2, 6, 15, 26)
  const K4: Rem := Rem(30, 20, 4, 12, 30, 29)
  const K5: Rem := Rem(21, 1, 8, 24, 21, 19)

  /** The five constants of the loop are what the field says they should be. */
  lemma Constants()
    ensures Pack(K1) == 0x3b6a57b2 && Pack(K2) == 0x26508e6d && Pack(K3) == 0x1ea119fa && Pack(K4) == 0x3d4233dd
    ensures Pack(K5) == 0x2a1462b3
    ensures Doubled(K1) == K2 && Doubled(K2) == K3 && Doubled(K3) == K4 && Doubled(K4) == K5
  {
    Doubles18();
    OtherDoubles();
  }

  /** Adds a constant if a bit of the leading coefficient is set. */
  method AddIf(c: nat, y: nat, constant: nat, ghost g: Rem, ghost k: Rem) returns (d: nat, ghost h: Rem)
    requires c == Pack(g) && constant == Pack(k)
    ensures d == Pack(h) && Sum(g, Multiple(k, y)) == Sum(h, Multiple(Doubled(k), y / 2))
  {
    d, h := c, g;
    BitOfMultiple(g, k, y);
    if y % 2 == 1 {
      PackSum(g, k);
      d, h := Xor(c, constant), Sum(g, k);
    }
  }

  lemma StepIsSum(r: Rem, v: symbol)
    ensures Step(r, v) == Sum(Rem(r.c1, r.c2, r.c3, r.c4, r.c5, v), Multiple(K1, r.c0))
  {
  }

  lemma NoMultiple(g: Rem, k: Rem)
    ensures Sum(g, Multiple(k, 0)) == g
  {
    SumZero(g);
  }

  /** One round: shift a symbol in, then add a constant for every bit shifted out. */
  method Round(packed: nat, v: symbol, ghost r: Rem) returns (c: nat)
    requires packed == Pack(r)
    ensures c == Pack(Step(r, v))
  {
    PackShifts(r, v);
    Constants();
    StepIsSum(r, v);
    ghost var g;
    var c0 := packed / 0x200_0000;
    c := Xor(packed % 0x200_0000 * 32, v);
    c, g := AddIf(c, c0, 0x3b6a57b2, Rem(r.c1, r.c2, r.c3, r.c4, r.c5, v), K1);
    c, g := AddIf(c, c0 / 2, 0x26508e6d, g, K2);
    c, g := AddIf(c, c0 / 2 / 2, 0x1ea119fa, g, K3);
    c, g := AddIf(c, c0 / 2 / 2 / 2, 0x3d4233dd, g, K4);
    c, g := AddIf(c, c0 / 2 / 2 / 2 / 2, 0x2a1462b3, g, K5);
    NoMultiple(g, Doubled(K5));
  }

  method PolyMod(v: seq<symbol>) returns (c: nat)
    ensures c == Pack(Append(ONE, v))
  {
    c := 1;
    for i := 0 to |v|
      invariant c == Pack(Append(ONE, v[..i]))
    {
      assert v[..i + 1][..i] == v[..i];
      c := Round(c, v[i], Append(ONE, v[..i]));
    }
    assert v[..|v|] == v;
  }

  // ----- Checksums -----

  /** The prefix as symbols: the high bits of every character, a zero, the low bits. */
  function Expanded(hrp: string): (v: seq<symbol>)
    ensures |v| == 2 * |hrp| + 1
  {
    seq(|hrp|, i requires 0 <= i < |hrp| => hrp[i] as int / 32 % 32) + [0] +
      seq(|hrp|, i requires 0 <= i < |hrp| => hrp[i] as int % 32)
  }

  method ExpandHRP(hrp: string) returns (v: seq<symbol>)
    ensures v == Expanded(hrp)
    ensures v[|hrp|] == 0
    ensures forall i :: 0 <= i < |hrp| && hrp[i] as int < 1024 ==>
              hrp[i] as int == 32 * (v[i] as int) + v[|hrp| + 1 + i]
  {
    var n := |hrp|;
    var ret := new symbol[2 * n + 1](_ => 0);
    for i := 0 to n
      invariant forall j :: 0 <= j < i ==> ret[j] == hrp[j] as int / 32 % 32 && ret[j + n + 1] == hrp[j] as int % 32
    {
      ret[i] := hrp[i] as int / 32 % 32;
      ret[i + n + 1] := hrp[i] as int % 32;
    }
    ret[n] := 0;
    v := ret[..];
    forall j | 0 <= j < 2 * n + 1 ensures v[j] == Expanded(hrp)[j] {
      if j > n {
        assert ret[j - n - 1 + n + 1] == hrp[j - n - 1] as int % 32;
      }
    }
    forall i | 0 <= i < n && hrp[i] as int < 1024 ensures hrp[i] as int == 32 * (v[i] as int) + v[n + 1 + i] {
      assert v[i] == Expanded(hrp)[i] && v[n + 1 + i] == Expanded(hrp)[n + 1 + i];
    }
  }

  /** A data part, checksum included, is accepted under a prefix. */
  predicate Accepted(hrp: string, values: seq<symbol>) {
    Append(ONE, Expanded(hrp) + values) == ONE
  }

  method VerifyChecksum(hrp: string, values: seq<symbol>) returns (ok: bool)
    ensures ok <==> Accepted(hrp, values)
  {
    var prefix := ExpandHRP(hrp);
    var c := PolyMod(prefix + values);
    ok := c == 1;
    if ok {
      PackInjective(Append(ONE, prefix + values), ONE);
    }
  }

  /** The checksum of a data part under a prefix. */
  function Checksum(hrp: string, values: seq<symbol>): (sum: seq<symbol>)
    ensures |sum| == 6
  {
    var r := Sum(Append(ONE, Expanded(hrp) + values + Zeroes(6)), ONE);
    Symbols(r)
  }

  /** A five-bit group of a packed remainder, counted from the lowest. */
  function Group(c: nat, i: nat): symbol {
    if i == 0 then c % 32 else Group(c / 32, i - 1)
  }

  lemma GroupStep(a: nat, b: symbol, i: nat)
    ensures Group(32 * a + b, 0) == b && Group(32 * a + b, i + 1) == Group(a, i)
  {
    assert (32 * a + b) / 32 == a && (32 * a + b) % 32 == b;
  }

  lemma {:induction false} JoinedGroups(s: seq<symbol>, i: nat)
    requires i < |s|
    ensures Group(Joined(s), i) == s[|s| - 1 - i]
  {
    var most := s[..|s| - 1];
    if i == 0 {
      GroupStep(Joined(most), s[|s| - 1], 0);
    } else {
      GroupStep(Joined(most), s[|s| - 1], i - 1);
      JoinedGroups(most, i - 1);
    }
  }

  /** Splits a packed remainder into its six symbols. */
  method Unpack(m: nat, ghost r: Rem) returns (sum: seq<symbol>)
    requires m == Pack(r)
    ensures sum == Symbols(r)
  {
    PackIsJoined(r);
    sum := [];
    ghost var want := Symbols(r);
    for i := 0 to 6
      invariant |sum| == i && forall j :: 0 <= j < i ==> sum[j] == want[j]
    {
      JoinedGroups(want, 5 - i);
      sum := sum + [Group(m, 5 - i)];
    }
  }

  method CreateChecksum(hrp: string, values: seq<symbol>) returns (sum: seq<symbol>)
    ensures sum == Checksum(hrp, values)
  {
    var prefix := ExpandHRP(hrp);
    var enc := prefix + values + Zeroes(6);
    var c := PolyMod(enc);
    var m := Xor(c, 1);
    ghost var r := Sum(Append(ONE, enc), ONE);
    PackSum(Append(ONE, enc), ONE);
    sum := Unpack(m, r);
  }

  lemma SixMore(r: Rem, sum: seq<symbol>)
    requires |sum| == 6
    ensures Append(r, sum) == ONE <==> sum == Symbols(Sum(Append(r, Zeroes(6)), ONE))
  {
    WindowAdds(r, sum);
    SumSwaps(Append(r, Zeroes(6)), Place(sum), ONE);
    assert sum == Symbols(Place(sum));
  }

  /** Exactly one six-symbol checksum makes a data part acceptable, and it is the one created. */
  lemma ChecksumUnique(hrp: string, values: seq<symbol>, sum: seq<symbol>)
    requires |sum| == 6
    ensures Accepted(hrp, values + sum) <==> sum == Checksum(hrp, values)
  {
    var enc := Expanded(hrp) + values;
    assert Expanded(hrp) + (values + sum) == enc + sum;
    AppendConcat(ONE, enc, sum);
    AppendConcat(ONE, enc, Zeroes(6));
    SixMore(Append(ONE, enc), sum);
  }

  lemma SumSwaps(z: Rem, p: Rem, one: Rem)
    ensures Sum(z, p) == one <==> p == Sum(z, one)
  {
    PlusSwaps(z.c0, p.c0, one.c0);
    PlusSwaps(z.c1, p.c1, one.c1);
    PlusSwaps(z.c2, p.c2, one.c2);
    PlusSwaps(z.c3, p.c3, one.c3);
    PlusSwaps(z.c4, p.c4, one.c4);
    PlusSwaps(z.c5, p.c5, one.c5);
  }

  lemma PlusSwaps(z: symbol, p: symbol, o: symbol)
    ensures Plus(z, p) == o <==> p == Plus(z, o)
  {
    XorAssoc(z, z, p);
    XorAssoc(z, z, o);
    MulZero(z);
    MulZero(p);
    MulZero(o);
  }

  lemma Apart(e: seq<symbol>, s: seq<symbol>, p: nat, q: nat)
    requires p <= q <= |s|
    ensures e + s == (e + s[..p]) + (s[p..q] + s[q..])
  {
  }

  /** Any change within six consecutive symbols of an accepted data part is detected. */
  lemma ErrorsDetected(hrp: string, s: seq<symbol>, t: seq<symbol>, p: nat)
    requires |s| == |t| && s != t && p <= |s|
    requires forall i :: 0 <= i < |s| && !(p <= i < p + 6) ==> s[i] == t[i]
    requires Accepted(hrp, s)
    ensures !Accepted(hrp, t)
  {
    var q := if p + 6 <= |s| then p + 6 else |s|;
    var e := Expanded(hrp);
    Apart(e, s, p, q);
    Apart(e, t, p, q);
    Differ(s, t, p, q);
    AppendConcat(ONE, e + s[..p], s[p..q] + s[q..]);
    AppendConcat(ONE, e + s[..p], t[p..q] + s[q..]);
    BurstDetected(Append(ONE, e + s[..p]), s[p..q], t[p..q], s[q..]);
  }

  lemma Differ(s: seq<symbol>, t: seq<symbol>, p: nat, q: nat)
    requires |s| == |t| && s != t && p <= q <= |s|
    requires forall i :: 0 <= i < |s| && !(p <= i < q) ==> s[i] == t[i]
    ensures s[..p] == t[..p] && s[q..] == t[q..] && s[p..q] != t[p..q]
  {
    if s[p..q] == t[p..q] {
      forall i | 0 <= i < |s| ensures s[i] == t[i] {
        assert p <= i < q ==> s[i] == s[p..q][i - p] && t[i] == t[p..q][i - p];
      }
    }
  }

  // ----- Text -----

  function Letter(v: symbol): char {
    match v as int
      case 0 => 'q' case 1 => 'p' case 2 => 'z' case 3 => 'r' case 4 => 'y' case 5 => '9' case 6 => 'x'
      case 7 => '8' case 8 => 'g' case 9 => 'f' case 10 => '2' case 11 => 't' case 12 => 'v' case 13 => 'd'
      case 14 => 'w' case 15 => '0' case 16 => 's' case 17 => '3' case 18 => 'j' case 19 => 'n' case 20 => '5'
      case 21 => '4' case 22 => 'k' case 23 => 'h' case 24 => 'c' case 25 => 'e' case 26 => '6' case 27 => 'm'
      case 28 => 'u' case 29 => 'a' case 30 => '7'
      case _ => 'l'
  }

  /** The table back from characters, in either case; -1 marks the others. */
  function Rev(c: char): int {
    match c
      case 'q' | 'Q' => 0 case 'p' | 'P' => 1 case 'z' | 'Z' => 2 case 'r' | 'R' => 3 case 'y' | 'Y' => 4
      case '9' => 5 case 'x' | 'X' => 6 case '8' => 7 case 'g' | 'G' => 8 case 'f' | 'F' => 9 case '2' => 10
      case 't' | 'T' => 11 case 'v' | 'V' => 12 case 'd' | 'D' => 13 case 'w' | 'W' => 14 case '0' => 15
      case 's' | 'S' => 16 case '3' => 17 case 'j' | 'J' => 18 case 'n' | 'N' => 19 case '5' => 20 case '4' => 21
      case 'k' | 'K' => 22 case 'h' | 'H' => 23 case 'c' | 'C' => 24 case 'e' | 'E' => 25 case '6' => 26
      case 'm' | 'M' => 27 case 'u' | 'U' => 28 case 'a' | 'A' => 29 case '7' => 30 case 'l' | 'L' => 31
      case _ => -1
  }

  function LowerCase(c: char): char {
    if 'A' <= c <= 'Z' then c - 'A' + 'a' else c
  }

  predicate IsLower(c: char) { 'a' <= c <= 'z' }
  predicate IsUpper(c: char) { 'A' <= c <= 'Z' }
  predicate Printable(c: char) { 33 <= c as int <= 126 }

  lemma LetterAndBack(v: symbol)
    ensures Rev(Letter(v)) == v && Printable(Letter(v)) && !IsUpper(Letter(v)) && Letter(v) != '1'
  {
  }

  lemma RevAndBack(c: char)
    requires Rev(c) != -1
    ensures 0 <= Rev(c) < 32 && Letter(Rev(c)) == LowerCase(c) && c != '1'
  {
  }

  function Letters(v: seq<symbol>): (s: string)
    ensures |s| == |v|
  {
    seq(|v|, i requires 0 <= i < |v| => Letter(v[i]))
  }

  predicate NoUpper(s: string) {
    forall i :: 0 <= i < |s| ==> !IsUpper(s[i])
  }

  predicate AllPrintable(s: string) {
    forall i :: 0 <= i < |s| ==> Printable(s[i])
  }

  /** Prefix, separator, data and checksum. */
  function Text(hrp: string, values: seq<symbol>): string {
    hrp + "1" + Letters(values + Checksum(hrp, values))
  }

  method Spell(hrp: string, combined: seq<symbol>) returns (s: string)
    ensures s == hrp + "1" + Letters(combined)
  {
    s := hrp + "1";
    for i := 0 to |combined|
      invariant s == hrp + "1" + Letters(combined[..i])
    {
      s := s + [Letter(combined[i])];
      assert Letters(combined[..i + 1]) == Letters(combined[..i]) + [Letter(combined[i])];
    }
    assert combined[..|combined|] == combined;
  }

  method Encode(hrp: string, values: seq<symbol>) returns (s: string)
    requires NoUpper(hrp)
    ensures s == Text(hrp, values)
  {
    var sum := CreateChecksum(hrp, values);
    s := Spell(hrp, values + sum);
  }

  /** The last separator, or -1. */
  function LastOne(s: string): (p: int)
    ensures -1 <= p < |s| && (p >= 0 ==> s[p] == '1') && forall i :: p < i < |s| ==> s[i] != '1'
  {
    if s == [] then -1 else if s[|s| - 1] == '1' then |s| - 1 else LastOne(s[..|s| - 1])
  }

  predicate OneCase(s: string) {
    (forall i :: 0 <= i < |s| ==> !IsLower(s[i])) || NoUpper(s)
  }

  predicate InCharset(s: string) {
    forall i :: 0 <= i < |s| ==> Rev(s[i]) != -1
  }

  predicate WellFormed(s: string) {
    && AllPrintable(s) && OneCase(s) && |s| <= 90
    && 0 < LastOne(s) && LastOne(s) + 7 <= |s| && InCharset(s[LastOne(s) + 1..])
  }

  function Lowered(s: string): string {
    seq(|s|, i requires 0 <= i < |s| => LowerCase(s[i]))
  }

  function Symbolic(s: string): (v: seq<symbol>)
    requires InCharset(s)
    ensures |v| == |s|
  {
    seq(|s|, i requires 0 <= i < |s| => RevAndBack(s[i]); Rev(s[i]))
  }

  function Prefix(s: string): string
    requires WellFormed(s)
  {
    Lowered(s[..LastOne(s)])
  }

  function Data(s: string): (v: seq<symbol>)
    requires WellFormed(s)
    ensures |v| >= 6
  {
    Symbolic(s[LastOne(s) + 1..])
  }

  /** What a text stands for, if its form and its checksum are right. */
  function Read(s: string): Option<(string, seq<symbol>)> {
    if WellFormed(s) && Accepted(Prefix(s), Data(s)) then Some((Prefix(s), Data(s)[..|Data(s)| - 6])) else None
  }

  /** Rejects characters outside the printable range and mixed case. */
  method CheckCharacters(str: string) returns (ok: bool)
    ensures ok <==> AllPrintable(str) && OneCase(str)
  {
    var lower, upper := false, false;
    for i := 0 to |str|
      invariant AllPrintable(str[..i])
      invariant lower <==> exists j :: 0 <= j < i && IsLower(str[j])
      invariant upper <==> exists j :: 0 <= j < i && IsUpper(str[j])
    {
      var c := str[i];
      if IsLower(c) {
        lower := true;
      } else if IsUpper(c) {
        upper := true;
      } else if c as int < 33 || c as int > 126 {
        return false;
      }
    }
    ok := !(lower && upper);
  }

  method ReadSymbols(rest: string) returns (ok: bool, values: seq<symbol>)
    ensures ok <==> InCharset(rest)
    ensures ok ==> values == Symbolic(rest)
  {
    values := [];
    for i := 0 to |rest|
      invariant InCharset(rest[..i]) && values == Symbolic(rest[..i])
    {
      if Rev(rest[i]) == -1 {
        return false, [];
      }
      RevAndBack(rest[i]);
      values := values + [Rev(rest[i])];
    }
    assert rest[..|rest|] == rest;
    ok := true;
  }

  method ToLower(s: string) returns (t: string)
    ensures t == Lowered(s)
  {
    t := "";
    for i := 0 to |s|
      invariant t == Lowered(s[..i])
    {
      t := t + [LowerCase(s[i])];
    }
    assert s[..|s|] == s;
  }

  /** Takes a text apart. */
  method Parse(str: string) returns (ok: bool, hrp: string, values: seq<symbol>)
    ensures ok <==> WellFormed(str)
    ensures ok ==> hrp == Prefix(str) && values == Data(str)
  {
    ok, hrp, values := false, "", [];
    var fine := CheckCharacters(str);
    if !fine {
      return;
    }
    var pos := LastOne(str);
    if |str| > 90 || pos == -1 || pos == 0 || pos + 7 > |str| {
      return;
    }
    ok, values := ReadSymbols(str[pos + 1..]);
    if ok {
      hrp := ToLower(str[..pos]);
    }
  }

  method Decode(str: string) returns (r: Option<(string, seq<symbol>)>)
    ensures r == Read(str)
  {
    var formed, hrp, values := Parse(str);
    if !formed {
      return None;
    }
    var ok := VerifyChecksum(hrp, values);
    if !ok {
      return None;
    }
    r := Some((hrp, values[..|values| - 6]));
  }

  // ----- Round trips -----

  lemma LettersBack(v: seq<symbol>)
    ensures InCharset(Letters(v)) && Symbolic(Letters(v)) == v && AllPrintable(Letters(v)) && NoUpper(Letters(v))
    ensures forall i :: 0 <= i < |v| ==> Letters(v)[i] != '1'
  {
    forall i | 0 <= i < |v|
      ensures Rev(Letters(v)[i]) == v[i] && Printable(Letters(v)[i]) && !IsUpper(Letters(v)[i]) && Letters(v)[i] != '1'
    {
      LetterAndBack(v[i]);
    }
  }

  lemma SymbolicBack(s: string)
    requires InCharset(s)
    ensures Letters(Symbolic(s)) == Lowered(s)
  {
    forall i | 0 <= i < |s| ensures Letters(Symbolic(s))[i] == Lowered(s)[i] {
      RevAndBack(s[i]);
    }
  }

  /** Where the separator of an encoded text is. */
  lemma Separator(hrp: string, t: string)
    requires forall i :: 0 <= i < |t| ==> t[i] != '1'
    ensures var s := hrp + "1" + t; LastOne(s) == |hrp| && s[..|hrp|] == hrp && s[|hrp| + 1..] == t
  {
    var s := hrp + "1" + t;
    assert s[|hrp|] == '1';
    assert forall i :: |hrp| < i < |s| ==> s[i] == t[i - |hrp| - 1];
  }

  /** Decoding undoes encoding, exactly for non-empty printable prefixes and texts of at most 90 characters. */
  lemma ReadText(hrp: string, values: seq<symbol>)
    requires NoUpper(hrp)
    ensures Read(Text(hrp, values)) ==
            if hrp != [] && AllPrintable(hrp) && |hrp| + |values| + 7 <= 90 then Some((hrp, values)) else None
  {
    var sum := Checksum(hrp, values);
    var all := values + sum;
    LettersBack(all);
    Separator(hrp, Letters(all));
    ChecksumUnique(hrp, values, sum);
    TextForm(hrp, Letters(all));
    assert Lowered(hrp) == hrp;
    assert all[..|all| - 6] == values;
  }

  /** What the prefix decides of the form of a text. */
  lemma TextForm(hrp: string, t: string)
    requires NoUpper(hrp) && NoUpper(t) && AllPrintable(t)
    ensures var s := hrp + "1" + t; OneCase(s) && (AllPrintable(s) <==> AllPrintable(hrp))
  {
    var s := hrp + "1" + t;
    assert s[..|hrp|] == hrp;
    assert forall i :: 0 <= i < |hrp| ==> s[i] == hrp[i];
    assert forall i :: |hrp| < i < |s| ==> s[i] == t[i - |hrp| - 1];
  }

  lemma LoweredApart(s: string, p: nat)
    requires p < |s| && s[p] == '1'
    ensures Lowered(s) == Lowered(s[..p]) + "1" + Lowered(s[p + 1..]) && NoUpper(Lowered(s[..p]))
  {
  }

  /** Encoding what was decoded gives the text back in lower case. */
  lemma TextOfRead(s: string)
    requires Read(s).Some?
    ensures NoUpper(Read(s).value.0) && Text(Read(s).value.0, Read(s).value.1) == Lowered(s)
  {
    var p, all := LastOne(s), Data(s);
    var values, sum := all[..|all| - 6], all[|all| - 6..];
    assert all == values + sum;
    ChecksumUnique(Prefix(s), values, sum);
    SymbolicBack(s[p + 1..]);
    LoweredApart(s, p);
  }
}
