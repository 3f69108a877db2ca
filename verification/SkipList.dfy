/** The heights that skip pointers lead to, and how many steps the walk along them takes. */
module SkipList {
  import opened Powers

  /** The number of '1' bits. */
  function Ones(n: nat): nat {
    if n == 0 then 0 else n % 2 + Ones(n / 2)
  }

  /** Turns the lowest '1' bit of a number into a '0', as `n & (n - 1)` does. */
  function InvertLowestOne(n: nat): (r: nat)
    ensures r <= n && (n > 0 ==> r < n)
  {
    if n == 0 then 0 else if n % 2 == 1 then n - 1 else 2 * InvertLowestOne(n / 2)
  }

  /** Exactly the lowest set bit is gone: n was an odd multiple of some power of
      two, and one such power less remains. */
  lemma {:induction false} InvertLowestOneClears(n: nat) returns (k: nat, m: nat)
    requires n > 0
    ensures n == (2 * m + 1) * Pow2(k) && InvertLowestOne(n) == 2 * m * Pow2(k)
  {
    if n % 2 == 1 {
      k, m := 0, n / 2;
    } else {
      k, m := InvertLowestOneClears(n / 2);
      var p := Pow2(k);
      k := k + 1;
      Doubling(2 * m + 1, p);
      Doubling(2 * m, p);
    }
  }

  lemma Doubling(a: int, p: int)
    ensures a * (2 * p) == 2 * (a * p)
  {
  }

  /** One set bit fewer, and an even number stays even. */
  lemma {:induction false} InvertedOnes(n: nat)
    requires n > 0
    ensures Ones(InvertLowestOne(n)) + 1 == Ones(n)
    ensures n % 2 == 0 ==> InvertLowestOne(n) % 2 == 0 && InvertLowestOne(n) + 2 <= n
  {
    if n % 2 == 0 {
      InvertedOnes(n / 2);
    }
  }

  /** The height a block's skip pointer leads to. */
  function GetSkipHeight(height: nat): (r: nat)
    ensures height > 0 ==> r < height
  {
    if height < 2 then 0
    else if height % 2 == 1 then InvertLowestOne(InvertLowestOne(height - 1)) + 1
    else InvertLowestOne(height)
  }

  /** Whether the walk at h towards t takes the skip pointer rather than the parent. */
  predicate Skips(skip: nat -> nat, h: nat, t: nat)
    requires t < h
  {
    skip(h) == t || (skip(h) > t && !(skip(h - 1) < skip(h) - 2 && skip(h - 1) >= t))
  }

  function NextHeight(skip: nat -> nat, h: nat, t: nat): (r: nat)
    requires t < h
    ensures t <= r
  {
    if Skips(skip, h, t) then skip(h) else h - 1
  }

  /** How many steps the walk from h down to t takes. */
  ghost function Steps(skip: nat -> nat, h: nat, t: nat): nat
    requires t <= h && GoesDown(skip)
    decreases h
  {
    if h == t then 0 else 1 + Steps(skip, NextHeight(skip, h, t), t)
  }

  ghost predicate GoesDown(skip: nat -> nat) {
    forall h :: h > 0 ==> skip(h) < h
  }

  /** The skip function of the block tree. It is only looked into where its name is used. */
  ghost predicate IsSkip(skip: nat -> nat) {
    GoesDown(skip) && forall h: nat {:trigger GetSkipHeight(h)} :: skip(h) == GetSkipHeight(h)
  }

  ghost function TreeSkip(): (skip: nat -> nat)
    ensures IsSkip(skip)
  {
    GetSkipHeight
  }

  // ----- Bits of a number in an aligned block -----

  /** A multiple of 2^b. */
  predicate Aligned(n: nat, b: nat)
    decreases b
  {
    b == 0 || (n % 2 == 0 && Aligned(n / 2, b - 1))
  }

  lemma {:induction false} AlignedZero(b: nat)
    ensures Aligned(0, b)
  {
    if b > 0 {
      AlignedZero(b - 1);
    }
  }

  /** The middle of a block is aligned half as much, and losing its lowest bit leads to the block's start. */
  lemma {:induction false} AlignedHalf(p: nat, b: nat)
    requires Aligned(p, b + 1)
    ensures Aligned(p, b) && Aligned(p + Pow2(b), b) && InvertLowestOne(p + Pow2(b)) == p && p % 2 == 0
    ensures b > 0 ==> (p + Pow2(b)) % 2 == 0
  {
    if b > 0 {
      AlignedHalf(p / 2, b - 1);
    }
  }

  lemma {:induction false} InvertWithin(q: nat, b: nat, x: nat)
    requires Aligned(q, b) && 0 < x < Pow2(b)
    ensures InvertLowestOne(q + x) == q + InvertLowestOne(x) && q % 2 == 0
    decreases b
  {
    if x % 2 == 0 {
      InvertWithin(q / 2, b - 1, x / 2);
    }
  }

  lemma {:induction false} OnesBound(x: nat, b: nat)
    requires x < Pow2(b)
    ensures Ones(x) <= b
    decreases b
  {
    if x > 0 {
      OnesBound(x / 2, b - 1);
    }
  }

  lemma OnesDouble(k: nat)
    ensures Ones(2 * k + 1) == Ones(k) + 1
  {
    assert (2 * k + 1) / 2 == k;
  }

  lemma {:induction false} AllOnes(b: nat)
    ensures Ones(Pow2(b) - 1) == b
  {
    if b > 0 {
      AllOnes(b - 1);
      OnesDouble(Pow2(b - 1) - 1);
    }
  }

  // ----- Single steps -----

  lemma OddHeight(h: nat)
    requires h % 2 == 1 && h > 1
    ensures GetSkipHeight(h) == InvertLowestOne(InvertLowestOne(h - 1)) + 1
    ensures GetSkipHeight(h - 1) + 1 >= GetSkipHeight(h)
  {
  }

  /** From an odd height the walk always skips if that does not go too far. */
  lemma OddNext(skip: nat -> nat, h: nat, t: nat)
    requires IsSkip(skip) && h % 2 == 1 && t < h
    ensures Steps(skip, h, t) == 1 + Steps(skip, if skip(h) >= t then skip(h) else h - 1, t)
  {
    if h > 1 {
      OddHeight(h);
    }
  }

  /** From an even height it skips as well, or steps aside to an odd height whose skip is better. */
  lemma EvenNext(skip: nat -> nat, h: nat, t: nat)
    requires IsSkip(skip) && h % 2 == 0 && t < h && skip(h) >= t
    ensures
      || Steps(skip, h, t) == 1 + Steps(skip, skip(h), t)
      || (t <= skip(h - 1) < skip(h) - 2 && Steps(skip, h, t) == 2 + Steps(skip, skip(h - 1), t))
  {
    if !Skips(skip, h, t) {
      OddNext(skip, h - 1, t);
    }
  }

  // ----- Where skips lead inside a block -----

  /** The block of 2^(b+1) heights at p, with its middle q. */
  ghost predicate IsBlock(p: nat, q: nat, b: nat) {
    Aligned(p, b + 1) && q == p + Pow2(b)
  }

  lemma OnesOdd(x: nat)
    requires x % 2 == 0
    ensures Ones(x + 1) == Ones(x) + 1
  {
    assert (x + 1) / 2 == x / 2;
  }

  /** The skip from one above the middle clears the middle's bit and one more. */
  lemma SkipFromOne(p: nat, q: nat, b: nat)
    requires IsBlock(p, q, b) && 1 < Pow2(b)
    ensures p % 2 == 0 && (q + 1) % 2 == 1
    ensures GetSkipHeight(q + 1) < p || (p == 0 && GetSkipHeight(q + 1) == 1)
  {
    AlignedHalf(p, b);
    OneMore(q);
    BelowEven(p);
  }

  lemma OneMore(q: nat)
    requires q > 0 && q % 2 == 0
    ensures (q + 1) % 2 == 1 && GetSkipHeight(q + 1) == InvertLowestOne(InvertLowestOne(q)) + 1
  {
    OddHeight(q + 1);
  }

  lemma BelowEven(p: nat)
    requires p % 2 == 0
    ensures InvertLowestOne(p) + 1 < p || (p == 0 && InvertLowestOne(p) == 0)
  {
    if p > 0 {
      InvertedOnes(p);
    }
  }

  /** The skip from an odd height clears two bits above the last, the middle's if there is only one other. */
  lemma SkipFromOdd(p: nat, q: nat, b: nat, x: nat)
    requires IsBlock(p, q, b) && 1 < x < Pow2(b) && x % 2 == 1
    ensures p % 2 == 0 && (q + x) % 2 == 1
    ensures GetSkipHeight(q + x) ==
            (if InvertLowestOne(x - 1) == 0 then p else q + InvertLowestOne(InvertLowestOne(x - 1))) + 1
  {
    AlignedHalf(p, b);
    OddHeight(q + x);
    InvertTwice(p, q, b, x - 1);
  }

  lemma InvertTwice(p: nat, q: nat, b: nat, y: nat)
    requires Aligned(q, b) && InvertLowestOne(q) == p && 0 < y < Pow2(b)
    ensures InvertLowestOne(InvertLowestOne(q + y)) ==
            if InvertLowestOne(y) == 0 then p else q + InvertLowestOne(InvertLowestOne(y))
  {
    InvertWithin(q, b, y);
    if InvertLowestOne(y) > 0 {
      InvertWithin(q, b, InvertLowestOne(y));
    }
  }

  /** Two bits fewer of an odd number that has three. */
  lemma OddOnes(x: nat) returns (x': nat)
    requires x % 2 == 1
    ensures Ones(x) >= 1 && (Ones(x) == 1 <==> x == 1)
    ensures Ones(x) == 2 <==> x > 1 && InvertLowestOne(x - 1) == 0
    ensures Ones(x) == 2 ==> Ones(x - 1) == 1
    ensures Ones(x) > 2 ==>
            x' == InvertLowestOne(InvertLowestOne(x - 1)) + 1 && x' % 2 == 1 && x' < x && Ones(x') + 2 == Ones(x)
  {
    var y := x - 1;
    OnesOdd(y);
    x' := 1;
    if y > 0 {
      InvertedOnes(y);
      var z := InvertLowestOne(y);
      if z > 0 {
        InvertedOnes(z);
        OnesOdd(InvertLowestOne(z));
        x' := InvertLowestOne(z) + 1;
      }
    }
  }

  lemma LowTwo(k: nat)
    ensures InvertLowestOne(4 * k + 2) == 4 * k
  {
    assert InvertLowestOne(2 * k + 1) == 2 * k;
  }

  lemma LowFour(k: nat)
    ensures InvertLowestOne(8 * k + 4) == 8 * k
  {
    LowTwo(k);
    assert (8 * k + 4) / 2 == 4 * k + 2;
  }

  lemma LowEight(k: nat)
    requires k > 0
    ensures InvertLowestOne(8 * k) <= 8 * k - 8
  {
    assert InvertLowestOne(8 * k) == 2 * InvertLowestOne(4 * k);
    assert InvertLowestOne(4 * k) == 2 * InvertLowestOne(2 * k);
    assert InvertLowestOne(2 * k) == 2 * InvertLowestOne(k);
  }

  lemma EvenForms(x: nat) returns (k: nat)
    requires x % 2 == 0
    ensures x == 4 * k + 2 || x == 8 * k || x == 8 * k + 4
  {
    k := if x % 4 == 2 then x / 4 else x / 8;
  }

  /** An odd skip that beats the even one next to it leaves fewer bits. */
  lemma AsideGains(x: nat, x': nat)
    requires x % 2 == 0 && x > 2 && x' == InvertLowestOne(InvertLowestOne(x - 2)) + 1
    requires InvertLowestOne(x - 2) > 0 && x' + 2 < InvertLowestOne(x)
    ensures Ones(x') + 1 <= Ones(x)
  {
    var k := EvenForms(x);
    if x == 4 * k + 2 {
      AsideFromTwo(x, k);
    } else if x == 8 * k {
      NoneAside(x, k);
    } else {
      AsideFromFour(x, k);
    }
  }

  lemma NoneAside(x: nat, k: nat)
    requires x > 0 && x == 8 * k
    ensures InvertLowestOne(x) < InvertLowestOne(InvertLowestOne(x - 2)) + 3
  {
    LowEight(k);
    LowTwo(2 * k - 1);
    LowFour(k - 1);
  }

  lemma AsideFromTwo(x: nat, k: nat)
    requires x == 4 * k + 2 && InvertLowestOne(x - 2) > 0
    ensures Ones(InvertLowestOne(InvertLowestOne(x - 2)) + 1) + 2 == Ones(x)
  {
    LowTwo(k);
    InvertedOnes(4 * k + 2);
    OnesDropTwo(4 * k);
  }

  lemma AsideFromFour(x: nat, k: nat)
    requires x == 8 * k + 4 && InvertLowestOne(x - 2) > 0
    ensures Ones(InvertLowestOne(InvertLowestOne(x - 2)) + 1) + 1 == Ones(x)
  {
    LowTwo(2 * k);
    LowFour(k);
    OnesExchanged(x, 8 * k);
  }

  lemma OnesExchanged(x: nat, z: nat)
    requires x > 0 && z > 0 && InvertLowestOne(x) == z && z % 2 == 0
    ensures Ones(InvertLowestOne(z) + 1) + 1 == Ones(x)
  {
    InvertedOnes(x);
    InvertedOnes(z);
    OnesOdd(InvertLowestOne(z));
  }

  lemma OnesDropTwo(y: nat)
    requires y > 0 && y % 2 == 0 && InvertLowestOne(y) > 0
    ensures Ones(InvertLowestOne(InvertLowestOne(y)) + 1) + 1 == Ones(y)
  {
    var z := InvertLowestOne(y);
    InvertedOnes(y);
    InvertedOnes(z);
    OnesOdd(InvertLowestOne(z));
  }

  /** What a skip does to the bits of a height: one fewer from an even height, two fewer above
      the last from an odd one, as far as there are any. */
  lemma SkipHeightOnes(height: nat)
    requires height >= 2
    ensures GetSkipHeight(height) < height && GetSkipHeight(height) % 2 == height % 2
    ensures height % 2 == 0 ==> Ones(GetSkipHeight(height)) + 1 == Ones(height)
    ensures height % 2 == 1 ==> Ones(GetSkipHeight(height)) == if Ones(height) > 2 then Ones(height) - 2 else 1
  {
    if height % 2 == 0 {
      EvenHeight(height);
      InvertedOnes(height);
    } else {
      OddHeight(height);
      var _ := OddOnes(height);
    }
  }

  /** Where the skip from an odd height leads, in terms of its bits. */
  lemma OddOutcome(skip: nat -> nat, p: nat, q: nat, b: nat, x: nat) returns (x': nat)
    requires IsSkip(skip) && IsBlock(p, q, b) && x < Pow2(b) && x % 2 == 1
    ensures p % 2 == 0 && (q + x) % 2 == 1 && Ones(x) >= 1
    ensures Ones(x) == 1 ==> x == 1 && (skip(q + x) < p || (p == 0 && skip(q + x) == 1))
    ensures Ones(x) == 2 ==> x > 1 && Ones(x - 1) == 1 && skip(q + x) == p + 1
    ensures Ones(x) > 2 ==> skip(q + x) == q + x' && x' < x && x' % 2 == 1 && Ones(x') + 2 == Ones(x)
  {
    x' := OddOnes(x);
    if x == 1 {
      SkipFromOne(p, q, b);
    } else {
      SkipFromOdd(p, q, b, x);
    }
  }

  /** Where the skip from an even height leads. */
  lemma EvenOutcome(skip: nat -> nat, p: nat, q: nat, b: nat, x: nat) returns (x': nat)
    requires IsSkip(skip) && IsBlock(p, q, b) && 0 < x < Pow2(b) && x % 2 == 0
    ensures p % 2 == 0 && (q + x) % 2 == 0 && x' == InvertLowestOne(x)
    ensures skip(q + x) == q + x' && x' < x && x' % 2 == 0 && Ones(x') + 1 == Ones(x)
  {
    AlignedHalf(p, b);
    InvertWithin(q, b, x);
    InvertedOnes(x);
    EvenHeight(q + x);
    x' := InvertLowestOne(x);
  }

  /** Where the skip from the odd height below an even one leads. */
  lemma AsideOutcome(skip: nat -> nat, p: nat, q: nat, b: nat, x: nat, x': nat) returns (y: nat)
    requires IsSkip(skip) && IsBlock(p, q, b) && 0 < x < Pow2(b) && x % 2 == 0 && x' == InvertLowestOne(x)
    ensures
      || skip(q + x - 1) < p || (p == 0 && skip(q + x - 1) == 1)
      || skip(q + x - 1) == p + 1
      || (skip(q + x - 1) == q + y && Better(x, x', y))
  {
    if x == 2 {
      SkipFromOne(p, q, b);
      y := 0;
    } else {
      y := AsideHeight(p, q, b, x, x');
    }
  }

  /** An odd y with fewer bits than x if it lies well below x'. */
  ghost predicate Better(x: nat, x': nat, y: nat) {
    y < x && y % 2 == 1 && Ones(y) >= 1 && (y + 2 < x' ==> Ones(y) + 1 <= Ones(x))
  }

  lemma AsideHeight(p: nat, q: nat, b: nat, x: nat, x': nat) returns (y: nat)
    requires IsBlock(p, q, b) && 2 < x < Pow2(b) && x % 2 == 0 && x' == InvertLowestOne(x)
    ensures GetSkipHeight(q + x - 1) == p + 1 || (GetSkipHeight(q + x - 1) == q + y && Better(x, x', y))
  {
    var h, z := q + x - 1, x - 2;
    y := OddSkip(p, q, b, z, h);
    if y > 0 {
      AsideWithin(x, x', y);
    }
  }

  /** The skip from one above an even z, as the value y it has within the upper half, or zero. */
  lemma OddSkip(p: nat, q: nat, b: nat, z: nat, h: nat) returns (y: nat)
    requires IsBlock(p, q, b) && 0 < z < Pow2(b) - 1 && z % 2 == 0 && h == q + z + 1
    ensures y == 0 ==> GetSkipHeight(h) == p + 1
    ensures y > 0 ==> GetSkipHeight(h) == q + y && InvertLowestOne(z) > 0
    ensures y > 0 ==> y == InvertLowestOne(InvertLowestOne(z)) + 1
  {
    SkipFromOdd(p, q, b, z + 1);
    y := if InvertLowestOne(z) == 0 then 0 else InvertLowestOne(InvertLowestOne(z)) + 1;
  }

  lemma AsideWithin(x: nat, x': nat, y: nat)
    requires x > 2 && x % 2 == 0 && x' == InvertLowestOne(x) && InvertLowestOne(x - 2) > 0
    requires y == InvertLowestOne(InvertLowestOne(x - 2)) + 1
    ensures Better(x, x', y)
  {
    OddAgain(x - 2);
    if y + 2 < x' {
      AsideGains(x, y);
    }
  }

  lemma EvenHeight(h: nat)
    requires h % 2 == 0 && h > 1
    ensures GetSkipHeight(h) == InvertLowestOne(h)
  {
  }

  lemma OddAgain(y: nat)
    requires y > 0 && y % 2 == 0 && InvertLowestOne(y) > 0
    ensures var y' := InvertLowestOne(InvertLowestOne(y)) + 1; y' % 2 == 1 && Ones(y') >= 1 && y' < y
  {
    InvertedOnes(y);
    InvertedOnes(InvertLowestOne(y));
    OnesOdd(InvertLowestOne(InvertLowestOne(y)));
  }

  // ----- The descent to the middle of a block -----

  /** The walk from x above the middle q of the block at p, to a target in the lower half. */
  ghost predicate InDescent(p: nat, q: nat, b: nat, x: nat, t: nat) {
    IsBlock(p, q, b) && x < Pow2(b) && p <= t < q
  }

  /** One above an even height one step remains. */
  lemma OneAbove(skip: nat -> nat, p: nat, t: nat)
    requires IsSkip(skip) && p % 2 == 0 && p <= t <= p + 1
    ensures Steps(skip, p + 1, t) <= 1
  {
    if t == p {
      OddNext(skip, p + 1, t);
      if p > 0 {
        OddHeight(p + 1);
        InvertedOnes(p);
      }
    }
  }

  /** One step of an odd descent. */
  lemma OddStep(skip: nat -> nat, p: nat, q: nat, b: nat, x: nat, t: nat) returns (x': nat)
    requires IsSkip(skip) && InDescent(p, q, b, x, t) && x % 2 == 1 && Ones(x) > 2
    ensures Steps(skip, q + x, t) == 1 + Steps(skip, q + x', t)
    ensures x' < x && x' % 2 == 1 && Ones(x') + 2 == Ones(x)
  {
    x' := OddOutcome(skip, p, q, b, x);
    OddNext(skip, q + x, t);
  }

  /** The end of an odd descent. */
  lemma OddEnd(skip: nat -> nat, p: nat, q: nat, b: nat, x: nat, t: nat)
    requires IsSkip(skip) && InDescent(p, q, b, x, t) && x % 2 == 1 && Ones(x) <= 2
    ensures Ones(x) >= 1 && Steps(skip, q + x, t) <= Ones(x) + Steps(skip, q, t)
    ensures t > p + 1 ==> Steps(skip, q + x, t) == Ones(x) + Steps(skip, q, t)
  {
    var _ := OddOutcome(skip, p, q, b, x);
    OddNext(skip, q + x, t);
    if t <= p + 1 {
      OneAbove(skip, p, t);
      AtLeastOne(skip, q, t);
    } else if Ones(x) == 2 {
      SingleBit(skip, p, q, b, x - 1, t);
    }
  }

  lemma AtLeastOne(skip: nat -> nat, h: nat, t: nat)
    requires GoesDown(skip) && t < h
    ensures Steps(skip, h, t) >= 1
  {
  }

  lemma {:induction false} DescendOdd(skip: nat -> nat, p: nat, q: nat, b: nat, x: nat, t: nat)
    requires IsSkip(skip) && InDescent(p, q, b, x, t) && x % 2 == 1
    ensures Steps(skip, q + x, t) <= Ones(x) / 2 + 1 + Steps(skip, q, t)
  {
    if Ones(x) > 2 {
      var x' := OddStep(skip, p, q, b, x, t);
      DescendOdd(skip, p, q, b, x', t);
    } else {
      OddEnd(skip, p, q, b, x, t);
    }
  }

  /** With one bit left the skip leads to the middle, unless the target is at the start. */
  lemma SingleBit(skip: nat -> nat, p: nat, q: nat, b: nat, x: nat, t: nat)
    requires IsSkip(skip) && InDescent(p, q, b, x, t) && x % 2 == 0 && Ones(x) == 1 && t > p + 1
    ensures Steps(skip, q + x, t) == 1 + Steps(skip, q, t)
  {
    var x' := EvenOutcome(skip, p, q, b, x);
    NoOnes(x');
    var y := AsideOutcome(skip, p, q, b, x, x');
    EvenNext(skip, q + x, t);
  }

  lemma NoOnes(x: nat)
    requires Ones(x) == 0
    ensures x == 0
  {
  }

  lemma {:induction false} DescendEven(skip: nat -> nat, p: nat, q: nat, b: nat, x: nat, t: nat)
    requires IsSkip(skip) && InDescent(p, q, b, x, t) && x % 2 == 0
    ensures Steps(skip, q + x, t) <= (if x == 0 then 0 else Ones(x) + 1) + Steps(skip, q, t)
  {
    if x > 0 {
      var x' := EvenOutcome(skip, p, q, b, x);
      EvenNext(skip, q + x, t);
      DescendEven(skip, p, q, b, x', t);
      if t <= skip(q + x - 1) < q + x' - 2 {
        DescendAside(skip, p, q, b, x, x', t);
      }
    }
  }

  lemma DescendAside(skip: nat -> nat, p: nat, q: nat, b: nat, x: nat, x': nat, t: nat)
    requires IsSkip(skip) && InDescent(p, q, b, x, t) && x % 2 == 0 && x > 0 && Ones(x) > 0 && x' == InvertLowestOne(x)
    requires p % 2 == 0 && t <= skip(q + x - 1) < q + x' - 2
    ensures 2 + Steps(skip, skip(q + x - 1), t) <= Ones(x) + 1 + Steps(skip, q, t)
  {
    var y := AsideOutcome(skip, p, q, b, x, x');
    var aside := skip(q + x - 1);
    if aside <= p + 1 {
      OneAbove(skip, p, t);
    } else {
      DescendOdd(skip, p, q, b, y, t);
    }
  }

  // ----- The whole walk -----

  /** From the middle of a block the walk is there, or goes on at the top of the lower half. */
  lemma FromMiddle(skip: nat -> nat, p: nat, q: nat, b: nat, t: nat)
    requires IsSkip(skip) && IsBlock(p, q, b) && p <= t < q
    ensures Steps(skip, q, t) <= 1 + if t == p then 0 else Steps(skip, q - 1, t)
  {
    AlignedHalf(p, b);
    if b == 0 {
      OneAbove(skip, p, t);
    } else {
      EvenHeight(q);
    }
  }

  /** The steps allowed from the top of an aligned block of 2^b heights to any height in it. */
  function TopBound(b: nat): nat {
    if b == 0 then 0 else (b - 1) / 2 + 2 + TopBound(b - 1)
  }

  lemma {:induction false} FromTop(skip: nat -> nat, p: nat, b: nat, top: nat, t: nat)
    requires IsSkip(skip) && Aligned(p, b) && top == p + Pow2(b) - 1 && p <= t <= top
    ensures Steps(skip, top, t) <= TopBound(b)
    decreases b
  {
    if b > 0 {
      var q := p + Pow2(b - 1);
      AlignedHalf(p, b - 1);
      if t >= q {
        FromTop(skip, q, b - 1, top, t);
      } else {
        FromTop(skip, p, b - 1, q - 1, t);
        TopCrossing(skip, p, q, b - 1, top, t);
      }
    }
  }

  /** From the top over the middle into the lower half. */
  lemma TopCrossing(skip: nat -> nat, p: nat, q: nat, b: nat, top: nat, t: nat)
    requires IsSkip(skip) && IsBlock(p, q, b) && top == q + Pow2(b) - 1 && p <= t < q
    ensures Steps(skip, top, t) <= b / 2 + 2 + Steps(skip, q - 1, t)
  {
    FromMiddle(skip, p, q, b, t);
    if b > 0 {
      AllOnes(b);
      var x := top - q;
      assert x % 2 == 1;
      DescendOdd(skip, p, q, b, x, t);
    }
  }

  /** The steps allowed within an aligned block of 2^b heights. */
  function WalkBound(b: nat): nat {
    if b == 0 then 0 else b + 1 + TopBound(b - 1)
  }

  lemma {:induction false} WalkIn(skip: nat -> nat, p: nat, b: nat, h: nat, t: nat)
    requires IsSkip(skip) && Aligned(p, b) && p <= t <= h < p + Pow2(b)
    ensures Steps(skip, h, t) <= WalkBound(b)
    decreases b
  {
    if b > 0 {
      var q := p + Pow2(b - 1);
      AlignedHalf(p, b - 1);
      if t >= q {
        WalkIn(skip, q, b - 1, h, t);
      } else if h < q {
        WalkIn(skip, p, b - 1, h, t);
      } else {
        Crossing(skip, p, q, b - 1, h - q, t);
      }
    }
  }

  /** Over the middle into the lower half. */
  lemma Crossing(skip: nat -> nat, p: nat, q: nat, b: nat, x: nat, t: nat)
    requires IsSkip(skip) && IsBlock(p, q, b) && Aligned(p, b) && x < Pow2(b) && p <= t < q
    ensures Steps(skip, q + x, t) <= b + 2 + TopBound(b)
  {
    FromTop(skip, p, b, q - 1, t);
    FromMiddle(skip, p, q, b, t);
    OnesBound(x, b);
    if x % 2 == 1 {
      DescendOdd(skip, p, q, b, x, t);
    } else {
      DescendEven(skip, p, q, b, x, t);
    }
  }

  lemma {:induction false} TopBoundIs(b: nat)
    ensures TopBound(b) == if b == 0 then 0 else (b - 1) * (b - 1) / 4 + 2 * b
  {
    if b > 1 {
      TopBoundIs(b - 1);
      Quarter(b - 1);
    }
  }

  lemma Quarter(m: nat)
    requires m > 0
    ensures m * m / 4 == (m - 1) * (m - 1) / 4 + m / 2
  {
    var j := m / 2;
    if m == 2 * j {
      Squares(m, j);
      Squares(m - 1, j - 1);
    } else {
      Squares(m, j);
      Squares(m - 1, j);
    }
  }

  lemma Squares(m: nat, j: nat)
    requires m == 2 * j || m == 2 * j + 1
    ensures m * m / 4 == if m == 2 * j then j * j else j * j + j
  {
    if m == 2 * j {
      DivModUnique(m * m, 4, j * j, 0);
    } else {
      DivModUnique(m * m, 4, j * j + j, 1);
    }
  }

  /** Below height 2^k the walk takes at most k * k / 4 + 2 * k steps. */
  lemma WalkIsShort(skip: nat -> nat, k: nat, h: nat, t: nat)
    requires IsSkip(skip) && t <= h < Pow2(k)
    ensures Steps(skip, h, t) <= k * k / 4 + 2 * k
  {
    AlignedZero(k);
    WalkIn(skip, 0, k, h, t);
    if k > 1 {
      TopBoundIs(k - 1);
      Quarter(k);
      Quarter(k - 1);
    }
  }

  // ----- No logarithmic bound -----

  /** An odd descent clears two bits in a step at best. */
  lemma {:induction false} DescendSlowly(skip: nat -> nat, p: nat, q: nat, b: nat, x: nat, t: nat)
    requires IsSkip(skip) && InDescent(p, q, b, x, t) && x % 2 == 1 && t > p + 1
    ensures Steps(skip, q + x, t) >= Ones(x) / 2 + Steps(skip, q, t)
  {
    if Ones(x) > 2 {
      var x' := OddStep(skip, p, q, b, x, t);
      DescendSlowly(skip, p, q, b, x', t);
    } else {
      OddEnd(skip, p, q, b, x, t);
    }
  }

  /** From the top of 2^(b+1) heights to height two the walk passes the top of 2^b. */
  lemma OneHalving(skip: nat -> nat, b: nat, q: nat)
    requires IsSkip(skip) && b >= 2 && q == Pow2(b) && q > 2
    ensures Steps(skip, 2 * q - 1, 2) >= b / 2 + 1 + Steps(skip, q - 1, 2)
  {
    AlignedZero(b + 1);
    AlignedHalf(0, b);
    EvenHeight(q);
    AllOnes(b);
    var x := q - 1;
    assert x % 2 == 1;
    DescendSlowly(skip, 0, q, b, x, 2);
  }

  /** The walk from the top of 2^k heights to height two: the bound is right but for a multiple of k. */
  lemma {:induction false} WalkIsLong(skip: nat -> nat, k: nat)
    requires IsSkip(skip) && k >= 2
    ensures Pow2(k) > 2 && Steps(skip, Pow2(k) - 1, 2) >= (k - 1) * (k - 1) / 4 + k - 2
  {
    if k > 2 {
      WalkIsLong(skip, k - 1);
      OneHalving(skip, k - 1, Pow2(k - 1));
      Quarter(k - 1);
    }
  }

  // ----- The walk along the tree's own skip pointers -----

  ghost function WalkLength(h: nat, t: nat): nat
    requires t <= h
  {
    Steps(TreeSkip(), h, t)
  }

  lemma OneStep(h: nat, t: nat, skip: nat, skipPrev: nat)
    requires t < h && skip == GetSkipHeight(h) && skipPrev == GetSkipHeight(h - 1)
    ensures
      var follow := skip == t || (skip > t && !(skipPrev < skip - 2 && skipPrev >= t));
      WalkLength(h, t) == 1 + WalkLength(if follow then skip else h - 1, t)
  {
  }

  lemma EveryWalkIsShort(h: nat, t: nat, steps: nat)
    requires t <= h && steps == WalkLength(h, t)
    ensures forall k: nat {:trigger Pow2(k)} :: h < Pow2(k) ==> steps <= k * k / 4 + 2 * k
  {
    forall k: nat | h < Pow2(k) ensures steps <= k * k / 4 + 2 * k {
      WalkIsShort(TreeSkip(), k, h, t);
    }
  }
}
