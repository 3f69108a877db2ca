/** The cuckoo cache: a lossy set in which every element has eight slots. A slot
    whose collection flag is set holds garbage that may be overwritten. */
module Cuckoo {
  import opened Powers

  /** The high half of a 32-bit by 32-bit product: a hash scaled into a range. */
  function FastRange(hash: nat, size: nat): (loc: nat)
    requires hash < 0x1_0000_0000 && size > 0
    ensures loc < size && loc * 0x1_0000_0000 <= hash * size < (loc + 1) * 0x1_0000_0000
  {
    MulStrict(hash, 0x1_0000_0000, size);
    DivMod(hash * size, 0x1_0000_0000);
    hash * size / 0x1_0000_0000
  }

  function HashSlot<E>(hash: (nat, E) -> nat, size: nat, e: E, k: nat): (loc: nat)
    requires size > 0
    ensures loc < size
  {
    FastRange(hash(k, e) % 0x1_0000_0000, size)
  }

  /** The eight slots a hash function gives an element. */
  function HashSlots<E>(hash: (nat, E) -> nat, size: nat, e: E): (locs: seq<nat>)
    requires size > 0
    ensures Fits(locs, size) && forall k: nat :: k < 8 ==> locs[k] == HashSlot(hash, size, e, k)
  {
    [HashSlot(hash, size, e, 0), HashSlot(hash, size, e, 1), HashSlot(hash, size, e, 2), HashSlot(hash, size, e, 3),
     HashSlot(hash, size, e, 4), HashSlot(hash, size, e, 5), HashSlot(hash, size, e, 6), HashSlot(hash, size, e, 7)]
  }

  predicate Fits(locs: seq<nat>, size: nat) {
    |locs| == 8 && forall k :: 0 <= k < 8 ==> locs[k] < size
  }

  // ----- Live elements -----

  function One<E>(x: E, garbage: bool): multiset<E> {
    if garbage then multiset{} else multiset{x}
  }

  /** The elements in slots that are not garbage. */
  function Live<E>(table: seq<E>, garbage: seq<bool>): multiset<E>
    requires |table| == |garbage|
  {
    if table == [] then multiset{}
    else Live(table[..|table| - 1], garbage[..|garbage| - 1]) + One(table[|table| - 1], garbage[|garbage| - 1])
  }

  lemma LiveLast<E>(table: seq<E>, garbage: seq<bool>, n: nat, most: seq<E>, flags: seq<bool>)
    requires |table| == |garbage| == n + 1 && most == table[..n] && flags == garbage[..n]
    ensures Live(table, garbage) == Live(most, flags) + One(table[n], garbage[n])
  {
  }

  /** Overwriting one slot exchanges what it contributes. */
  lemma {:induction false} LiveUpdate<E>(table: seq<E>, garbage: seq<bool>, i: nat, x: E, g: bool)
    requires |table| == |garbage| && i < |table|
    ensures Live(table[i := x], garbage[i := g]) + One(table[i], garbage[i]) == Live(table, garbage) + One(x, g)
  {
    var n := |table| - 1;
    var t, f := table[..n], garbage[..n];
    LiveLast(table, garbage, n, t, f);
    if i < n {
      LiveUpdate(t, f, i, x, g);
      LiveLast(table[i := x], garbage[i := g], n, t[i := x], f[i := g]);
      Exchange(Live(t[i := x], f[i := g]), Live(t, f), One(table[i], garbage[i]), One(x, g), One(table[n], garbage[n]));
    } else {
      LiveLast(table[i := x], garbage[i := g], n, t, f);
    }
  }

  lemma Exchange<E>(a: multiset<E>, b: multiset<E>, o: multiset<E>, n: multiset<E>, l: multiset<E>)
    requires a + o == b + n
    ensures a + l + o == b + l + n
  {
    assert a + l + o == a + o + l;
    assert b + l + n == b + n + l;
  }

  /** An element is live exactly when some slot holds it that is not garbage. */
  lemma {:induction false} LiveAt<E>(table: seq<E>, garbage: seq<bool>, x: E)
    requires |table| == |garbage|
    ensures x in Live(table, garbage) <==> exists i :: 0 <= i < |table| && table[i] == x && !garbage[i]
  {
    if table != [] {
      var n := |table| - 1;
      LiveAt(table[..n], garbage[..n], x);
      if x in Live(table[..n], garbage[..n]) {
        var i :| 0 <= i < n && table[..n][i] == x && !garbage[..n][i];
        assert table[i] == x && !garbage[i];
      }
      if i :| 0 <= i < |table| && table[i] == x && !garbage[i] {
        assert i < n ==> table[..n][i] == x && !garbage[..n][i];
      }
    }
  }

  function Zip<E>(table: seq<E>, recent: seq<bool>): (z: seq<(E, bool)>)
    requires |table| == |recent|
    ensures |z| == |table|
  {
    seq(|table|, i requires 0 <= i < |table| => (table[i], recent[i]))
  }

  /** The live elements with their epoch marks. */
  function Entries<E(==)>(table: seq<E>, recent: seq<bool>, garbage: seq<bool>): multiset<(E, bool)>
    requires |table| == |recent| == |garbage|
  {
    Live(Zip(table, recent), garbage)
  }

  lemma EntriesUpdate<E>(table: seq<E>, recent: seq<bool>, garbage: seq<bool>, i: nat, x: E, r: bool, g: bool)
    requires |table| == |recent| == |garbage| && i < |table|
    ensures Entries(table[i := x], recent[i := r], garbage[i := g]) + One((table[i], recent[i]), garbage[i])
         == Entries(table, recent, garbage) + One((x, r), g)
  {
    assert Zip(table[i := x], recent[i := r]) == Zip(table, recent)[i := (x, r)];
    LiveUpdate(Zip(table, recent), garbage, i, (x, r), g);
  }

  // ----- Epochs -----

  /** Ageing turns everything outside the current epoch into garbage. */
  function Aged(garbage: seq<bool>, recent: seq<bool>): (r: seq<bool>)
    requires |garbage| == |recent|
    ensures |r| == |garbage|
  {
    seq(|garbage|, i requires 0 <= i < |garbage| => garbage[i] || !recent[i])
  }

  /** How many slots of the current epoch are not garbage. */
  function InUse(garbage: seq<bool>, recent: seq<bool>): nat
    requires |garbage| == |recent|
  {
    if garbage == [] then 0
    else
      var n := |garbage| - 1;
      InUse(garbage[..n], recent[..n]) + (if recent[n] && !garbage[n] then 1 else 0)
  }

  function Never(n: nat): (r: seq<bool>)
    ensures |r| == n
  {
    seq(n, _ => false)
  }

  /** A new epoch begins: what belonged to the last one stays, as old, and what was
      older is gone. */
  ghost predicate RollsOver<E(!new)>(before: multiset<(E, bool)>, after: multiset<(E, bool)>) {
    forall x: E :: after[(x, false)] == before[(x, true)] && after[(x, true)] == 0
  }

  /** The check that precedes every insertion: once the wait is over and the current epoch
      has enough live elements a new epoch begins, and otherwise nothing changes. */
  ghost predicate EpochStep<E(!new)>(before: multiset<(E, bool)>, after: multiset<(E, bool)>, current: multiset<E>,
                                     counter: nat, epochSize: nat) {
    && (forall x: E :: current[x] == before[(x, true)])
    && if counter == 0 && |current| >= epochSize then RollsOver(before, after) else after == before
  }

  lemma ZipLast<E>(t: seq<E>, r: seq<bool>, n: nat)
    requires |t| == |r| == n + 1
    ensures Zip(t, r)[..n] == Zip(t[..n], r[..n]) && Zip(t, r)[n] == (t[n], r[n])
  {
  }

  /** The elements of the current epoch are the live ones with the mark. */
  lemma {:induction false} CurrentCounted<E(!new)>(t: seq<E>, r: seq<bool>, g: seq<bool>, x: E)
    requires |t| == |r| == |g|
    ensures Live(t, Aged(g, r))[x] == Entries(t, r, g)[(x, true)]
  {
    if t != [] {
      var n, a := |t| - 1, Aged(g, r);
      CurrentCounted(t[..n], r[..n], g[..n], x);
      ZipLast(t, r, n);
      assert a[..n] == Aged(g[..n], r[..n]);
      LiveLast(t, a, n, t[..n], a[..n]);
      LiveLast(Zip(t, r), g, n, Zip(t[..n], r[..n]), g[..n]);
    }
  }

  /** Marking everything old moves the live elements over. */
  lemma {:induction false} OldMarks<E(!new)>(t: seq<E>, g: seq<bool>, x: E)
    requires |t| == |g|
    ensures Entries(t, Never(|t|), g)[(x, false)] == Live(t, g)[x] && Entries(t, Never(|t|), g)[(x, true)] == 0
  {
    if t != [] {
      var n, r := |t| - 1, Never(|t|);
      OldMarks(t[..n], g[..n], x);
      ZipLast(t, r, n);
      assert r[..n] == Never(n);
      LiveLast(t, g, n, t[..n], g[..n]);
      LiveLast(Zip(t, r), g, n, Zip(t[..n], r[..n]), g[..n]);
    }
  }

  lemma AgedRollsOver<E(!new)>(t: seq<E>, r: seq<bool>, g: seq<bool>, current: multiset<E>)
    requires |t| == |r| == |g| && current == Live(t, Aged(g, r))
    ensures |current| == InUse(g, r) && forall x: E :: current[x] == Entries(t, r, g)[(x, true)]
    ensures RollsOver(Entries(t, r, g), Entries(t, Never(|t|), Aged(g, r)))
  {
    forall x: E
      ensures current[x] == Entries(t, r, g)[(x, true)]
      ensures var after := Entries(t, Never(|t|), Aged(g, r)); after[(x, false)] == current[x] && after[(x, true)] == 0
    {
      CurrentCounted(t, r, g, x);
      OldMarks(t, Aged(g, r), x);
    }
    CurrentSize(t, r, g);
  }

  lemma {:induction false} CurrentSize<E>(t: seq<E>, r: seq<bool>, g: seq<bool>)
    requires |t| == |r| == |g|
    ensures |Live(t, Aged(g, r))| == InUse(g, r)
  {
    if t != [] {
      var n, a := |t| - 1, Aged(g, r);
      CurrentSize(t[..n], r[..n], g[..n]);
      assert a[..n] == Aged(g[..n], r[..n]);
      LiveLast(t, a, n, t[..n], a[..n]);
    }
  }

  lemma EntryLive<E>(t: seq<E>, r: seq<bool>, g: seq<bool>, i: nat)
    requires i < |t| == |r| == |g| && !g[i]
    ensures (t[i], r[i]) in Entries(t, r, g)
  {
    LiveAt(Zip(t, r), g, (t[i], r[i]));
  }

  /** What was garbage still is. */
  ghost predicate Wider(g: seq<bool>, g': seq<bool>) {
    |g| == |g'| && forall i :: 0 <= i < |g| && g[i] ==> g'[i]
  }

  const INVALID: nat := 0xffff_ffff

  function Max(a: nat, b: nat): nat { if a < b then b else a }

  class Cache<E(==,!new)> {
    const table: array<E>
    const garbage: array<bool>
    const recent: array<bool>
    const epochSize: nat
    const depthLimit: nat
    const slots: E -> seq<nat>
    var counter: nat

    ghost predicate Shape() {
      && 0 < table.Length < 0x1_0000_0000 && garbage.Length == table.Length && recent.Length == table.Length
      && garbage != recent && (table as object) != garbage && (table as object) != recent
      && forall e: E :: Fits(slots(e), table.Length)
    }

    /** Everything live sits in one of its eight slots. */
    ghost predicate Valid()
      reads table, garbage
    {
      Shape() && Seated(table[..], garbage[..])
    }

    ghost predicate Seated(t: seq<E>, g: seq<bool>)
      requires |t| == |g|
    {
      forall i {:trigger SeatedAt(t, g, i)} :: 0 <= i < |t| ==> SeatedAt(t, g, i)
    }

    ghost predicate SeatedAt(t: seq<E>, g: seq<bool>, i: int)
      requires |t| == |g| && 0 <= i < |t|
    {
      g[i] || i in slots(t[i])
    }

    /** The live elements, each with its mark whether it belongs to the current epoch. */
    ghost function Contents(): multiset<(E, bool)>
      requires Shape()
      reads table, garbage, recent
    {
      Entries(table[..], recent[..], garbage[..])
    }

    /** An empty cache: every slot is garbage. */
    constructor (size: nat, depthLimit: nat, blank: E, hash: (nat, E) -> nat)
      requires size < 0x1_0000_0000
      ensures Valid() && fresh(table) && fresh(garbage) && fresh(recent) && Contents() == multiset{}
      ensures table.Length == Max(2, size) && this.depthLimit == depthLimit
      ensures epochSize > 0 && counter == epochSize && forall e: E :: slots(e) == HashSlots(hash, table.Length, e)
      ensures 45 * table.Length < 0x1_0000_0000 && table.Length > 2 ==>
              100 * epochSize <= 45 * table.Length < 100 * (epochSize + 1)
    {
      var n := Max(2, size);
      table := new E[n](_ => blank);
      garbage := new bool[n](_ => true);
      recent := new bool[n](_ => false);
      this.depthLimit, slots := depthLimit, e => HashSlots(hash, Max(2, size), e);
      var epoch := Max(1, 45 * n % 0x1_0000_0000 / 100);
      epochSize, counter := epoch, epoch;
      new;
      AllGarbage(Zip(table[..], recent[..]), garbage[..]);
    }

    // ----- Epochs -----

    method CountInUse() returns (count: nat)
      requires Shape()
      ensures count == InUse(garbage[..], recent[..])
    {
      count := 0;
      for i := 0 to table.Length
        invariant count == InUse(garbage[..i], recent[..i])
      {
        assert garbage[..i + 1][..i] == garbage[..i] && recent[..i + 1][..i] == recent[..i];
        count := count + (if recent[i] && !garbage[i] then 1 else 0);
      }
      assert garbage[..table.Length] == garbage[..] && recent[..table.Length] == recent[..];
    }

    method Age()
      requires Shape()
      modifies garbage, recent
      ensures garbage[..] == Aged(old(garbage[..]), old(recent[..]))
      ensures forall i :: 0 <= i < recent.Length ==> !recent[i]
    {
      for i := 0 to table.Length
        invariant forall j :: 0 <= j < i ==> garbage[j] == (old(garbage[j]) || !old(recent[j])) && !recent[j]
        invariant forall j :: i <= j < table.Length ==> garbage[j] == old(garbage[j]) && recent[j] == old(recent[j])
      {
        if recent[i] {
          recent[i] := false;
        } else {
          garbage[i] := true;
        }
      }
    }

    /** Starts a new epoch. */
    method Rotate()
      requires Valid()
      modifies garbage, recent
      ensures Valid() && garbage[..] == Aged(old(garbage[..]), old(recent[..])) && recent[..] == Never(recent.Length)
      ensures Live(table[..], garbage[..]) <= old(Live(table[..], garbage[..]))
      ensures Wider(old(garbage[..]), garbage[..])
    {
      ghost var t, g, r := table[..], garbage[..], recent[..];
      Age();
      assert table[..] == t;
      AgedSubset(t, g, r);
      AgedSeated(t, g, garbage[..]);
    }

    /** Scans the epoch, ages the cache if it is full, and says how long to wait. */
    method Scan() returns (wait: nat, ghost current: multiset<E>)
      requires Valid()
      modifies garbage, recent
      ensures Valid() && current == old(Live(table[..], Aged(garbage[..], recent[..])))
      ensures EpochStep(old(Contents()), Contents(), current, 0, epochSize)
      ensures Live(table[..], garbage[..]) <= old(Live(table[..], garbage[..])) && Wider(old(garbage[..]), garbage[..])
      ensures wait == if |current| >= epochSize then epochSize else Max(1, Max(epochSize / 16, epochSize - |current|))
    {
      ghost var t := table[..];
      current := Live(table[..], Aged(garbage[..], recent[..]));
      AgedRollsOver(table[..], recent[..], garbage[..], current);
      var count := CountInUse();
      if count >= epochSize {
        Rotate();
        assert table[..] == t;
        wait := epochSize;
      } else {
        wait := Max(1, Max(epochSize / 16, epochSize - count));
      }
    }

    /** Begins a new epoch when the current one has filled up, and otherwise waits as long
        as it takes at least to fill up. `current` are the elements of the current epoch. */
    method EpochCheck() returns (ghost current: multiset<E>)
      requires Valid()
      modifies this, garbage, recent
      ensures Valid() && EpochStep(old(Contents()), Contents(), current, old(counter), epochSize)
      ensures Live(table[..], garbage[..]) <= old(Live(table[..], garbage[..])) && Wider(old(garbage[..]), garbage[..])
      ensures counter == if old(counter) > 0 then old(counter) - 1
                         else if |current| >= epochSize then epochSize
                         else Max(1, Max(epochSize / 16, epochSize - |current|))
    {
      ghost var t, r, g := table[..], recent[..], garbage[..];
      if counter != 0 {
        counter := counter - 1;
        assert table[..] == t && recent[..] == r && garbage[..] == g;
        current := Live(t, Aged(g, r));
        AgedRollsOver(t, r, g, current);
      } else {
        var wait;
        wait, current := Scan();
        ghost var t', r', g' := table[..], recent[..], garbage[..];
        counter := wait;
        assert table[..] == t' && recent[..] == r' && garbage[..] == g';
      }
    }

    lemma AgedSeated(t: seq<E>, g: seq<bool>, g': seq<bool>)
      requires |t| == |g| == |g'| && Seated(t, g) && forall i :: 0 <= i < |g| && g[i] ==> g'[i]
      ensures Seated(t, g')
    {
      forall i | 0 <= i < |t| ensures SeatedAt(t, g', i) {
        assert SeatedAt(t, g, i);
      }
    }

    // ----- Looking up -----

    /** The first of eight slots that holds an element, or 8. */
    method FindElement(locs: seq<nat>, e: E) returns (k: nat)
      requires Shape() && Fits(locs, table.Length)
      ensures k <= 8 && (k < 8 ==> table[locs[k]] == e) && forall j :: 0 <= j < k ==> table[locs[j]] != e
    {
      k := 0;
      while k < 8 && table[locs[k]] != e
        invariant k <= 8 && forall j :: 0 <= j < k ==> table[locs[j]] != e
      {
        k := k + 1;
      }
    }

    /** Turns a slot into garbage. */
    method AllowErase(loc: nat)
      requires Valid() && loc < table.Length
      modifies garbage
      ensures Valid() && garbage[..] == old(garbage[..])[loc := true]
      ensures Contents() + One((table[loc], recent[loc]), old(garbage[loc])) == old(Contents())
    {
      ghost var t, r, g := table[..], recent[..], garbage[..];
      EntriesUpdate(t, r, g, loc, t[loc], r[loc], true);
      assert t[loc := t[loc]] == t && r[loc := r[loc]] == r;
      garbage[loc] := true;
      assert table[..] == t && recent[..] == r && garbage[..] == g[loc := true];
      AgedSeated(t, g, garbage[..]);
    }

    ghost predicate PresentAt(t: seq<E>, e: E, k: nat)
    {
      k < |slots(e)| && slots(e)[k] < |t| && t[slots(e)[k]] == e
    }

    /** One of an element's slots holds it, garbage or not. */
    ghost predicate Present(t: seq<E>, e: E)
    {
      exists k: nat :: PresentAt(t, e, k)
    }

    /** A live element is always found; erasing turns one slot of it into garbage
        but leaves it where it can still be found. */
    method Contains(e: E, erase: bool) returns (found: bool, ghost loc: nat)
      requires Valid()
      modifies garbage
      ensures Valid() && (e in old(Live(table[..], garbage[..])) ==> found)
      ensures found <==> Present(table[..], e)
      ensures !(found && erase) ==> garbage[..] == old(garbage[..])
      ensures found && erase ==>
                loc < table.Length && table[loc] == e &&
                  Contents() + One((e, recent[loc]), old(garbage[loc])) == old(Contents())
    {
      LiveFound(table[..], garbage[..], e);
      assert Fits(slots(e), table.Length);
      var k := FindElement(slots(e), e);
      found := k < 8;
      assert found ==> PresentAt(table[..], e, k);
      loc := 0;
      if found {
        loc := slots(e)[k];
        if erase {
          AllowErase(slots(e)[k]);
        }
      }
    }

    lemma LiveFound(t: seq<E>, g: seq<bool>, e: E)
      requires Shape() && |t| == |g| == table.Length && Seated(t, g)
      ensures e in Live(t, g) ==> Present(t, e)
    {
      LiveAt(t, g, e);
      if e in Live(t, g) {
        var i :| 0 <= i < |t| && t[i] == e && !g[i];
        assert SeatedAt(t, g, i);
        var k :| 0 <= k < |slots(e)| && slots(e)[k] == i;
        assert Fits(slots(e), table.Length) && PresentAt(t, e, k);
      }
    }

    // ----- Inserting -----

    /** Overwrites a slot of an element's own. */
    method Occupy(loc: nat, e: E, epoch: bool)
      requires Valid() && loc in slots(e) && loc < table.Length
      modifies table, garbage, recent
      ensures Valid() && Contents() + One((old(table[loc]), old(recent[loc])), old(garbage[loc])) ==
              old(Contents()) + multiset{(e, epoch)}
      ensures (e, epoch) in Contents()
    {
      ghost var t, r, g := table[..], recent[..], garbage[..];
      EntriesUpdate(t, r, g, loc, e, epoch, false);
      table[loc] := e;
      garbage[loc] := false;
      recent[loc] := epoch;
      assert table[..] == t[loc := e] && recent[..] == r[loc := epoch] && garbage[..] == g[loc := false];
      SeatedStill(t, g, loc, e);
      EntryLive(t[loc := e], r[loc := epoch], g[loc := false], loc);
    }

    lemma SeatedStill(t: seq<E>, g: seq<bool>, loc: nat, e: E)
      requires |t| == |g| && loc < |t| && Seated(t, g) && loc in slots(e)
      ensures Seated(t[loc := e], g[loc := false])
    {
      var t', g' := t[loc := e], g[loc := false];
      forall i | 0 <= i < |t| ensures SeatedAt(t', g', i) {
        assert SeatedAt(t, g, i);
      }
    }

    /** The first of eight slots that is garbage, or 8. */
    method FindGarbage(locs: seq<nat>) returns (k: nat)
      requires Shape() && Fits(locs, table.Length)
      ensures k <= 8 && (k < 8 ==> garbage[locs[k]]) && forall j :: 0 <= j < k ==> !garbage[locs[j]]
    {
      k := 0;
      while k < 8 && !garbage[locs[k]]
        invariant k <= 8 && forall j :: 0 <= j < k ==> !garbage[locs[j]]
      {
        k := k + 1;
      }
    }

    /** One of an element's slots is garbage. */
    ghost predicate HasRoom(g: seq<bool>, e: E) {
      exists k: nat :: k < |slots(e)| && slots(e)[k] < |g| && g[slots(e)[k]]
    }

    ghost predicate Follows(locs: seq<nat>, k: nat, last: nat, next: nat)
      requires |locs| == 8 && k < 8
    {
      locs[k] == last && next == locs[(k + 1) % 8]
    }

    /** The slot to try next: the one after the last one, and the second at first. */
    method NextLoc(locs: seq<nat>, last: nat) returns (next: nat)
      requires |locs| == 8
      ensures next in locs
      ensures last !in locs ==> next == locs[1]
      ensures last in locs ==> exists k: nat :: k < 8 && Follows(locs, k, last, next)
    {
      var k: nat := 0;
      while k < 8 && locs[k] != last
        invariant k <= 8 && forall j :: 0 <= j < k ==> locs[j] != last
      {
        k := k + 1;
      }
      next := locs[(1 + k) % 8];
      assert k < 8 ==> Follows(locs, k, last, next);
    }

    /** Puts an element into a slot and takes out what was there, if anything. */
    method Exchange(loc: nat, e: E, epoch: bool) returns (other: E, otherEpoch: bool)
      requires Valid() && loc in slots(e) && loc < table.Length && !garbage[loc]
      modifies table, garbage, recent
      ensures Valid()
      ensures Contents() + multiset{(other, otherEpoch)} == old(Contents()) + multiset{(e, epoch)}
    {
      other, otherEpoch := table[loc], recent[loc];
      Occupy(loc, e, epoch);
    }

    /** Moves elements along until one finds a garbage slot or the depth is used up. */
    method Displace(first: E) returns (ghost dropped: multiset<(E, bool)>)
      requires Valid()
      modifies table, garbage, recent
      ensures Valid() && |dropped| <= 1 && Contents() + dropped == old(Contents()) + multiset{(first, true)}
      ensures depthLimit > 0 && HasRoom(old(garbage[..]), first) ==> dropped == multiset{}
    {
      var e, last: nat, epoch := first, INVALID, true;
      for depth := 0 to depthLimit
        invariant Valid() && Contents() + multiset{(e, epoch)} == old(Contents()) + multiset{(first, true)}
        invariant if depth == 0 then e == first && garbage[..] == old(garbage[..])
                  else !HasRoom(old(garbage[..]), first)
      {
        assert Fits(slots(e), table.Length);
        var k := FindGarbage(slots(e));
        if k < 8 {
          Occupy(slots(e)[k], e, epoch);
          return multiset{};
        }
        last := NextLoc(slots(e), last);
        assert last < table.Length;
        e, epoch := Exchange(last, e, epoch);
      }
      dropped := multiset{(e, epoch)};
    }

    /** Nothing but copies of one element. */
    ghost predicate OnlyOf(e: E, m: multiset<(E, bool)>) {
      forall x :: x in m ==> x.0 == e
    }

    /** Keeps an element that is already there, as one of the current epoch. */
    method Keep(loc: nat, e: E) returns (ghost dropped: multiset<(E, bool)>)
      requires Valid() && loc in slots(e) && loc < table.Length && table[loc] == e
      modifies table, garbage, recent
      ensures Valid() && |dropped| <= 1 && OnlyOf(e, dropped) && (e, true) in Contents()
      ensures Contents() + dropped == old(Contents()) + multiset{(e, true)}
    {
      dropped := One((e, recent[loc]), garbage[loc]);
      Occupy(loc, e, true);
    }

    /** Everything but the epoch check. */
    method Place(e: E) returns (ghost dropped: multiset<(E, bool)>)
      requires Valid()
      modifies table, garbage, recent
      ensures Valid() && |dropped| <= 1 && Contents() + dropped == old(Contents()) + multiset{(e, true)}
      ensures Present(old(table[..]), e) || (depthLimit > 0 && HasRoom(old(garbage[..]), e)) ==>
                (e, true) in Contents() && OnlyOf(e, dropped)
    {
      assert Fits(slots(e), table.Length);
      var k := FindElement(slots(e), e);
      if k < 8 {
        dropped := Keep(slots(e)[k], e);
      } else {
        assert !Present(table[..], e);
        ghost var before := Contents();
        dropped := Displace(e);
        assert (e, true) in before + multiset{(e, true)};
      }
    }

    /** Inserts an element. `kept` is what the epoch check before it leaves of the contents.
        Apart from that at most one element is lost, possibly the new one, and nothing
        appears from nowhere. None but an older copy of the element is lost if it is already
        there or one of its slots is garbage. */
    method Insert(e: E)
      returns (ghost dropped: multiset<(E, bool)>, ghost kept: multiset<(E, bool)>, ghost current: multiset<E>)
      requires Valid()
      modifies this, table, garbage, recent
      ensures Valid() && |dropped| <= 1
      ensures EpochStep(old(Contents()), kept, current, old(counter), epochSize)
      ensures Contents() + dropped == kept + multiset{(e, true)}
      ensures Present(old(table[..]), e) || (depthLimit > 0 && HasRoom(old(garbage[..]), e)) ==>
                (e, true) in Contents() && OnlyOf(e, dropped)
    {
      ghost var t := table[..];
      current := EpochCheck();
      kept := Contents();
      assert table[..] == t;
      RoomKept(old(garbage[..]), garbage[..], e);
      dropped := Place(e);
    }

    lemma RoomKept(g: seq<bool>, g': seq<bool>, e: E)
      requires Wider(g, g')
      ensures HasRoom(g, e) ==> HasRoom(g', e)
    {
    }
  }

  /** Erasing an element just inserted does not hide it from the next lookup. */
  method EraseThenFind<E(==,!new)>(cache: Cache<E>, e: E) returns (answer: bool)
    requires cache.Valid()
    modifies cache, cache.table, cache.garbage, cache.recent
    ensures cache.Valid() && answer
  {
    ghost var dropped, kept, current := cache.Insert(e);
    ghost var loc;
    var found;
    found, loc := cache.Contains(e, true);
    if found {
      answer, loc := cache.Contains(e, false);
    } else {
      answer := true;
    }
  }

  lemma {:induction false} AllGarbage<E>(t: seq<E>, g: seq<bool>)
    requires |t| == |g| && forall i :: 0 <= i < |g| ==> g[i]
    ensures Live(t, g) == multiset{}
  {
    if t != [] {
      AllGarbage(t[..|t| - 1], g[..|g| - 1]);
    }
  }

  /** Ageing only ever takes elements away. */
  lemma {:induction false} AgedSubset<E>(t: seq<E>, g: seq<bool>, r: seq<bool>)
    requires |t| == |g| == |r|
    ensures Live(t, Aged(g, r)) <= Live(t, g)
  {
    if t != [] {
      var n := |t| - 1;
      var g' := Aged(g, r);
      AgedSubset(t[..n], g[..n], r[..n]);
      assert g'[..n] == Aged(g[..n], r[..n]);
      LiveLast(t, g, n, t[..n], g[..n]);
      LiveLast(t, g', n, t[..n], g'[..n]);
      Weaken(Live(t[..n], g'[..n]), Live(t[..n], g[..n]), One(t[n], g'[n]), One(t[n], g[n]));
    }
  }

  lemma Weaken<E>(a: multiset<E>, b: multiset<E>, c: multiset<E>, d: multiset<E>)
    requires a <= b && c <= d
    ensures a + c <= b + d
  {
  }
}
