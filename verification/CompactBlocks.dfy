/** Compact blocks (sections "HeaderAndShortIDs" and "Short transaction IDs" of
    BIP 152): a block announced by short transaction ids is rebuilt from what the
    receiver already has. */
module CompactBlocks {
  import opened Options

  datatype Tx = Tx(hash: nat, content: nat, isNull: bool)

  datatype Header = NullHeader | Header(fields: nat)

  datatype Block = Block(header: Header, sig: seq<nat>, vtx: seq<Tx>)

  /** A transaction sent along; the index counts from the previous one. */
  datatype Prefilled = Prefilled(index: nat, tx: Tx)

  datatype Compact = Compact(header: Header, nonce: nat, sig: seq<nat>, shortIds: seq<nat>, prefilled: seq<Prefilled>)

  datatype Status = Ok | Invalid | Failed

  /** A transaction at hand, under its hash. */
  datatype Known = Known(hash: nat, tx: Tx)

  type Slots = seq<Option<Tx>>

  /** The keyed hash behind short ids: any function of header, nonce and hash. */
  datatype Keyed = Keyed(f: (Header, nat, nat) -> nat) {
    function Short(header: Header, nonce: nat, hash: nat): (id: nat)
      ensures id < 0x1_0000_0000_0000
    {
      f(header, nonce, hash) % 0x1_0000_0000_0000
    }
  }

  /** The announcement of a block: everything but the first transaction by short id. */
  method Announce(keyed: Keyed, block: Block, nonce: nat) returns (c: Compact)
    requires |block.vtx| > 0
    ensures c == Compact(block.header, nonce, block.sig, c.shortIds, [Prefilled(0, block.vtx[0])])
    ensures |c.shortIds| == |block.vtx| - 1
    ensures forall i ::
            0 <= i < |c.shortIds| ==> c.shortIds[i] == keyed.Short(block.header, nonce, block.vtx[i + 1].hash)
  {
    var ids := [];
    for i := 1 to |block.vtx|
      invariant |ids| == i - 1
      invariant forall j :: 0 <= j < |ids| ==> ids[j] == keyed.Short(block.header, nonce, block.vtx[j + 1].hash)
    {
      ids := ids + [keyed.Short(block.header, nonce, block.vtx[i].hash)];
    }
    c := Compact(block.header, nonce, block.sig, ids, [Prefilled(0, block.vtx[0])]);
  }

  // ----- Where transactions go -----

  /** The place of the k-th transaction sent along. */
  function PlaceOf(prefilled: seq<Prefilled>, k: nat): int
    requires k <= |prefilled|
  {
    if k == 0 then -1 else PlaceOf(prefilled, k - 1) + prefilled[k - 1].index + 1
  }

  /** An index counts from just after the transaction before, so places that are written as
      such differences come out as they were. */
  lemma {:induction false} PlacesFromDifferences(prefilled: seq<Prefilled>, places: seq<nat>, k: nat)
    requires |prefilled| == |places| && 0 < k <= |places|
    requires places[0] == prefilled[0].index
    requires forall i :: 0 < i < |places| ==> places[i] == places[i - 1] + 1 + prefilled[i].index
    ensures PlaceOf(prefilled, k) == places[k - 1]
  {
    if k > 1 {
      PlacesFromDifferences(prefilled, places, k - 1);
    }
  }

  /** How many of the first p slots are empty. */
  function FreeBefore(slots: Slots, p: nat): nat
    requires p <= |slots|
  {
    if p == 0 then 0 else FreeBefore(slots, p - 1) + (if slots[p - 1].None? then 1 else 0)
  }

  /** A slot is the i-th empty one. */
  predicate IsFree(slots: Slots, i: nat, p: nat) {
    p < |slots| && slots[p].None? && FreeBefore(slots, p) == i
  }

  lemma {:induction false} FreeMonotone(slots: Slots, p: nat, q: nat)
    requires p <= q <= |slots|
    ensures FreeBefore(slots, p) <= FreeBefore(slots, q) <= FreeBefore(slots, p) + (q - p)
  {
    if p < q {
      FreeMonotone(slots, p, q - 1);
    }
  }

  /** The i-th empty slot is unique, and different empty slots have different numbers. */
  lemma FreeUnique(slots: Slots, i: nat, p: nat, j: nat, q: nat)
    requires IsFree(slots, i, p) && IsFree(slots, j, q)
    ensures i == j <==> p == q
    ensures i < j <==> p < q
  {
    if p < q {
      FreeMonotone(slots, p + 1, q);
    } else if q < p {
      FreeMonotone(slots, q + 1, p);
    }
  }

  /** Filling an empty slot takes one away from what follows. */
  lemma {:induction false} FreeFilled(slots: Slots, at: nat, t: Tx, p: nat)
    requires at < |slots| && slots[at].None? && p <= |slots|
    ensures FreeBefore(slots[at := Some(t)], p) == FreeBefore(slots, p) - (if at < p then 1 else 0)
  {
    if p > 0 {
      FreeFilled(slots, at, t, p - 1);
    }
  }

  function Empty(n: nat): (s: Slots)
    ensures |s| == n && forall i :: 0 <= i < n ==> s[i].None?
  {
    seq(n, _ => None)
  }

  lemma {:induction false} FreeEmpty(slots: Slots, p: nat)
    requires p <= |slots| && forall i :: 0 <= i < p ==> slots[i].None?
    ensures FreeBefore(slots, p) == p
  {
    if p > 0 {
      FreeEmpty(slots, p - 1);
    }
  }

  ghost predicate LaidAt(slots: Slots, prefilled: seq<Prefilled>, j: nat)
    requires j < |prefilled|
  {
    var p := PlaceOf(prefilled, j + 1);
    0 <= p < |slots| && slots[p] == Some(prefilled[j].tx)
  }

  /** The first k transactions sent along are in place, and no other slot is taken. */
  ghost predicate Laid(slots: Slots, prefilled: seq<Prefilled>, k: nat)
    requires k <= |prefilled|
  {
    && (forall j: nat {:trigger LaidAt(slots, prefilled, j)} :: j < k ==> LaidAt(slots, prefilled, j))
    && (forall p :: 0 <= p < |slots| && PlaceOf(prefilled, k) < p ==> slots[p].None?)
    && FreeBefore(slots, |slots|) == |slots| - k
  }

  lemma {:induction false} PlacesIncrease(prefilled: seq<Prefilled>, j: nat, k: nat)
    requires j < k <= |prefilled|
    ensures -1 <= PlaceOf(prefilled, j) < PlaceOf(prefilled, k)
  {
    if j > 0 {
      PlacesIncrease(prefilled, j - 1, j);
    }
    if j + 1 < k {
      PlacesIncrease(prefilled, j, k - 1);
    }
  }

  lemma LaidStep(slots: Slots, prefilled: seq<Prefilled>, k: nat)
    requires k < |prefilled| && Laid(slots, prefilled, k) && PlaceOf(prefilled, k + 1) < |slots|
    ensures 0 <= PlaceOf(prefilled, k + 1)
    ensures Laid(slots[PlaceOf(prefilled, k + 1) := Some(prefilled[k].tx)], prefilled, k + 1)
  {
    PlacesIncrease(prefilled, k, k + 1);
    var p := PlaceOf(prefilled, k + 1);
    var slots' := slots[p := Some(prefilled[k].tx)];
    FreeFilled(slots, p, prefilled[k].tx, |slots|);
    forall j: nat | j < k + 1 ensures LaidAt(slots', prefilled, j) {
      if j < k {
        PlacesIncrease(prefilled, j + 1, k + 1);
        assert LaidAt(slots, prefilled, j);
      }
    }
  }

  /** A transaction sent along is real and leaves no slot below it without a source. */
  predicate PlaceableAt(c: Compact, j: nat)
    requires j < |c.prefilled|
  {
    !c.prefilled[j].tx.isNull && PlaceOf(c.prefilled, j + 1) <= 0xffff &&
      PlaceOf(c.prefilled, j + 1) <= |c.shortIds| + j
  }

  ghost predicate Placeable(c: Compact) {
    forall j: nat {:trigger PlaceableAt(c, j)} :: j < |c.prefilled| ==> PlaceableAt(c, j)
  }

  // ----- Short ids -----

  /** Every short id has its own empty slot, in order. */
  ghost predicate Mapped(ids: map<nat, nat>, shortIds: seq<nat>, slots: Slots, n: nat)
    requires n <= |shortIds|
  {
    && (forall j: nat {:trigger MappedAt(ids, shortIds, slots, j)} :: j < n ==> MappedAt(ids, shortIds, slots, j))
    && AllOwned(ids, shortIds, n)
  }

  ghost predicate MappedAt(ids: map<nat, nat>, shortIds: seq<nat>, slots: Slots, j: nat)
    requires j < |shortIds|
  {
    shortIds[j] in ids && IsFree(slots, j, ids[shortIds[j]])
  }

  ghost predicate AllOwned(ids: map<nat, nat>, shortIds: seq<nat>, n: nat)
    requires n <= |shortIds|
  {
    forall id {:trigger Owned(shortIds, id, n)} :: id in ids ==> Owned(shortIds, id, n)
  }

  ghost predicate Owned(shortIds: seq<nat>, id: nat, n: nat)
    requires n <= |shortIds|
  {
    exists j :: 0 <= j < n && shortIds[j] == id
  }

  lemma OwnedStep(ids: map<nat, nat>, shortIds: seq<nat>, n: nat, p: nat)
    requires n < |shortIds| && AllOwned(ids, shortIds, n)
    ensures AllOwned(ids[shortIds[n] := p], shortIds, n + 1)
  {
    var ids' := ids[shortIds[n] := p];
    forall id | id in ids' ensures Owned(shortIds, id, n + 1) {
      if id != shortIds[n] {
        assert Owned(shortIds, id, n);
      }
    }
  }

  ghost predicate Repeats(shortIds: seq<nat>) {
    exists i, j :: 0 <= i < j < |shortIds| && shortIds[i] == shortIds[j]
  }

  /** Some id comes to lie in an overfull bucket. */
  ghost predicate Crowds(crowded: nat -> bool, n: nat) {
    exists i: nat :: i < n && crowded(i)
  }

  /** Ids that own different slots are different. */
  lemma MappedDistinct(ids: map<nat, nat>, shortIds: seq<nat>, slots: Slots)
    requires Mapped(ids, shortIds, slots, |shortIds|)
    ensures !Repeats(shortIds)
  {
    forall i, j | 0 <= i < j < |shortIds| ensures shortIds[i] != shortIds[j] {
      assert MappedAt(ids, shortIds, slots, i) && MappedAt(ids, shortIds, slots, j);
    }
  }

  lemma MappedStep(ids: map<nat, nat>, shortIds: seq<nat>, slots: Slots, n: nat, p: nat)
    requires n < |shortIds| && shortIds[n] !in ids && Mapped(ids, shortIds, slots, n) && IsFree(slots, n, p)
    ensures Mapped(ids[shortIds[n] := p], shortIds, slots, n + 1)
  {
    var ids' := ids[shortIds[n] := p];
    forall j: nat | j < n + 1 ensures MappedAt(ids', shortIds, slots, j) {
      if j < n {
        assert MappedAt(ids, shortIds, slots, j);
      }
    }
    OwnedStep(ids, shortIds, n, p);
  }

  /** The next empty slot from p on exists as long as not all have been passed. */
  method SkipFilled(slots: Slots, i: nat, from: nat) returns (p: nat)
    requires from <= |slots| && FreeBefore(slots, from) == i < FreeBefore(slots, |slots|)
    ensures from <= p && IsFree(slots, i, p)
  {
    p := from;
    while slots[p].Some?
      invariant from <= p < |slots| && FreeBefore(slots, p) == i
      decreases |slots| - p
    {
      p := p + 1;
    }
  }

  /** Gives every short id the next empty slot. */
  method MapShortIds(shortIds: seq<nat>, slots: Slots, crowded: nat -> bool)
    returns (status: Status, ids: map<nat, nat>)
    requires FreeBefore(slots, |slots|) == |shortIds| && |slots| <= 0xffff
    ensures status != Invalid
    ensures status == Ok ==> |ids| == |shortIds| && Mapped(ids, shortIds, slots, |shortIds|)
    ensures status == Failed <==> Repeats(shortIds) || Crowds(crowded, |shortIds|)
  {
    ids := map[];
    var offset: nat := 0;
    ghost var distinct := true;
    for i := 0 to |shortIds|
      invariant i + offset <= |slots| && FreeBefore(slots, i + offset) == i
      invariant |ids| <= i && (distinct <==> |ids| == i)
      invariant distinct ==> Mapped(ids, shortIds, slots, i)
      invariant !distinct ==> Repeats(shortIds)
      invariant AllOwned(ids, shortIds, i) && !Crowds(crowded, i)
    {
      var p := SkipFilled(slots, i, i + offset);
      offset := p - i;
      if shortIds[i] in ids {
        assert Owned(shortIds, shortIds[i], i);
        distinct := false;
      } else if distinct {
        MappedStep(ids, shortIds, slots, i, p);
      }
      OwnedStep(ids, shortIds, i, p);
      ids := ids[shortIds[i] := p];
      if crowded(i) {
        return Failed, ids;
      }
    }
    status := if |ids| != |shortIds| then Failed else Ok;
    if distinct {
      MappedDistinct(ids, shortIds, slots);
    }
  }

  // ----- Transactions at hand -----

  /** What a slot holds beyond the transactions sent along comes from a source whose short id owns the slot. */
  ghost predicate SourcedAt(keyed: Keyed, c: Compact, base: Slots, slots: Slots, ids: map<nat, nat>,
                            sources: seq<Known>, p: nat)
    requires p < |base| == |slots|
  {
    slots[p] == base[p] ||
    (base[p].None? && slots[p].Some? && exists k ::
      0 <= k < |sources| && sources[k].tx == slots[p].value && Owns(keyed, c, ids, sources[k], p))
  }

  predicate Owns(keyed: Keyed, c: Compact, ids: map<nat, nat>, known: Known, p: nat) {
    var id := keyed.Short(c.header, c.nonce, known.hash);
    id in ids && ids[id] == p
  }

  ghost predicate Sourced(keyed: Keyed, c: Compact, base: Slots, slots: Slots, ids: map<nat, nat>,
                          sources: seq<Known>) {
    && |base| == |slots|
    && forall p: nat {:trigger SourcedAt(keyed, c, base, slots, ids, sources, p)} ::
         p < |base| ==> SourcedAt(keyed, c, base, slots, ids, sources, p)
  }

  /** Short ids own slots that were empty when the transactions sent along were in place. */
  ghost predicate Targets(base: Slots, ids: map<nat, nat>) {
    forall id :: id in ids ==> ids[id] < |base| && base[ids[id]].None?
  }

  /** A slot that no source has claimed yet is empty. */
  ghost predicate Unclaimed(slots: Slots, have: seq<bool>, ids: map<nat, nat>) {
    |have| == |slots| && forall id :: id in ids ==> ids[id] < |slots| && (!have[ids[id]] ==> slots[ids[id]].None?)
  }

  /** How many of the first m sources own a slot. */
  function Owners(keyed: Keyed, c: Compact, ids: map<nat, nat>, sources: seq<Known>, m: nat, p: nat): nat
    requires m <= |sources|
  {
    if m == 0 then 0
    else Owners(keyed, c, ids, sources, m - 1, p) + (if Owns(keyed, c, ids, sources[m - 1], p) then 1 else 0)
  }

  /** A slot is claimed once a source owns it, empty until then, and empty again only when several do. */
  ghost predicate TalliedAt(slots: Slots, have: seq<bool>, p: nat, owners: nat)
    requires p < |slots| == |have|
  {
    (have[p] <==> owners > 0) && (!have[p] ==> slots[p].None?) && (have[p] && slots[p].None? ==> owners >= 2)
  }

  ghost predicate Tallied(keyed: Keyed, c: Compact, slots: Slots, have: seq<bool>, ids: map<nat, nat>,
                          sources: seq<Known>, m: nat)
    requires m <= |sources|
  {
    && |have| == |slots|
    && forall id ::
         id in ids ==> ids[id] < |slots| && TalliedAt(slots, have, ids[id], Owners(keyed, c, ids, sources, m, ids[id]))
  }

  /** A slot is left empty only when no transaction at hand owns it or several do. */
  ghost predicate Justified(keyed: Keyed, c: Compact, slots: Slots, ids: map<nat, nat>, sources: seq<Known>) {
    forall id ::
      id in ids && ids[id] < |slots| && slots[ids[id]].None? ==> Owners(keyed, c, ids, sources, |sources|, ids[id]) != 1
  }

  lemma {:induction false} FreeReset(slots: Slots, at: nat, p: nat)
    requires at < |slots| && slots[at].Some? && p <= |slots|
    ensures FreeBefore(slots[at := None], p) == FreeBefore(slots, p) + (if at < p then 1 else 0)
  {
    if p > 0 {
      FreeReset(slots, at, p - 1);
    }
  }

  lemma SourcedStep(keyed: Keyed, c: Compact, base: Slots, slots: Slots, ids: map<nat, nat>, sources: seq<Known>,
                    at: nat, o: Option<Tx>)
    requires Sourced(keyed, c, base, slots, ids, sources) && at < |base| && base[at].None?
    requires o.Some? ==> exists k ::
             0 <= k < |sources| && sources[k].tx == o.value && Owns(keyed, c, ids, sources[k], at)
    ensures Sourced(keyed, c, base, slots[at := o], ids, sources)
  {
    var slots' := slots[at := o];
    forall p: nat | p < |base| ensures SourcedAt(keyed, c, base, slots', ids, sources, p) {
      assert SourcedAt(keyed, c, base, slots, ids, sources, p);
    }
  }

  /** One transaction at hand: it fills its slot, or a second one for the same slot clears it. */
  method Consider(keyed: Keyed, c: Compact, slots: Slots, have: seq<bool>, count: int, ids: map<nat, nat>,
                  sources: seq<Known>, k: nat,
                  extra: bool, ghost base: Slots) returns (slots': Slots, have': seq<bool>, count': int)
    requires k < |sources| && Sourced(keyed, c, base, slots, ids, sources) && Targets(base, ids)
    requires Unclaimed(slots, have, ids)
    ensures Sourced(keyed, c, base, slots', ids, sources) && Unclaimed(slots', have', ids)
    ensures Tallied(keyed, c, slots, have, ids, sources, k) ==> Tallied(keyed, c, slots', have', ids, sources, k + 1)
    ensures count' + FreeBefore(slots', |slots'|) == count + FreeBefore(slots, |slots|)
  {
    slots', have', count' := slots, have, count;
    var id := keyed.Short(c.header, c.nonce, sources[k].hash);
    if id in ids {
      var p := ids[id];
      if !have[p] {
        SourcedStep(keyed, c, base, slots, ids, sources, p, Some(sources[k].tx));
        FreeFilled(slots, p, sources[k].tx, |slots|);
        slots', have', count' := slots[p := Some(sources[k].tx)], have[p := true], count + 1;
      } else if slots[p].Some? && (extra ==> slots[p].value.hash != sources[k].tx.hash) {
        SourcedStep(keyed, c, base, slots, ids, sources, p, None);
        FreeReset(slots, p, |slots|);
        slots', count' := slots[p := None], count - 1;
      }
    }
  }

  lemma {:induction false} OwnersGrow(keyed: Keyed, c: Compact, ids: map<nat, nat>, sources: seq<Known>, m: nat, n: nat,
                                      p: nat)
    requires m <= n <= |sources|
    ensures Owners(keyed, c, ids, sources, m, p) <= Owners(keyed, c, ids, sources, n, p)
  {
    if m < n {
      OwnersGrow(keyed, c, ids, sources, m, n - 1, p);
    }
  }

  /** Once no slot is empty, later sources no longer matter. */
  lemma AllFilled(keyed: Keyed, c: Compact, slots: Slots, have: seq<bool>, ids: map<nat, nat>, sources: seq<Known>,
                  m: nat, n: nat)
    requires m <= n <= |sources| && Tallied(keyed, c, slots, have, ids, sources, m) && FreeBefore(slots, |slots|) == 0
    ensures Tallied(keyed, c, slots, have, ids, sources, n)
  {
    forall id | id in ids ensures TalliedAt(slots, have, ids[id], Owners(keyed, c, ids, sources, n, ids[id])) {
      FreeMonotone(slots, ids[id] + 1, |slots|);
      OwnersGrow(keyed, c, ids, sources, m, n, ids[id]);
    }
  }

  /** Goes through the transactions at hand until every short id has one. */
  method Scan(keyed: Keyed, c: Compact, before: Slots, have: seq<bool>, count: int, ids: map<nat, nat>,
              sources: seq<Known>,
              from: nat, to: nat, extra: bool, ghost base: Slots) returns (slots: Slots, have': seq<bool>, count': int)
    requires from <= to <= |sources| && Sourced(keyed, c, base, before, ids, sources) && Targets(base, ids)
    requires Unclaimed(before, have, ids)
    ensures Sourced(keyed, c, base, slots, ids, sources) && Unclaimed(slots, have', ids)
    ensures count' + FreeBefore(slots, |slots|) == count + FreeBefore(before, |before|)
    ensures (Tallied(keyed, c, before, have, ids, sources, from) && count + FreeBefore(before, |before|) == |ids|) ==>
              Tallied(keyed, c, slots, have', ids, sources, to)
  {
    slots, have', count' := before, have, count;
    var k := from;
    while k < to
      invariant from <= k <= to && Sourced(keyed, c, base, slots, ids, sources) && Unclaimed(slots, have', ids)
      invariant Tallied(keyed, c, before, have, ids, sources, from) ==> Tallied(keyed, c, slots, have', ids, sources, k)
      invariant count' + FreeBefore(slots, |slots|) == count + FreeBefore(before, |before|)
    {
      slots, have', count' := Consider(keyed, c, slots, have', count', ids, sources, k, extra, base);
      k := k + 1;
      if count' == |ids| {
        if Tallied(keyed, c, slots, have', ids, sources, k) && FreeBefore(slots, |slots|) == 0 {
          AllFilled(keyed, c, slots, have', ids, sources, k, to);
        }
        break;
      }
    }
  }

  // ----- Rebuilding -----

  class PartialBlock {
    var slots: Slots
    var prefilledCount: nat
    var mempoolCount: int
    var header: Header
    var sig: seq<nat>

    constructor ()
      ensures slots == [] && header == NullHeader && mempoolCount == 0
    {
      slots, prefilledCount, mempoolCount, header, sig := [], 0, 0, NullHeader, [];
    }

    /** Puts the transactions that were sent along into their places. */
    method PlacePrefilled(c: Compact) returns (ok: bool)
      requires |slots| == |c.shortIds| + |c.prefilled| && forall i :: 0 <= i < |slots| ==> slots[i].None?
      modifies `slots
      ensures ok <==> Placeable(c)
      ensures ok ==> |slots| == old(|slots|) && Laid(slots, c.prefilled, |c.prefilled|)
    {
      FreeEmpty(slots, |slots|);
      var last := -1;
      for i := 0 to |c.prefilled|
        invariant |slots| == old(|slots|) && last == PlaceOf(c.prefilled, i) && Laid(slots, c.prefilled, i)
        invariant forall j: nat {:trigger PlaceableAt(c, j)} :: j < i ==> PlaceableAt(c, j)
      {
        if c.prefilled[i].tx.isNull {
          assert !PlaceableAt(c, i);
          return false;
        }
        last := last + c.prefilled[i].index + 1;
        if last > 0xffff || last > |c.shortIds| + i {
          assert !PlaceableAt(c, i);
          return false;
        }
        LaidStep(slots, c.prefilled, i);
        slots := slots[last := Some(c.prefilled[i].tx)];
      }
      ok := true;
    }

    /** Fills what it can from the transactions at hand. */
    method FillKnown(keyed: Keyed, c: Compact, ids: map<nat, nat>, pool: seq<Known>, extra: seq<Known>)
      requires Targets(slots, ids)
      modifies `slots, `mempoolCount
      ensures Sourced(keyed, c, old(slots), slots, ids, pool + extra)
      ensures mempoolCount + FreeBefore(slots, |slots|) == old(mempoolCount) + old(FreeBefore(slots, |slots|))
      ensures old(mempoolCount + FreeBefore(slots, |slots|)) == |ids| ==> Justified(keyed, c, slots, ids, pool + extra)
    {
      ghost var base := slots;
      var sources := pool + extra;
      var have := seq(|slots|, _ => false);
      forall p: nat | p < |base| ensures SourcedAt(keyed, c, base, slots, ids, sources, p) {
      }
      slots, have, mempoolCount := Scan(keyed, c, slots, have, mempoolCount, ids, sources, 0, |pool|, false, base);
      slots, have, mempoolCount :=
        Scan(keyed, c, slots, have, mempoolCount, ids, sources, |pool|, |sources|, true, base);
    }

    /** Takes an announcement in. `base` and `ids` are what the slots held after the
        transactions sent along, and which short id got which of the empty slots. */
    method InitData(keyed: Keyed, c: Compact, pool: seq<Known>, extra: seq<Known>, maxTxs: nat, crowded: nat -> bool)
      returns (status: Status, ghost base: Slots, ghost ids: map<nat, nat>)
      requires |c.shortIds| + |c.prefilled| <= 0xffff
      modifies this
      ensures status == Invalid <==>
              || c.header == NullHeader || (c.shortIds == [] && c.prefilled == [])
              || |c.shortIds| + |c.prefilled| > maxTxs
              || old(header) != NullHeader || old(slots) != [] || !Placeable(c)
      ensures status != Invalid ==> (status == Failed <==> Repeats(c.shortIds) || Crowds(crowded, |c.shortIds|))
      ensures Refused(c, maxTxs) || old(header) != NullHeader || old(slots) != [] ==> unchanged(this)
      ensures status == Ok ==> header == c.header && sig == c.sig && |base| == |c.shortIds| + |c.prefilled|
      ensures status == Ok ==> Laid(base, c.prefilled, |c.prefilled|) && Mapped(ids, c.shortIds, base, |c.shortIds|)
      ensures status == Ok ==> Sourced(keyed, c, base, slots, ids, pool + extra)
      ensures status == Ok ==> mempoolCount - old(mempoolCount) == |c.shortIds| - FreeBefore(slots, |slots|)
      ensures status == Ok && old(mempoolCount) == 0 ==> Justified(keyed, c, slots, ids, pool + extra)
    {
      status, base, ids := Invalid, [], map[];
      if Refused(c, maxTxs) || header != NullHeader || slots != [] {
        return;
      }
      header, sig, slots := c.header, c.sig, Empty(|c.shortIds| + |c.prefilled|);
      var placed := PlacePrefilled(c);
      if !placed {
        return;
      }
      prefilledCount := |c.prefilled|;
      base := slots;
      var mapping;
      status, mapping := MapShortIds(c.shortIds, slots, crowded);
      ids := mapping;
      if status == Ok {
        MappedTargets(mapping, c.shortIds, slots);
        FillKnown(keyed, c, mapping, pool, extra);
      }
    }

    /** Completes the block with the missing transactions, in order. */
    method FillBlock(missing: seq<Tx>, mutated: Block -> bool) returns (status: Status, block: Block)
      modifies this
      ensures old(header) == NullHeader ==> status == Invalid && unchanged(this)
      ensures old(header) != NullHeader && |missing| < old(FreeBefore(slots, |slots|)) ==> status == Invalid
      ensures old(header) != NullHeader && |missing| >= old(FreeBefore(slots, |slots|)) ==>
                && header == NullHeader && slots == []
                && block == Block(old(header), old(sig), Merged(old(slots), missing))
                && status == if |missing| > old(FreeBefore(slots, |slots|)) then Invalid
                             else if mutated(block) then Failed else Ok
    {
      status, block := Invalid, Block(NullHeader, [], []);
      if header == NullHeader {
        return;
      }
      var ok, vtx, offset := Merge(slots, missing);
      if !ok {
        return;
      }
      block := Block(header, sig, vtx);
      header, slots := NullHeader, [];
      if |missing| != offset {
        return;
      }
      status := if mutated(block) then Failed else Ok;
    }
  }

  /** An announcement that is empty or cannot be of a block. */
  predicate Refused(c: Compact, maxTxs: nat) {
    c.header == NullHeader || (c.shortIds == [] && c.prefilled == []) || |c.shortIds| + |c.prefilled| > maxTxs
  }

  lemma MappedTargets(ids: map<nat, nat>, shortIds: seq<nat>, base: Slots)
    requires Mapped(ids, shortIds, base, |shortIds|)
    ensures Targets(base, ids)
  {
    forall id | id in ids ensures ids[id] < |base| && base[ids[id]].None? {
      assert Owned(shortIds, id, |shortIds|);
      var j :| 0 <= j < |shortIds| && shortIds[j] == id;
      assert MappedAt(ids, shortIds, base, j);
    }
  }

  lemma FreeInRange(slots: Slots, p: nat)
    requires p < |slots| && slots[p].None?
    ensures FreeBefore(slots, p) < FreeBefore(slots, |slots|)
  {
    FreeMonotone(slots, p + 1, |slots|);
  }

  /** The slots with the i-th empty one filled by the i-th missing transaction. */
  function Merged(slots: Slots, missing: seq<Tx>): seq<Tx>
    requires |missing| >= FreeBefore(slots, |slots|)
  {
    seq(|slots|, p requires 0 <= p < |slots| =>
      if slots[p].Some? then slots[p].value else (FreeInRange(slots, p); missing[FreeBefore(slots, p)]))
  }

  /** Takes a missing transaction for every empty slot, as long as there are any. */
  method Merge(slots: Slots, missing: seq<Tx>) returns (ok: bool, vtx: seq<Tx>, offset: nat)
    ensures ok <==> |missing| >= FreeBefore(slots, |slots|)
    ensures ok ==> vtx == Merged(slots, missing) && offset == FreeBefore(slots, |slots|)
  {
    vtx, offset := [], 0;
    for i := 0 to |slots|
      invariant |vtx| == i && offset == FreeBefore(slots, i) <= |missing|
      invariant forall j: nat {:trigger MergedAt(slots, missing, vtx, j)} :: j < i ==> MergedAt(slots, missing, vtx, j)
    {
      ghost var before := vtx;
      if slots[i].None? {
        if |missing| <= offset {
          FreeMonotone(slots, i + 1, |slots|);
          return false, [], 0;
        }
        vtx, offset := vtx + [missing[offset]], offset + 1;
      } else {
        vtx := vtx + [slots[i].value];
      }
      forall j: nat | j < i + 1 ensures MergedAt(slots, missing, vtx, j) {
        assert j < i ==> MergedAt(slots, missing, before, j);
      }
    }
    ok := true;
    forall p: nat | p < |slots| ensures vtx[p] == Merged(slots, missing)[p] {
      assert MergedAt(slots, missing, vtx, p);
    }
  }

  ghost predicate MergedAt(slots: Slots, missing: seq<Tx>, vtx: seq<Tx>, j: nat)
    requires j < |slots| && j < |vtx|
  {
    if slots[j].Some? then vtx[j] == slots[j].value
    else FreeBefore(slots, j) < |missing| && vtx[j] == missing[FreeBefore(slots, j)]
  }

  // ----- The same block comes out -----

  /** Whatever shares a short id with a transaction of the block is that transaction. */
  ghost predicate Honest(keyed: Keyed, block: Block, nonce: nat, sources: seq<Known>) {
    forall k, j :: 0 <= k < |sources| && 0 < j < |block.vtx| ==>
      (keyed.Short(block.header, nonce, sources[k].hash) == keyed.Short(block.header, nonce, block.vtx[j].hash) ==>
         sources[k].tx == block.vtx[j])
  }

  /** Every filled slot holds the block's own transaction. */
  ghost predicate Faithful(slots: Slots, vtx: seq<Tx>) {
    |slots| == |vtx| && forall p: nat {:trigger FaithfulAt(slots, vtx, p)} :: p < |vtx| ==> FaithfulAt(slots, vtx, p)
  }

  ghost predicate FaithfulAt(slots: Slots, vtx: seq<Tx>, p: nat)
    requires p < |vtx| == |slots|
  {
    slots[p].Some? ==> slots[p].value == vtx[p]
  }

  ghost predicate Announces(keyed: Keyed, block: Block, c: Compact) {
    && |block.vtx| > 0 && |c.shortIds| == |block.vtx| - 1 && c.prefilled == [Prefilled(0, block.vtx[0])]
    && c.header == block.header && c.sig == block.sig
    && forall i :: 0 <= i < |c.shortIds| ==> c.shortIds[i] == keyed.Short(block.header, c.nonce, block.vtx[i + 1].hash)
  }

  /** After the first transaction, the i-th empty slot is slot i + 1. */
  lemma {:induction false} OnlyFirstLaid(base: Slots, c: Compact, p: nat)
    requires |c.prefilled| == 1 && c.prefilled[0].index == 0 && Laid(base, c.prefilled, 1) && 0 < p <= |base|
    ensures base[0] == Some(c.prefilled[0].tx) && FreeBefore(base, p) == p - 1
  {
    assert LaidAt(base, c.prefilled, 0);
    assert PlaceOf(c.prefilled, 1) == 0;
    if p > 1 {
      OnlyFirstLaid(base, c, p - 1);
    }
  }

  /** From an announcement of a block and honest sources, only the block's own transactions get in. */
  lemma RebuiltFaithful(keyed: Keyed, block: Block, c: Compact, base: Slots, slots: Slots, ids: map<nat, nat>,
                        sources: seq<Known>)
    requires Announces(keyed, block, c) && Honest(keyed, block, c.nonce, sources)
    requires |base| == |block.vtx| && Laid(base, c.prefilled, 1) && Mapped(ids, c.shortIds, base, |c.shortIds|)
    requires Sourced(keyed, c, base, slots, ids, sources)
    ensures Faithful(slots, block.vtx)
  {
    forall p: nat | p < |block.vtx| ensures FaithfulAt(slots, block.vtx, p) {
      assert SourcedAt(keyed, c, base, slots, ids, sources, p);
      OnlyFirstLaid(base, c, 1);
      assert PlaceOf(c.prefilled, 1) == 0;
      if p > 0 && slots[p].Some? {
        var k :| 0 <= k < |sources| && sources[k].tx == slots[p].value && Owns(keyed, c, ids, sources[k], p);
        OwnerIsIts(keyed, block, c, base, ids, sources[k], p);
      }
    }
  }

  /** The source that owns slot p has the short id of transaction p. */
  lemma OwnerIsIts(keyed: Keyed, block: Block, c: Compact, base: Slots, ids: map<nat, nat>, known: Known, p: nat)
    requires Announces(keyed, block, c) && |base| == |block.vtx| && Laid(base, c.prefilled, 1)
    requires Mapped(ids, c.shortIds, base, |c.shortIds|) && 0 < p < |base| && Owns(keyed, c, ids, known, p)
    ensures keyed.Short(block.header, c.nonce, known.hash) == keyed.Short(block.header, c.nonce, block.vtx[p].hash)
  {
    var id := keyed.Short(c.header, c.nonce, known.hash);
    assert Owned(c.shortIds, id, |c.shortIds|);
    var j :| 0 <= j < |c.shortIds| && c.shortIds[j] == id;
    assert MappedAt(ids, c.shortIds, base, j);
    OnlyFirstLaid(base, c, p);
  }

  /** What has to be asked for: the transactions of the empty slots, in order. */
  function Missing(slots: Slots, vtx: seq<Tx>, p: nat): seq<Tx>
    requires |slots| == |vtx| && p <= |slots|
  {
    if p == 0 then [] else Missing(slots, vtx, p - 1) + (if slots[p - 1].None? then [vtx[p - 1]] else [])
  }

  lemma {:induction false} MissingAt(slots: Slots, vtx: seq<Tx>, p: nat, n: nat)
    requires |slots| == |vtx| && n <= |slots|
    ensures |Missing(slots, vtx, n)| == FreeBefore(slots, n)
    ensures p < n && slots[p].None? ==>
            FreeBefore(slots, p) < FreeBefore(slots, n) && Missing(slots, vtx, n)[FreeBefore(slots, p)] == vtx[p]
  {
    if n > 0 {
      MissingAt(slots, vtx, p, n - 1);
    }
  }

  /** The missing transactions complete a faithful set of slots to the block's own list. */
  lemma MergeMissing(slots: Slots, vtx: seq<Tx>)
    requires Faithful(slots, vtx)
    ensures |Missing(slots, vtx, |vtx|)| == FreeBefore(slots, |slots|)
    ensures Merged(slots, Missing(slots, vtx, |vtx|)) == vtx
  {
    MissingAt(slots, vtx, 0, |vtx|);
    forall p: nat | p < |vtx| ensures Merged(slots, Missing(slots, vtx, |vtx|))[p] == vtx[p] {
      assert FaithfulAt(slots, vtx, p);
      MissingAt(slots, vtx, p, |vtx|);
    }
  }

  /** Two transactions after the first share a short id. */
  ghost predicate Collides(keyed: Keyed, block: Block, nonce: nat) {
    exists i, j :: 0 < i < j < |block.vtx| &&
      keyed.Short(block.header, nonce, block.vtx[i].hash) == keyed.Short(block.header, nonce, block.vtx[j].hash)
  }

  lemma RepeatsIsCollides(keyed: Keyed, block: Block, c: Compact)
    requires Announces(keyed, block, c)
    ensures Repeats(c.shortIds) <==> Collides(keyed, block, c.nonce)
  {
    if Repeats(c.shortIds) {
      var i, j :| 0 <= i < j < |c.shortIds| && c.shortIds[i] == c.shortIds[j];
      var i', j' := i + 1, j + 1;
      assert keyed.Short(block.header, c.nonce, block.vtx[i'].hash) ==
        keyed.Short(block.header, c.nonce, block.vtx[j'].hash);
    }
    if Collides(keyed, block, c.nonce) {
      var i, j :| 0 < i < j < |block.vtx| &&
        keyed.Short(block.header, c.nonce, block.vtx[i].hash) == keyed.Short(block.header, c.nonce, block.vtx[j].hash);
      assert c.shortIds[i - 1] == c.shortIds[j - 1];
    }
  }

  /** Announcing a block, taking the announcement in, asking for what is missing and
      filling it in gives the same block, and fails exactly when short ids collide,
      a bucket is overfull or the block is found mutated. */
  method Relay(keyed: Keyed, block: Block, nonce: nat, pool: seq<Known>, extra: seq<Known>, maxTxs: nat,
               crowded: nat -> bool,
               mutated: Block -> bool) returns (status: Status, rebuilt: Block)
    requires block.header != NullHeader && 0 < |block.vtx| <= 0xffff && |block.vtx| <= maxTxs && !block.vtx[0].isNull
    requires Honest(keyed, block, nonce, pool + extra)
    ensures status == Ok ==> rebuilt == block && !mutated(block)
    ensures status != Invalid
    ensures status == Failed <==> Collides(keyed, block, nonce) || Crowds(crowded, |block.vtx| - 1) || mutated(block)
  {
    var c := Announce(keyed, block, nonce);
    var partial := new PartialBlock();
    ghost var base, ids;
    PlaceableOne(c);
    RepeatsIsCollides(keyed, block, c);
    status, base, ids := partial.InitData(keyed, c, pool, extra, maxTxs, crowded);
    rebuilt := block.(vtx := []);
    if status == Ok {
      RebuiltFaithful(keyed, block, c, base, partial.slots, ids, pool + extra);
      MergeMissing(partial.slots, block.vtx);
      status, rebuilt := partial.FillBlock(Missing(partial.slots, block.vtx, |block.vtx|), mutated);
    }
  }

  lemma PlaceableOne(c: Compact)
    requires |c.prefilled| == 1 && c.prefilled[0].index == 0 && !c.prefilled[0].tx.isNull
    ensures Placeable(c)
  {
    assert PlaceOf(c.prefilled, 1) == 0;
  }
}
