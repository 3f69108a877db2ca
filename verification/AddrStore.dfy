/** Writing the address manager to its file and reading it back, loop by loop. */
module AddrStore {
  import opened AddrBook
  import opened AddrFile
  import AddrCheck
  import AddrLoad
  import M = AddrMan

  // ----- Writing -----

  /** Some order of the ids of a map. */
  method ListIds(info: map<int, AddrInfo>) returns (order: seq<int>)
    ensures Enumerates(order, info)
  {
    order := [];
    var todo := info.Keys;
    while |todo| > 0
      invariant todo <= info.Keys && Distinct(order)
      invariant forall id :: id in info <==> id in order || id in todo
      invariant forall id :: id in order ==> id !in todo
      decreases |todo|
    {
      Inhabited(todo);
      var id :| id in todo;
      order := order + [id];
      todo := todo - {id};
    }
    assert todo == {};
  }

  lemma {:induction false} NewIdsPrefix(info: map<int, AddrInfo>, order: seq<int>, n: nat)
    requires n <= |order|
    ensures NewIds(info, order[..n]) <= NewIds(info, order)
    ensures TriedIds(info, order[..n]) <= TriedIds(info, order)
  {
    if n == |order| {
      assert order[..n] == order;
    } else {
      var most := order[..|order| - 1];
      NewIdsPrefix(info, most, n);
      assert most[..n] == order[..n];
    }
  }

  /** In a consistent book the counters are the lengths of the two lists. */
  lemma {:induction false} IdsCounted(info: map<int, AddrInfo>, order: seq<int>)
    requires forall i :: 0 <= i < |order| ==> order[i] in info
    requires forall id :: id in info ==> (info[id].refCount != 0 <==> !info[id].inTried)
    ensures |NewIds(info, order)| == SumOver(info, order, IsNew)
    ensures |TriedIds(info, order)| == SumOver(info, order, IsTried)
  {
    if order != [] {
      IdsCounted(info, order[..|order| - 1]);
      var id := order[|order| - 1];
      assert id in info;
    }
  }

  lemma Counted(s: Book, order: seq<int>)
    requires Consistent(s) && Enumerates(order, s.info)
    ensures |NewIds(s.info, order)| == s.nNew && |TriedIds(s.info, order)| == s.nTried
  {
    forall id | id in s.info ensures s.info[id].refCount != 0 <==> !s.info[id].inTried {
      if s.info[id].inTried {
        TriedUnreferenced(s.hash, s.info, s.newTable, id);
      }
    }
    assert s.info - {} == s.info;
    TotalIsSum(s.info, order, IsNew);
    TotalIsSum(s.info, order, IsTried);
    IdsCounted(s.info, order);
  }

  /** Every id with references among the first n has its index noted. */
  ghost predicate NotedAt(info: map<int, AddrInfo>, ids: seq<int>, unk: map<int, int>, id: int)
    requires id in info
  {
    info[id].refCount != 0 ==> id in unk && 0 <= unk[id] < |ids| && ids[unk[id]] == id
  }

  lemma OneMoreId(info: map<int, AddrInfo>, order: seq<int>, i: nat)
    requires i < |order| && order[i] in info
    ensures NewIds(info, order[..i + 1]) ==
            NewIds(info, order[..i]) + (if info[order[i]].refCount != 0 then [order[i]] else [])
    ensures TriedIds(info, order[..i + 1]) ==
            TriedIds(info, order[..i]) + (if info[order[i]].inTried then [order[i]] else [])
  {
    assert order[..i + 1][..i] == order[..i];
  }

  /** The records of these ids have been written. */
  ghost predicate Written(info: map<int, AddrInfo>, ids: seq<int>, records: seq<Record>) {
    |records| == |ids| && forall j :: 0 <= j < |ids| ==> ids[j] in info && records[j] == RecordOf(info[ids[j]])
  }

  lemma WrittenStep(info: map<int, AddrInfo>, ids: seq<int>, records: seq<Record>, id: int)
    requires Written(info, ids, records) && id in info
    ensures Written(info, ids + [id], records + [RecordOf(info[id])])
  {
  }

  ghost predicate AllNoted(info: map<int, AddrInfo>, some: seq<int>, ids: seq<int>, unk: map<int, int>) {
    forall id {:trigger NotedAt(info, ids, unk, id)} :: id in some && id in info ==> NotedAt(info, ids, unk, id)
  }

  /** Noting one id more keeps what was noted before. */
  lemma NotedStep(info: map<int, AddrInfo>, order: seq<int>, i: nat, ids: seq<int>, unk: map<int, int>)
    requires i < |order| && order[i] in info && AllNoted(info, order[..i], ids, unk)
    ensures AllNoted(info, order[..i + 1], if info[order[i]].refCount != 0 then ids + [order[i]] else ids,
                     unk[order[i] := |ids|])
  {
    var more := if info[order[i]].refCount != 0 then ids + [order[i]] else ids;
    forall id | id in order[..i + 1] && id in info ensures NotedAt(info, more, unk[order[i] := |ids|], id) {
      if id != order[i] {
        assert id in order[..i] && NotedAt(info, ids, unk, id);
      }
    }
  }

  /** Writes the entries with references, noting the index of each. */
  method WriteNew(info: map<int, AddrInfo>, order: seq<int>, nNew: int)
    returns (records: seq<Record>, unk: map<int, int>, ghost ids: seq<int>)
    requires Enumerates(order, info) && |NewIds(info, order)| == nNew
    ensures ids == NewIds(info, order) && Written(info, ids, records)
    ensures forall id {:trigger NotedAt(info, ids, unk, id)} :: id in info ==> NotedAt(info, ids, unk, id)
  {
    records, unk, ids := [], map[], [];
    var nIds := 0;
    for i := 0 to |order|
      invariant ids == NewIds(info, order[..i]) && |ids| == nIds
      invariant Written(info, ids, records) && AllNoted(info, order[..i], ids, unk)
    {
      var id := order[i];
      assert id in order;
      OneMoreId(info, order, i);
      NewIdsPrefix(info, order, i + 1);
      NotedStep(info, order, i, ids, unk);
      unk := unk[id := nIds];
      if info[id].refCount != 0 {
        assert nIds != nNew;
        WrittenStep(info, ids, records, id);
        records := records + [RecordOf(info[id])];
        ids := ids + [id];
        nIds := nIds + 1;
      }
    }
    assert order[..|order|] == order;
    forall id | id in info ensures NotedAt(info, ids, unk, id) {
      assert id in order;
    }
  }

  method WriteTried(info: map<int, AddrInfo>, order: seq<int>, nTried: int)
    returns (records: seq<Record>, ghost ids: seq<int>)
    requires Enumerates(order, info) && |TriedIds(info, order)| == nTried
    ensures ids == TriedIds(info, order) && Written(info, ids, records)
  {
    records, ids := [], [];
    var nIds := 0;
    for i := 0 to |order|
      invariant ids == TriedIds(info, order[..i]) && |ids| == nIds && Written(info, ids, records)
    {
      var id := order[i];
      assert id in order;
      OneMoreId(info, order, i);
      NewIdsPrefix(info, order, i + 1);
      if info[id].inTried {
        assert nIds != nTried;
        WrittenStep(info, ids, records, id);
        records := records + [RecordOf(info[id])];
        ids := ids + [id];
        nIds := nIds + 1;
      }
    }
    assert order[..|order|] == order;
  }

  lemma NotedIndex(info: map<int, AddrInfo>, ids: seq<int>, unk: map<int, int>, id: int)
    requires id in info && info[id].refCount != 0 && NotedAt(info, ids, unk, id) && Distinct(ids)
    ensures id in ids && IndexOf(ids, id) == unk[id]
  {
  }

  /** Writes a bucket: its entries as indexes. */
  method WriteRow(info: map<int, AddrInfo>, row: seq<int>, unk: map<int, int>, ghost ids: seq<int>)
    returns (indexes: seq<int>)
    requires Distinct(ids)
    requires forall id {:trigger NotedAt(info, ids, unk, id)} :: id in info ==> NotedAt(info, ids, unk, id)
    requires forall i :: 0 <= i < |row| && row[i] != EMPTY ==> row[i] in info && info[row[i]].refCount != 0
    ensures indexes == RowIndexes(row, ids, |row|)
  {
    indexes := [];
    for i := 0 to |row|
      invariant indexes == RowIndexes(row, ids, i)
    {
      if row[i] != EMPTY {
        var id := row[i];
        assert id in info && NotedAt(info, ids, unk, id);
        NotedIndex(info, ids, unk, id);
        indexes := indexes + [unk[id]];
      }
    }
  }

  /** What stands in the new table is live and referenced. */
  lemma SlotReferenced(s: Book, b: nat, p: nat)
    requires Consistent(s) && InTable(b, p, NEW_BUCKETS) && s.newTable[b][p] != EMPTY
    ensures s.newTable[b][p] in s.info && s.info[s.newTable[b][p]].refCount != 0
  {
    assert NewSlotOk(s.hash, s.info, s.newTable, b, p);
  }

  /** Writes all buckets of the new table. */
  method WriteBuckets(m: M.AddrMan, unk: map<int, int>, ghost ids: seq<int>) returns (buckets: seq<seq<int>>)
    requires Consistent(m.State()) && Distinct(ids)
    requires forall id {:trigger NotedAt(m.info, ids, unk, id)} :: id in m.info ==> NotedAt(m.info, ids, unk, id)
    ensures |buckets| == NEW_BUCKETS
    ensures forall b :: 0 <= b < NEW_BUCKETS ==> buckets[b] == RowIndexes(m.newTable[b], ids, BUCKET_SIZE)
  {
    buckets := [];
    for b := 0 to NEW_BUCKETS
      invariant |buckets| == b
      invariant forall c :: 0 <= c < b ==> buckets[c] == RowIndexes(m.newTable[c], ids, BUCKET_SIZE)
    {
      var row := m.newTable[b];
      forall i | 0 <= i < BUCKET_SIZE && row[i] != EMPTY ensures row[i] in m.info && m.info[row[i]].refCount != 0 {
        SlotReferenced(m.State(), b, i);
      }
      var indexes := WriteRow(m.info, row, unk, ids);
      buckets := buckets + [indexes];
    }
  }

  /** The parts that were written are the saved form. */
  lemma FileIsSaved(s: Book, order: seq<int>, asmap: nat, file: File)
    requires Consistent(s) && Enumerates(order, s.info) && file.hash == s.hash && file.asmap == asmap
    requires file.format == FILE_FORMAT && file.compat == INCOMPATIBILITY_BASE + FILE_FORMAT
    requires
      var ids := NewIds(s.info, order);
      && |file.new_| == |ids|
      && forall i :: 0 <= i < |ids| ==> ids[i] in s.info && file.new_[i] == RecordOf(s.info[ids[i]])
    requires
      var ids := TriedIds(s.info, order);
      && |file.tried| == |ids|
      && forall i :: 0 <= i < |ids| ==> ids[i] in s.info && file.tried[i] == RecordOf(s.info[ids[i]])
    requires
      var ids := NewIds(s.info, order);
      |file.buckets| == NEW_BUCKETS
      && forall b :: 0 <= b < NEW_BUCKETS ==> file.buckets[b] == RowIndexes(s.newTable[b], ids, BUCKET_SIZE)
    ensures file == Saved(s, order, asmap)
  {
    IdsLive(s.info, order);
    var saved := Saved(s, order, asmap);
    assert file.new_ == saved.new_;
    assert file.tried == saved.tried;
    assert file.buckets == saved.buckets;
  }

  /** Writes the manager to its file. */
  method Serialize(m: M.AddrMan, asmap: nat) returns (file: File, ghost order: seq<int>)
    requires Consistent(m.State())
    ensures Enumerates(order, m.info) && file == Saved(m.State(), order, asmap)
  {
    var list := ListIds(m.info);
    order := list;
    Counted(m.State(), order);
    IdsDistinct(m.info, order);
    var newRecords, triedRecords, unk;
    ghost var newIds, triedIds;
    newRecords, unk, newIds := WriteNew(m.info, list, m.nNew);
    triedRecords, triedIds := WriteTried(m.info, list, m.nTried);
    var buckets := WriteBuckets(m, unk, newIds);
    var compat := INCOMPATIBILITY_BASE + FILE_FORMAT;
    file := File(FILE_FORMAT, compat, m.hash, newRecords, triedRecords, buckets, asmap);
    FileIsSaved(m.State(), order, asmap, file);
  }

  // ----- Reading -----

  /** Reads the new entries. The counter for them was read before. */
  method ReadNew(m: M.AddrMan, records: seq<Record>)
    requires m.State() == Blank(m.hash).(nNew := |records|, nTried := m.nTried)
    modifies m
    ensures m.State() == WithNew(m.hash, records, |records|).(nTried := old(m.nTried))
  {
    for n := 0 to |records|
      invariant m.nNew == |records| && m.nTried == old(m.nTried) && m.idCount == 0
      invariant m.State().(nNew := n, nTried := 0, idCount := n) == WithNew(m.hash, records, n)
    {
      var r := records[n];
      m.info := m.info[n := EntryOf(r, |m.random|)];
      m.addrs := m.addrs[r.addr := n];
      m.random := m.random + [n];
      m.nets := Bumped(m.nets, r.addr.net, 1, 0);
    }
    m.idCount := m.nNew;
    WithNewFields(m.hash, records, |records|);
  }

  lemma {:induction false} WithNewFields(h: Hash, records: seq<Record>, n: nat)
    requires n <= |records|
    ensures var t := WithNew(h, records, n); t.idCount == n && t.nNew == n && t.nTried == 0 && t.hash == h
  {
    if n > 0 {
      WithNewFields(h, records, n - 1);
    }
  }

  /** Reads an entry straight into its free tried slot. */
  method ReadOneTried(m: M.AddrMan, r: Record, b: nat, p: nat)
    requires Shape(m.triedTable, TRIED_BUCKETS) && b == TriedBucket(m.hash, r.addr)
    requires p == Position(m.hash, false, b, r.addr)
    modifies m
    ensures m.State() == AddTried(old(m.State()), r).(nTried := old(m.nTried))
  {
    var id, place := m.idCount, |m.random|;
    m.random := m.random + [id];
    m.info := m.info[id := EntryOf(r, place).(inTried := true)];
    m.addrs := m.addrs[r.addr := id];
    m.triedTable := Put(m.triedTable, b, p, id);
    m.idCount := id + 1;
    m.nets := Bumped(m.nets, r.addr.net, 0, 1);
  }

  /** Reads the tried entries; what does not fit is lost. */
  method ReadTried(m: M.AddrMan, records: seq<Record>, valid: Service -> bool)
    requires Shape(m.triedTable, TRIED_BUCKETS) && m.nTried == |records|
    modifies m
    ensures m.State() == WithTried(old(m.State().(nTried := 0)), records, valid, |records|)
  {
    var lost := 0;
    ghost var t := m.State().(nTried := 0);
    for n := 0 to |records|
      invariant m.nTried == |records| && m.State().(nTried := n - lost) == WithTried(t, records, valid, n)
    {
      var r := records[n];
      var b := TriedBucket(m.hash, r.addr);
      var p := Position(m.hash, false, b, r.addr);
      if valid(r.addr) && m.triedTable[b][p] == EMPTY {
        ReadOneTried(m, r, b, p);
      } else {
        lost := lost + 1;
      }
    }
    m.nTried := m.nTried - lost;
  }

  /** Collects the bucket entries with a valid index. */
  method ReadBuckets(buckets: seq<seq<int>>, nNew: nat) returns (entries: seq<(int, int)>)
    ensures entries == Flat(buckets, nNew, |buckets|)
  {
    entries := [];
    for b := 0 to |buckets|
      invariant entries == Flat(buckets, nNew, b)
    {
      ghost var before := entries;
      for n := 0 to |buckets[b]|
        invariant entries == before + FlatRow(buckets[b], nNew, b, n)
      {
        if 0 <= buckets[b][n] < nNew {
          entries := entries + [(b, buckets[b][n])];
        }
      }
    }
  }

  /** Puts a new entry into an empty slot. */
  method Refill(m: M.AddrMan, b: nat, id: int)
    requires Shape(m.newTable, NEW_BUCKETS) && b < NEW_BUCKETS && id in m.info
    modifies m
    ensures m.State() == Slotted(old(m.State()), b, id)
  {
    m.newTable := Put(m.newTable, b, Position(m.hash, true, b, m.info[id].addr), id);
    m.info := m.info[id := m.info[id].(refCount := m.info[id].refCount + 1)];
  }

  /** Puts one bucket entry back, in its old place or in its source's. */
  method ApplyOne(m: M.AddrMan, bucket: int, id: int, restore: bool, valid: Service -> bool)
    requires Shape(m.newTable, NEW_BUCKETS) && id in m.info && (restore ==> 0 <= bucket < NEW_BUCKETS)
    modifies m
    ensures m.State() == Apply(old(m.State()), bucket, id, restore, valid)
  {
    var e := m.info[id];
    if !valid(e.addr) || e.refCount >= MAX_REFERENCES {
      return;
    }
    if restore && m.newTable[bucket][Position(m.hash, true, bucket, e.addr)] == EMPTY {
      Refill(m, bucket, id);
    } else {
      var b := NewBucket(m.hash, e.addr, e.source);
      if m.newTable[b][Position(m.hash, true, b, e.addr)] == EMPTY {
        Refill(m, b, id);
      }
    }
  }

  lemma {:induction false} AppliedKeys(t: Book, entries: seq<(int, int)>, restore: bool, valid: Service -> bool, n: nat)
    requires n <= |entries| && Shape(t.newTable, NEW_BUCKETS)
    ensures Applied(t, entries, restore, valid, n).info.Keys == t.info.Keys
  {
    if n > 0 {
      AppliedKeys(t, entries, restore, valid, n - 1);
    }
  }

  method ApplyEntries(m: M.AddrMan, entries: seq<(int, int)>, restore: bool, valid: Service -> bool)
    requires Shape(m.newTable, NEW_BUCKETS)
    requires forall i :: 0 <= i < |entries| ==> entries[i].1 in m.info && (restore ==> 0 <= entries[i].0 < NEW_BUCKETS)
    modifies m
    ensures m.State() == Applied(old(m.State()), entries, restore, valid, |entries|)
  {
    ghost var t := m.State();
    for i := 0 to |entries|
      invariant m.State() == Applied(t, entries, restore, valid, i)
    {
      AppliedKeys(t, entries, restore, valid, i);
      ApplyOne(m, entries[i].0, entries[i].1, restore, valid);
    }
  }

  // ----- vRandom is in order whatever the file says -----

  ghost predicate Orderly(t: Book) {
    RandomOk(t.info, t.random) && forall id :: id in t.info ==> 0 <= id < t.idCount
  }

  lemma RandomJoin(info: map<int, AddrInfo>, random: seq<int>, id: int, e: AddrInfo)
    requires RandomOk(info, random) && id !in info && e.randomPos == |random|
    ensures RandomOk(info[id := e], random + [id])
  {
    var info', random' := info[id := e], random + [id];
    forall j | j in info' ensures Placed(info', random', j) {
      assert j in info ==> Placed(info, random, j);
    }
    forall k | 0 <= k < |random'| ensures AddrBook.Listed(info', random', k) {
      assert k < |random| ==> AddrBook.Listed(info, random, k);
    }
  }

  lemma {:induction false} WithNewOrderly(h: Hash, records: seq<Record>, n: nat)
    requires n <= |records|
    ensures Orderly(WithNew(h, records, n))
  {
    if n > 0 {
      WithNewOrderly(h, records, n - 1);
      WithNewFields(h, records, n - 1);
      var t := WithNew(h, records, n - 1);
      RandomJoin(t.info, t.random, t.idCount, EntryOf(records[n - 1], |t.random|));
    }
  }

  lemma {:induction false} WithTriedOrderly(t: Book, records: seq<Record>, valid: Service -> bool, n: nat)
    requires n <= |records| && Shape(t.triedTable, TRIED_BUCKETS) && Orderly(t) && 0 <= t.idCount
    ensures Orderly(WithTried(t, records, valid, n)) && t.idCount <= WithTried(t, records, valid, n).idCount
    ensures t.info.Keys <= WithTried(t, records, valid, n).info.Keys
  {
    if n > 0 {
      WithTriedOrderly(t, records, valid, n - 1);
      var u := WithTried(t, records, valid, n - 1);
      RandomJoin(u.info, u.random, u.idCount, EntryOf(records[n - 1], |u.random|).(inTried := true));
    }
  }

  lemma {:induction false} AppliedOrderly(t: Book, entries: seq<(int, int)>, restore: bool, valid: Service -> bool,
                                          n: nat)
    requires n <= |entries| && Shape(t.newTable, NEW_BUCKETS) && Orderly(t)
    ensures Orderly(Applied(t, entries, restore, valid, n))
    ensures Applied(t, entries, restore, valid, n).idCount == t.idCount
  {
    if n > 0 {
      AppliedOrderly(t, entries, restore, valid, n - 1);
      var u, id := Applied(t, entries, restore, valid, n - 1), entries[n - 1].1;
      if id in u.info {
        RandomKept(u.info, u.random, id, u.info[id].(refCount := u.info[id].refCount + 1));
      }
    }
  }

  /** Exchanges two places of vRandom. */
  method SwapPlaces(m: M.AddrMan, i: nat, j: nat)
    requires Orderly(m.State()) && i < |m.random| && j < |m.random|
    modifies m
    ensures old(m.random)[i] in old(m.info) && old(m.random)[j] in old(m.info)
    ensures m.State() == Swapped(old(m.State()), i, j) && Orderly(m.State())
  {
    assert AddrBook.Listed(m.info, m.random, i) && AddrBook.Listed(m.info, m.random, j);
    if i != j {
      RandomSwapped(m.info, m.random, i, j);
      var id1, id2 := m.random[i], m.random[j];
      m.info := m.info[id1 := m.info[id1].(randomPos := j)];
      m.info := m.info[id2 := m.info[id2].(randomPos := i)];
      m.random := m.random[i := id2][j := id1];
    }
  }

  /** Deletes an entry without slots; both places of the swap are live. */
  method DropOne(m: M.AddrMan, id: int)
    requires Orderly(m.State()) && id in m.info && !m.info[id].inTried && m.info[id].refCount == 0
    modifies m
    ensures m.State() == Dropped(old(m.State()), id) && Orderly(m.State())
  {
    assert Placed(m.info, m.random, id);
    SwappedSame(m.State(), m.info[id].randomPos, |m.random| - 1);
    SwapPlaces(m, m.info[id].randomPos, |m.random| - 1);
    RandomWithoutLast(m.info, m.random, id);
    m.nets := Bumped(m.nets, m.info[id].addr.net, -1, 0);
    m.random := m.random[..|m.random| - 1];
    m.addrs := m.addrs - {m.info[id].addr};
    m.info := m.info - {id};
    m.nNew := m.nNew - 1;
  }

  /** Deletes every entry that ended up without a slot. */
  method Prune(m: M.AddrMan) returns (ghost look: seq<int>)
    requires Orderly(m.State())
    modifies m
    ensures m.State() == Pruned(old(m.State()), look, |look|) && Orderly(m.State())
    ensures forall id :: id in old(m.info) ==> id in look
  {
    var list := ListIds(m.info);
    look := list;
    ghost var t := m.State();
    for i := 0 to |list|
      invariant Orderly(m.State()) && m.State() == Pruned(t, list, i)
    {
      if list[i] in m.info && !m.info[list[i]].inTried && m.info[list[i]].refCount == 0 {
        DropOne(m, list[i]);
      }
    }
  }

  // ----- The whole file -----

  /** The file is for newer readers, or for none. */
  predicate Incompatible(file: File) {
    file.compat < INCOMPATIBILITY_BASE || file.compat - INCOMPATIBILITY_BASE > FILE_FORMAT
  }

  /** More entries than the tables have slots: the file is corrupt. */
  predicate TooLarge(file: File) {
    |file.new_| > NEW_BUCKETS * BUCKET_SIZE || |file.tried| > TRIED_BUCKETS * BUCKET_SIZE
  }

  lemma EntriesInRange(file: File, e: seq<(int, int)>)
    requires e == Flat(file.buckets, |file.new_|, |file.buckets|)
    ensures forall i :: 0 <= i < |e| ==> 0 <= e[i].0 < |file.buckets| && 0 <= e[i].1 < |file.new_|
  {
    forall i | 0 <= i < |e| ensures 0 <= e[i].0 < |file.buckets| && 0 <= e[i].1 < |file.new_| {
      FlatHas(file.buckets, |file.new_|, |file.buckets|, e[i]);
    }
  }

  /** Reads the entries of both tables. */
  method ReadEntries(m: M.AddrMan, file: File)
    requires m.State() == Blank(file.hash)
    modifies m
    ensures m.State() == WithTried(WithNew(file.hash, file.new_, |file.new_|), file.tried, m.rules.valid, |file.tried|)
    ensures Orderly(m.State()) && forall k :: 0 <= k < |file.new_| ==> k in m.info
  {
    m.nNew, m.nTried := |file.new_|, |file.tried|;
    ReadNew(m, file.new_);
    WithNewOrderly(m.hash, file.new_, |file.new_|);
    WithNewFields(m.hash, file.new_, |file.new_|);
    WithNewLoaded(m.hash, file.new_, |file.new_|);
    ghost var t := m.State().(nTried := 0);
    assert forall k :: 0 <= k < |file.new_| ==> k in t.info;
    ReadTried(m, file.tried, m.rules.valid);
    WithTriedOrderly(t, file.tried, m.rules.valid, |file.tried|);
  }

  /** Everything before the last check. */
  method ReadAll(m: M.AddrMan, file: File, asmap: nat) returns (ghost look: seq<int>)
    requires m.State() == Blank(file.hash)
    modifies m
    ensures m.State() == Loaded(file, asmap, m.rules.valid, look) && Orderly(m.State())
    ensures forall id :: id in AddrLoad.Unpruned(file, asmap, m.rules.valid).info ==> id in look
  {
    ReadEntries(m, file);
    var entries := ReadBuckets(file.buckets, |file.new_|);
    EntriesInRange(file, entries);
    var restore := |file.buckets| == NEW_BUCKETS && file.Checksum() == asmap;
    forall i | 0 <= i < |entries| ensures entries[i].1 in m.info {
      var k := entries[i].1;
      assert k in m.info;
    }
    AppliedOrderly(m.State(), entries, restore, m.rules.valid, |entries|);
    ApplyEntries(m, entries, restore, m.rules.valid);
    look := Prune(m);
  }

  predicate Refused(file: File) {
    Incompatible(file) || TooLarge(file)
  }

  /** Reads a file into a new manager; a file that is incompatible or corrupt, or does
      not make a book that passes the manager's own check, is refused. What is accepted is
      consistent, and different addresses always make a consistent book. */
  method Unserialize(file: File, asmap: nat, rules: M.NetRules) returns (ok: bool, m: M.AddrMan, ghost look: seq<int>)
    ensures fresh(m) && m.rules == rules
    ensures file.compat < 32 || file.compat > 36 || |file.new_| > 65536 || |file.tried| > 16384 <==> Refused(file)
    ensures Refused(file) ==> !ok
    ensures !Refused(file) ==> m.State() == Loaded(file, asmap, rules.valid, look)
    ensures !Refused(file) ==> Shape(m.triedTable, TRIED_BUCKETS) && Shape(m.newTable, NEW_BUCKETS)
    ensures !Refused(file) ==> (ok <==> AddrCheck.Passes(m.State()))
    ensures ok ==> Consistent(m.State()) && TimesOk(m.info) && !file.hash.isNull
    ensures !Refused(file) && DistinctRecords(file.new_ + file.tried) ==>
              && Consistent(m.State()) && AddrLoad.Salvaged(file, rules.valid, m.State())
              && (ok <==> TimesOk(m.info) && !file.hash.isNull)
  {
    m := new M.AddrMan(file.hash, rules);
    look := [];
    if Incompatible(file) {
      return false, m, look;
    }
    if TooLarge(file) {
      return false, m, look;
    }
    look := ReadAll(m, file, asmap);
    LoadedShape(file, asmap, rules.valid, look);
    if DistinctRecords(file.new_ + file.tried) {
      AddrLoad.AnyFile(file, asmap, rules.valid, look);
      AddrCheck.ConsistentPasses(m.State());
    }
    var code := AddrCheck.CheckAddrman(m);
    ok := code == 0;
    if ok {
      AddrLoad.LoadedTidy(file, asmap, rules.valid, look);
      AddrCheck.PassingIsConsistent(m.State());
    }
  }

  lemma {:induction false} PrunedShape(t: Book, ids: seq<int>, n: nat)
    requires n <= |ids|
    ensures Pruned(t, ids, n).triedTable == t.triedTable && Pruned(t, ids, n).newTable == t.newTable
  {
    if n > 0 {
      PrunedShape(t, ids, n - 1);
    }
  }

  lemma {:induction false} AppliedShape(t: Book, entries: seq<(int, int)>, restore: bool, valid: Service -> bool,
                                        n: nat)
    requires n <= |entries| && Shape(t.newTable, NEW_BUCKETS)
    ensures Applied(t, entries, restore, valid, n).triedTable == t.triedTable
  {
    if n > 0 {
      AppliedShape(t, entries, restore, valid, n - 1);
    }
  }

  lemma LoadedShape(file: File, asmap: nat, valid: Service -> bool, look: seq<int>)
    ensures var t := Loaded(file, asmap, valid, look);
            Shape(t.triedTable, TRIED_BUCKETS) && Shape(t.newTable, NEW_BUCKETS)
  {
    var t := WithTried(WithNew(file.hash, file.new_, |file.new_|), file.tried, valid, |file.tried|);
    var entries := Flat(file.buckets, |file.new_|, |file.buckets|);
    var restore := |file.buckets| == NEW_BUCKETS && file.Checksum() == asmap;
    AppliedShape(t, entries, restore, valid, |entries|);
    PrunedShape(Applied(t, entries, restore, valid, |entries|), look, |look|);
  }

  // ----- No more entries than slots -----

  /** Distinct ids that all stand in a table are no more than its slots. */
  lemma FitTable(ids: seq<int>, t: Table, buckets: nat)
    requires Distinct(ids) && Shape(t, buckets) && forall i :: 0 <= i < |ids| ==> Stands(t, buckets, ids[i])
    ensures |ids| <= buckets * BUCKET_SIZE
  {
    var codes := seq(|ids|, i requires 0 <= i < |ids| => Code(t, buckets, ids[i]));
    forall i, j | 0 <= i < j < |ids| ensures codes[i] != codes[j] {
      CodeMeans(t, buckets, ids[i]);
      CodeMeans(t, buckets, ids[j]);
    }
    forall i | 0 <= i < |ids| ensures 0 <= codes[i] < buckets * BUCKET_SIZE {
      CodeMeans(t, buckets, ids[i]);
    }
    Pigeonhole(codes, buckets * BUCKET_SIZE);
  }

  ghost function Code(t: Table, buckets: nat, id: int): int
    requires Shape(t, buckets) && Stands(t, buckets, id)
  {
    var b, p :| InTable(b, p, buckets) && t[b][p] == id;
    BUCKET_SIZE * b + p
  }

  lemma CodeMeans(t: Table, buckets: nat, id: int)
    requires Shape(t, buckets) && Stands(t, buckets, id)
    ensures var c := Code(t, buckets, id);
            0 <= c < buckets * BUCKET_SIZE && 0 <= c / BUCKET_SIZE < buckets &&
              t[c / BUCKET_SIZE][c % BUCKET_SIZE] == id
  {
    var c := Code(t, buckets, id);
    var b, p :| InTable(b, p, buckets) && t[b][p] == id && c == BUCKET_SIZE * b + p;
    assert c / BUCKET_SIZE == b && c % BUCKET_SIZE == p;
  }

  lemma SavedFits(s: Book, order: seq<int>, asmap: nat)
    requires Consistent(s) && Enumerates(order, s.info)
    ensures !Refused(Saved(s, order, asmap))
  {
    var n, t := NewIds(s.info, order), TriedIds(s.info, order);
    IdsDistinct(s.info, order);
    forall i | 0 <= i < |n| ensures Stands(s.newTable, NEW_BUCKETS, n[i]) {
      var id := n[i];
      assert id in n;
      Partition(s, order, id);
      HeldStands(s.hash, s.info, s.newTable, id);
    }
    forall i | 0 <= i < |t| ensures Stands(s.triedTable, TRIED_BUCKETS, t[i]) {
      var id := t[i];
      assert id in t;
      Partition(s, order, id);
      LiveIsStanding(s, id);
    }
    FitTable(n, s.newTable, NEW_BUCKETS);
    FitTable(t, s.triedTable, TRIED_BUCKETS);
  }

  /** The times that are saved make sense. */
  ghost predicate SavedTimesOk(info: map<int, AddrInfo>) {
    forall id :: id in info ==> info[id].lastSuccess >= 0 && (info[id].inTried ==> info[id].lastSuccess > 0)
  }

  lemma CopiedTimes(s: Book, t: Book, all: seq<int>)
    requires SameUpToNames(s, t, all)
    ensures TimesOk(t.info) <==> SavedTimesOk(s.info)
  {
    if TimesOk(t.info) {
      forall id | id in s.info
        ensures s.info[id].lastSuccess >= 0 && (s.info[id].inTried ==> s.info[id].lastSuccess > 0)
      {
        assert id in all;
        var k :| 0 <= k < |all| && all[k] == id;
        assert CopyAt(s, all, t, k);
      }
    }
    if SavedTimesOk(s.info) {
      forall k | k in t.info ensures M.TimeOk(t.info[k]) {
        assert CopyAt(s, all, t, k);
        var id := all[k];
        assert id in s.info;
      }
    }
  }

  /** Saving a consistent manager of valid addresses and reading the file back gives
      a consistent manager with the same book up to the names of its entries. It is
      accepted exactly when the saved times make sense and the key is not null. */
  method Reload(m: M.AddrMan, asmap: nat) returns (ok: bool, copy: M.AddrMan, ghost all: seq<int>)
    requires Consistent(m.State()) && forall id :: id in m.info ==> m.rules.valid(m.info[id].addr)
    ensures fresh(copy) && Consistent(copy.State()) && SameUpToNames(m.State(), copy.State(), all)
    ensures ok <==> SavedTimesOk(m.info) && !m.hash.isNull
  {
    var file;
    ghost var order, look;
    file, order := Serialize(m, asmap);
    SavedFits(m.State(), order, asmap);
    ok, copy, look := Unserialize(file, asmap, m.rules);
    RoundTrip(m.State(), order, asmap, m.rules.valid, look);
    all := NewIds(m.info, order) + TriedIds(m.info, order);
    AddrCheck.ConsistentPasses(copy.State());
    CopiedTimes(m.State(), copy.State(), all);
  }
}
