/** The address manager's file: what is saved of a book, and how a book is built
    up again from a file, entry by entry and slot by slot. */
module AddrFile {
  import opened AddrBook
  import opened Sums

  /** What the file keeps of an entry. */
  datatype Record = Record(addr: Service, source: Source, time: int, services: nat, lastSuccess: int, attempts: int)

  const V2_ASMAP: nat := 2
  const FILE_FORMAT: nat := 4
  const INCOMPATIBILITY_BASE: nat := 32

  /** A file: its format and the byte that says which readers it is for, the key, the
      entries of the two tables, the entries of every new bucket as indexes into the
      first list, and the checksum of the address map. */
  datatype File = File(format: nat, compat: nat, hash: Hash, new_: seq<Record>, tried: seq<Record>,
                       buckets: seq<seq<int>>, asmap: nat)
  {
    /** Files of older formats have no checksum; it is then taken to be zero. */
    function Checksum(): nat {
      if format >= V2_ASMAP then asmap else 0
    }
  }

  function RecordOf(e: AddrInfo): Record {
    Record(e.addr, e.source, e.time, e.services, e.lastSuccess, e.attempts)
  }

  function EntryOf(r: Record, pos: int): AddrInfo {
    AddrInfo(r.addr, r.source, r.time, r.services, 0, 0, r.lastSuccess, r.attempts, 0, false, pos)
  }

  // ----- Loading -----

  /** The first n entries of the new table, without their slots. */
  function WithNew(h: Hash, records: seq<Record>, n: nat): (r: Book)
    requires n <= |records|
    ensures Shape(r.newTable, NEW_BUCKETS) && Shape(r.triedTable, TRIED_BUCKETS)
  {
    if n == 0 then Blank(h)
    else
      var t := WithNew(h, records, n - 1);
      Joined(t, EntryOf(records[n - 1], |t.random|))
  }

  /** An entry that goes straight into its tried slot. */
  function AddTried(t: Book, r: Record): Book
    requires Shape(t.triedTable, TRIED_BUCKETS)
  {
    var id, b := t.idCount, TriedBucket(t.hash, r.addr);
    t.(idCount := id + 1,
       info := t.info[id := EntryOf(r, |t.random|).(inTried := true)],
       addrs := t.addrs[r.addr := id],
       random := t.random + [id],
       triedTable := Put(t.triedTable, b, Position(t.hash, false, b, r.addr), id),
       nTried := t.nTried + 1,
       nets := Bumped(t.nets, r.addr.net, 0, 1))
  }

  /** The first n entries of the tried table; invalid ones and ones whose slot is taken are lost. */
  function WithTried(t: Book, records: seq<Record>, valid: Service -> bool, n: nat): (r: Book)
    requires n <= |records| && Shape(t.triedTable, TRIED_BUCKETS)
    ensures Shape(r.triedTable, TRIED_BUCKETS) && r.newTable == t.newTable
  {
    if n == 0 then t
    else
      var u, r := WithTried(t, records, valid, n - 1), records[n - 1];
      if valid(r.addr) && TriedSlot(u.hash, u.triedTable, r.addr) == EMPTY then AddTried(u, r) else u
  }

  // ----- Files that load completely -----

  ghost predicate DistinctRecords(records: seq<Record>) {
    forall i, j :: 0 <= i < j < |records| ==> records[i].addr != records[j].addr
  }

  /** The live ids are the first n numbers. */
  ghost predicate Numbered(info: map<int, AddrInfo>, n: nat) {
    forall id {:trigger id in info} :: id in info <==> 0 <= id < n
  }

  /** Loaded entries stand at their index. */
  ghost predicate EntryAt(t: Book, i: nat, r: Record, tried: bool) {
    i in t.info && t.info[i] == EntryOf(r, i).(inTried := tried, refCount := t.info[i].refCount)
  }

  /** Consistent but for the references of new entries, which may be yet to come. */
  ghost predicate Pending(t: Book) {
    Inv(t, t.info.Keys, {})
  }

  ghost predicate LoadedNew(t: Book, records: seq<Record>, n: nat)
    requires n <= |records|
  {
    && t.idCount == n && |t.random| == n && t.collisions == {} && Numbered(t.info, n)
    && (forall i: nat {:trigger EntryAt(t, i, records[i], false)} :: i < n ==> EntryAt(t, i, records[i], false))
    && t.newTable == BlankTable(NEW_BUCKETS) && t.triedTable == BlankTable(TRIED_BUCKETS)
  }

  /** An address that no entry has is not in the book. */
  lemma Unknown(t: Book, a: Service)
    requires AddrsOk(t.info, t.addrs) && forall id :: id in t.info ==> t.info[id].addr != a
    ensures a !in t.addrs
  {
    if a in t.addrs {
      var id := Resolved(t, a);
    }
  }

  lemma Resolved(t: Book, a: Service) returns (id: int)
    requires AddrsOk(t.info, t.addrs) && a in t.addrs
    ensures id in t.info && t.info[id].addr == a
  {
    assert Resolves(t.info, t.addrs, a);
    id := t.addrs[a];
  }

  lemma BlankInv(h: Hash)
    ensures Pending(Blank(h)) && Consistent(Blank(h))
  {
    assert Blank(h).info - {} == map[];
  }

  lemma JoinedPending(t: Book, e: AddrInfo)
    requires Pending(t) && (forall id :: id in t.info ==> t.info[id].addr != e.addr) && e.refCount == 0 && !e.inTried
    requires e.randomPos == |t.random|
    ensures Pending(Joined(t, e))
  {
    Unknown(t, e.addr);
    JoinedKeeps(t, e, t.info.Keys);
    assert t.info.Keys + {t.idCount} == Joined(t, e).info.Keys;
  }

  lemma {:induction false} WithNewLoaded(h: Hash, records: seq<Record>, n: nat)
    requires n <= |records|
    ensures LoadedNew(WithNew(h, records, n), records, n) && WithNew(h, records, n).hash == h
  {
    if n > 0 {
      var t := WithNew(h, records, n - 1);
      WithNewLoaded(h, records, n - 1);
      var u := WithNew(h, records, n);
      forall i: nat | i < n ensures EntryAt(u, i, records[i], false) {
        assert i < n - 1 ==> EntryAt(t, i, records[i], false);
      }
    }
  }

  lemma {:induction false} WithNewPending(h: Hash, records: seq<Record>, n: nat)
    requires n <= |records| && DistinctRecords(records)
    ensures Pending(WithNew(h, records, n))
  {
    if n == 0 {
      BlankInv(h);
    } else {
      var t, r := WithNew(h, records, n - 1), records[n - 1];
      WithNewPending(h, records, n - 1);
      WithNewLoaded(h, records, n - 1);
      forall id | id in t.info ensures t.info[id].addr != r.addr {
        assert EntryAt(t, id, records[id], false);
      }
      JoinedPending(t, EntryOf(r, n - 1));
    }
  }

  // ----- Tried entries -----

  ghost predicate DistinctSlots(h: Hash, records: seq<Record>) {
    forall i, j :: 0 <= i < j < |records| ==> !SameTriedSlot(h, records[i].addr, records[j].addr)
  }

  predicate SameTriedSlot(h: Hash, a: Service, b: Service) {
    TriedBucket(h, a) == TriedBucket(h, b) &&
      Position(h, false, TriedBucket(h, a), a) == Position(h, false, TriedBucket(h, b), b)
  }

  ghost predicate TriedAt(t: Book, first: nat, records: seq<Record>, j: nat)
    requires j < |records|
  {
    EntryAt(t, first + j, records[j], true)
  }

  ghost predicate LoadedTried(t: Book, base: Book, records: seq<Record>, n: nat)
    requires n <= |records|
  {
    && 0 <= base.idCount && t.idCount == base.idCount + n && |t.random| == t.idCount && t.collisions == {}
    && Numbered(t.info, t.idCount)
    && t.hash == base.hash && t.newTable == base.newTable && Shape(t.triedTable, TRIED_BUCKETS)
    && (forall i :: 0 <= i < base.idCount && i in base.info ==> i in t.info && t.info[i] == base.info[i])
    && (forall j: nat {:trigger TriedAt(t, base.idCount, records, j)} :: j < n ==> TriedAt(t, base.idCount, records, j))
  }

  /** Adding a tried entry is joining, withdrawing and promoting it. */
  lemma AddTriedSteps(t: Book, r: Record)
    requires Shape(t.triedTable, TRIED_BUCKETS)
    ensures var e := EntryOf(r, |t.random|); AddTried(t, r) == Promoted(Withdrawn(Joined(t, e), t.idCount), t.idCount)
  {
    var e, id := EntryOf(r, |t.random|), t.idCount;
    var u := Withdrawn(Joined(t, e), id);
    assert Bumped(u.nets, e.addr.net, 0, 1) == Bumped(t.nets, e.addr.net, 0, 1);
    assert t.info[id := e][id := e.(inTried := true)] == t.info[id := e.(inTried := true)];
  }

  lemma AddTriedPending(t: Book, r: Record)
    requires Pending(t) && (forall id :: id in t.info ==> t.info[id].addr != r.addr)
    requires TriedSlot(t.hash, t.triedTable, r.addr) == EMPTY
    ensures Pending(AddTried(t, r))
  {
    var e, id := EntryOf(r, |t.random|), t.idCount;
    JoinedPending(t, e);
    var u := Joined(t, e);
    WithdrawnKeeps(u, id, u.info.Keys, {});
    PromotedKeeps(Withdrawn(u, id), id, u.info.Keys, {} + {id});
    AddTriedSteps(t, r);
    var v := AddTried(t, r);
    assert {} + {id} - {id} == {};
    assert Referenced(v.info, v.info.Keys);
  }

  lemma AddTriedLoaded(t: Book, base: Book, records: seq<Record>, n: nat)
    requires n < |records| && LoadedTried(t, base, records, n)
    ensures LoadedTried(AddTried(t, records[n]), base, records, n + 1)
  {
    var u := AddTried(t, records[n]);
    forall j: nat | j < n + 1 ensures TriedAt(u, base.idCount, records, j) {
      assert j < n ==> TriedAt(t, base.idCount, records, j);
    }
  }

  /** The slot of a record is free as long as no earlier record shares it. */
  lemma SlotFree(t: Book, base: Book, records: seq<Record>, n: nat)
    requires n < |records| && LoadedTried(t, base, records, n) && TriedOk(t.hash, t.info, t.triedTable)
    requires DistinctSlots(t.hash, records) && forall i :: i in base.info ==> !base.info[i].inTried
    requires Numbered(base.info, base.idCount)
    ensures TriedSlot(t.hash, t.triedTable, records[n].addr) == EMPTY
  {
    var a := records[n].addr;
    var b := TriedBucket(t.hash, a);
    var p := Position(t.hash, false, b, a);
    var k := t.triedTable[b][p];
    assert InTable(b, p, TRIED_BUCKETS) && TriedSlotOk(t.hash, t.info, t.triedTable, b, p);
    if k != EMPTY {
      assert k in t.info && t.info[k].inTried;
      assert k < base.idCount ==> k in base.info;
      var j := k - base.idCount;
      assert TriedAt(t, base.idCount, records, j);
      assert SameTriedSlot(t.hash, records[j].addr, a);
    }
  }

  /** Records that come from a consistent book. */
  ghost predicate Sound(h: Hash, new_: seq<Record>, tried: seq<Record>, valid: Service -> bool) {
    && DistinctRecords(new_ + tried) && DistinctSlots(h, tried)
    && (forall r :: r in new_ + tried ==> valid(r.addr))
  }

  lemma SoundNew(h: Hash, new_: seq<Record>, tried: seq<Record>, valid: Service -> bool)
    requires Sound(h, new_, tried, valid)
    ensures DistinctRecords(new_) && DistinctRecords(tried)
    ensures forall i, j :: 0 <= i < |new_| && 0 <= j < |tried| ==> new_[i].addr != tried[j].addr
  {
    var all := new_ + tried;
    forall i, j | 0 <= i < j < |new_| ensures new_[i].addr != new_[j].addr {
      assert all[i] == new_[i] && all[j] == new_[j];
    }
    forall i, j | 0 <= i < j < |tried| ensures tried[i].addr != tried[j].addr {
      assert all[|new_| + i] == tried[i] && all[|new_| + j] == tried[j];
    }
    forall i, j | 0 <= i < |new_| && 0 <= j < |tried| ensures new_[i].addr != tried[j].addr {
      assert all[i] == new_[i] && all[|new_| + j] == tried[j];
    }
  }

  /** No loaded entry has the address of the next tried record. */
  lemma NextUnknown(t: Book, base: Book, new_: seq<Record>, tried: seq<Record>, n: nat, valid: Service -> bool)
    requires n < |tried| && LoadedNew(base, new_, |new_|) && LoadedTried(t, base, tried, n)
    requires Sound(t.hash, new_, tried, valid)
    ensures forall id :: id in t.info ==> t.info[id].addr != tried[n].addr
  {
    SoundNew(t.hash, new_, tried, valid);
    forall id | id in t.info ensures t.info[id].addr != tried[n].addr {
      if id < |new_| {
        assert EntryAt(base, id, new_[id], false);
      } else {
        assert TriedAt(t, base.idCount, tried, id - |new_|);
      }
    }
  }

  lemma NotTried(base: Book, new_: seq<Record>)
    requires LoadedNew(base, new_, |new_|)
    ensures forall i :: i in base.info ==> !base.info[i].inTried
  {
    forall i | i in base.info ensures !base.info[i].inTried {
      assert EntryAt(base, i, new_[i], false);
    }
  }

  ghost predicate TriedReady(t: Book, base: Book, tried: seq<Record>, n: nat)
    requires n <= |tried|
  {
    Pending(t) && LoadedTried(t, base, tried, n)
  }

  lemma TriedStep(t: Book, base: Book, new_: seq<Record>, tried: seq<Record>, valid: Service -> bool, n: nat, u: Book)
    requires n < |tried| && LoadedNew(base, new_, |new_|) && Sound(base.hash, new_, tried, valid)
    requires TriedReady(t, base, tried, n)
    requires u == if valid(tried[n].addr) && TriedSlot(t.hash, t.triedTable, tried[n].addr) == EMPTY
                  then AddTried(t, tried[n]) else t
    ensures TriedReady(u, base, tried, n + 1)
  {
    NotTried(base, new_);
    SlotFree(t, base, tried, n);
    NextUnknown(t, base, new_, tried, n, valid);
    assert tried[n] in tried;
    AddTriedPending(t, tried[n]);
    AddTriedLoaded(t, base, tried, n);
  }

  /** All tried entries of sound records find their slots. */
  lemma {:induction false} WithTriedKeeps(base: Book, new_: seq<Record>, tried: seq<Record>, valid: Service -> bool,
                                          n: nat)
    requires n <= |tried| && LoadedNew(base, new_, |new_|) && Pending(base) && Sound(base.hash, new_, tried, valid)
    ensures TriedReady(WithTried(base, tried, valid, n), base, tried, n)
  {
    if n > 0 {
      WithTriedKeeps(base, new_, tried, valid, n - 1);
      TriedStep(WithTried(base, tried, valid, n - 1), base, new_, tried, valid, n - 1,
        WithTried(base, tried, valid, n));
    }
  }

  // ----- Slots of the new table -----

  /** Puts an entry back into a bucket, or into the bucket of its own source when
      that is impossible or the bucketing has changed. */
  function Apply(t: Book, bucket: int, id: int, restore: bool, valid: Service -> bool): (r: Book)
    requires Shape(t.newTable, NEW_BUCKETS)
    ensures Shape(r.newTable, NEW_BUCKETS)
  {
    if id !in t.info || !valid(t.info[id].addr) || t.info[id].refCount >= MAX_REFERENCES then t
    else
      var a := t.info[id].addr;
      if restore && 0 <= bucket < NEW_BUCKETS && t.newTable[bucket][Position(t.hash, true, bucket, a)] == EMPTY then
        Slotted(t, bucket, id)
      else
        var b := NewBucket(t.hash, a, t.info[id].source);
        if t.newTable[b][Position(t.hash, true, b, a)] == EMPTY then Slotted(t, b, id) else t
  }

  /** The bucket entries of a file as one list of buckets and valid indexes. */
  function Flat(buckets: seq<seq<int>>, nNew: nat, n: nat): seq<(int, int)>
    requires n <= |buckets|
  {
    if n == 0 then [] else Flat(buckets, nNew, n - 1) + FlatRow(buckets[n - 1], nNew, n - 1, |buckets[n - 1]|)
  }

  function FlatRow(row: seq<int>, nNew: nat, b: nat, n: nat): seq<(int, int)>
    requires n <= |row|
  {
    if n == 0 then [] else FlatRow(row, nNew, b, n - 1) + (if 0 <= row[n - 1] < nNew then [(b, row[n - 1])] else [])
  }

  function Applied(t: Book, entries: seq<(int, int)>, restore: bool, valid: Service -> bool, n: nat): (r: Book)
    requires n <= |entries| && Shape(t.newTable, NEW_BUCKETS)
    ensures Shape(r.newTable, NEW_BUCKETS)
  {
    if n == 0 then t
    else Apply(Applied(t, entries, restore, valid, n - 1), entries[n - 1].0, entries[n - 1].1, restore, valid)
  }

  /** Drops an entry that has no slot in either table. */
  function Dropped(t: Book, id: int): Book {
    if id in t.info && !t.info[id].inTried && t.info[id].refCount == 0 && 0 <= t.info[id].randomPos < |t.random|
       && t.random[t.info[id].randomPos] in t.info && t.random[|t.random| - 1] in t.info
    then DeletedLast(Swapped(t, t.info[id].randomPos, |t.random| - 1), id)
    else t
  }

  function Pruned(t: Book, ids: seq<int>, n: nat): Book
    requires n <= |ids|
  {
    if n == 0 then t else Dropped(Pruned(t, ids, n - 1), ids[n - 1])
  }

  /** The book a file stands for; `ids` is the order in which entries are looked through at the end. */
  function Loaded(file: File, asmap: nat, valid: Service -> bool, ids: seq<int>): Book {
    var t := WithTried(WithNew(file.hash, file.new_, |file.new_|), file.tried, valid, |file.tried|);
    var entries := Flat(file.buckets, |file.new_|, |file.buckets|);
    var restore := |file.buckets| == NEW_BUCKETS && file.Checksum() == asmap;
    Pruned(Applied(t, entries, restore, valid, |entries|), ids, |ids|)
  }

  // ----- Saving -----

  /** The ids with references, and the ids in the tried table, in some order of all ids. */
  function NewIds(info: map<int, AddrInfo>, order: seq<int>): seq<int> {
    if order == [] then []
    else
      var id := order[|order| - 1];
      NewIds(info, order[..|order| - 1]) + (if id in info && info[id].refCount != 0 then [id] else [])
  }

  function TriedIds(info: map<int, AddrInfo>, order: seq<int>): seq<int> {
    if order == [] then []
    else
      var id := order[|order| - 1];
      TriedIds(info, order[..|order| - 1]) + (if id in info && info[id].inTried then [id] else [])
  }

  function IndexOf(ids: seq<int>, id: int): (k: nat)
    requires id in ids
    ensures k < |ids| && ids[k] == id
  {
    if ids[|ids| - 1] == id then |ids| - 1 else IndexOf(ids[..|ids| - 1], id)
  }

  function RecordsOf(info: map<int, AddrInfo>, ids: seq<int>): (r: seq<Record>)
    requires forall i :: 0 <= i < |ids| ==> ids[i] in info
    ensures |r| == |ids|
  {
    seq(|ids|, i requires 0 <= i < |ids| => RecordOf(info[ids[i]]))
  }

  /** A slot as the file lists it: nothing, or the index of its entry; an entry without index would be 0. */
  function SlotIndex(ids: seq<int>, id: int): seq<int> {
    if id == EMPTY then [] else if id in ids then [IndexOf(ids, id)] else [0]
  }

  /** The entries in the first n slots of a bucket. */
  function RowIndexes(row: seq<int>, ids: seq<int>, n: nat): seq<int>
    requires n <= |row|
  {
    if n == 0 then []
    else RowIndexes(row, ids, n - 1) + SlotIndex(ids, row[n - 1])
  }

  lemma {:induction false} IdsMean(info: map<int, AddrInfo>, order: seq<int>, id: int)
    ensures id in NewIds(info, order) <==> id in order && id in info && info[id].refCount != 0
    ensures id in TriedIds(info, order) <==> id in order && id in info && info[id].inTried
  {
    if order != [] {
      IdsMean(info, order[..|order| - 1], id);
      assert order == order[..|order| - 1] + [order[|order| - 1]];
    }
  }

  lemma IdsLive(info: map<int, AddrInfo>, order: seq<int>)
    ensures forall i :: 0 <= i < |NewIds(info, order)| ==> NewIds(info, order)[i] in info
    ensures forall i :: 0 <= i < |TriedIds(info, order)| ==> TriedIds(info, order)[i] in info
  {
    var n, t := NewIds(info, order), TriedIds(info, order);
    forall i | 0 <= i < |n| ensures n[i] in info {
      IdsMean(info, order, n[i]);
    }
    forall i | 0 <= i < |t| ensures t[i] in info {
      IdsMean(info, order, t[i]);
    }
  }

  /** What is written for a book, its entries taken in some order. */
  function Saved(s: Book, order: seq<int>, asmap: nat): File
    requires Shape(s.newTable, NEW_BUCKETS)
  {
    IdsLive(s.info, order);
    var ids := NewIds(s.info, order);
    File(FILE_FORMAT, INCOMPATIBILITY_BASE + FILE_FORMAT, s.hash, RecordsOf(s.info, ids),
      RecordsOf(s.info, TriedIds(s.info, order)),
         seq(NEW_BUCKETS, b requires 0 <= b < NEW_BUCKETS => RowIndexes(s.newTable[b], ids, BUCKET_SIZE)), asmap)
  }

  predicate Distinct(order: seq<int>) {
    forall i, j :: 0 <= i < j < |order| ==> order[i] != order[j]
  }

  /** Different numbers below m are no more than m. */
  lemma {:induction false} Pigeonhole(codes: seq<int>, m: nat)
    requires Distinct(codes) && forall i :: 0 <= i < |codes| ==> 0 <= codes[i] < m
    ensures |codes| <= m
    decreases m
  {
    if codes != [] {
      if m - 1 in codes {
        var k :| 0 <= k < |codes| && codes[k] == m - 1;
        var rest := codes[..k] + codes[k + 1..];
        assert forall i :: 0 <= i < |rest| ==> rest[i] == if i < k then codes[i] else codes[i + 1];
        Pigeonhole(rest, m - 1);
      } else {
        assert forall i :: 0 <= i < |codes| ==> codes[i] in codes;
        Pigeonhole(codes, m - 1);
      }
    }
  }

  lemma {:induction false} IdsDistinct(info: map<int, AddrInfo>, order: seq<int>)
    requires Distinct(order)
    ensures Distinct(NewIds(info, order)) && Distinct(TriedIds(info, order))
  {
    if order != [] {
      var most, last := order[..|order| - 1], order[|order| - 1];
      IdsDistinct(info, most);
      IdsMean(info, most, last);
      assert last !in most;
    }
  }

  ghost predicate Enumerates(order: seq<int>, info: map<int, AddrInfo>) {
    Distinct(order) && forall id :: id in info <==> id in order
  }

  /** Different live ids have different addresses. */
  lemma AddrsDiffer(s: Book, i: int, j: int)
    requires AddrsOk(s.info, s.addrs) && i in s.info && j in s.info && i != j
    ensures s.info[i].addr != s.info[j].addr
  {
    assert Indexed(s.info, s.addrs, i) && Indexed(s.info, s.addrs, j);
  }

  /** Different tried ids have different slots. */
  lemma SlotsDiffer(s: Book, i: int, j: int)
    requires TriedOk(s.hash, s.info, s.triedTable) && i in s.info && j in s.info && i != j && s.info[i].inTried
    requires s.info[j].inTried
    ensures !SameTriedSlot(s.hash, s.info[i].addr, s.info[j].addr)
  {
    assert TriedEntryOk(s.hash, s.info, s.triedTable, i) && TriedEntryOk(s.hash, s.info, s.triedTable, j);
  }

  /** In a consistent book the two lists share no id, and together they have every id. */
  lemma Partition(s: Book, order: seq<int>, id: int)
    requires Consistent(s) && Enumerates(order, s.info)
    ensures id in NewIds(s.info, order) <==> id in s.info && !s.info[id].inTried
    ensures id in TriedIds(s.info, order) <==> id in s.info && s.info[id].inTried
  {
    IdsMean(s.info, order, id);
    if id in s.info && s.info[id].inTried {
      TriedUnreferenced(s.hash, s.info, s.newTable, id);
    }
  }

  lemma AllDistinct(s: Book, order: seq<int>)
    requires Consistent(s) && Enumerates(order, s.info)
    ensures Distinct(NewIds(s.info, order) + TriedIds(s.info, order))
    ensures forall id :: id in NewIds(s.info, order) + TriedIds(s.info, order) ==> id in s.info
  {
    var n, t := NewIds(s.info, order), TriedIds(s.info, order);
    IdsDistinct(s.info, order);
    var all := n + t;
    forall i, j | 0 <= i < j < |all| ensures all[i] != all[j] {
      Partition(s, order, all[i]);
      Partition(s, order, all[j]);
    }
    forall id | id in all ensures id in s.info {
      Partition(s, order, id);
    }
  }

  lemma SavedDistinct(s: Book, order: seq<int>, f: File)
    requires Consistent(s) && Enumerates(order, s.info) && f == Saved(s, order, f.asmap)
    ensures DistinctRecords(f.new_ + f.tried)
  {
    IdsLive(s.info, order);
    AllDistinct(s, order);
    var all, ids := f.new_ + f.tried, NewIds(s.info, order) + TriedIds(s.info, order);
    forall i, j | 0 <= i < j < |all| ensures all[i].addr != all[j].addr {
      var p, q := ids[i], ids[j];
      assert p in ids && q in ids;
      AddrsDiffer(s, p, q);
    }
  }

  lemma SavedSlots(s: Book, order: seq<int>, f: File)
    requires Consistent(s) && Enumerates(order, s.info) && f == Saved(s, order, f.asmap)
    ensures DistinctSlots(s.hash, f.tried)
  {
    var t := TriedIds(s.info, order);
    IdsLive(s.info, order);
    IdsDistinct(s.info, order);
    forall i, j | 0 <= i < j < |t| ensures !SameTriedSlot(s.hash, f.tried[i].addr, f.tried[j].addr) {
      var p, q := t[i], t[j];
      Partition(s, order, p);
      Partition(s, order, q);
      assert p in t && q in t;
      SlotsDiffer(s, p, q);
    }
  }

  lemma SavedValid(s: Book, order: seq<int>, f: File, valid: Service -> bool)
    requires Consistent(s) && Enumerates(order, s.info) && f == Saved(s, order, f.asmap)
    requires forall id :: id in s.info ==> valid(s.info[id].addr)
    ensures forall r :: r in f.new_ + f.tried ==> valid(r.addr)
  {
    var n, t := NewIds(s.info, order), TriedIds(s.info, order);
    IdsLive(s.info, order);
    forall i | 0 <= i < |n| ensures valid(f.new_[i].addr) {
      var id := n[i];
      assert id in s.info;
    }
    forall i | 0 <= i < |t| ensures valid(f.tried[i].addr) {
      var id := t[i];
      assert id in s.info;
    }
  }

  lemma SoundSaved(s: Book, order: seq<int>, asmap: nat, valid: Service -> bool)
    requires Consistent(s) && Enumerates(order, s.info) && forall id :: id in s.info ==> valid(s.info[id].addr)
    ensures var f := Saved(s, order, asmap); Sound(s.hash, f.new_, f.tried, valid)
  {
    var f := Saved(s, order, asmap);
    SavedDistinct(s, order, f);
    SavedSlots(s, order, f);
    SavedValid(s, order, f, valid);
  }

  // ----- The list of bucket entries -----

  predicate DistinctPairs(e: seq<(int, int)>) {
    forall i, j :: 0 <= i < j < |e| ==> e[i] != e[j]
  }

  /** No id twice among the filled slots of a bucket. */
  predicate RowOk(row: seq<int>, ids: seq<int>) {
    && (forall i :: 0 <= i < |row| && row[i] != EMPTY ==> row[i] in ids)
    && (forall i, j :: 0 <= i < j < |row| && row[i] != EMPTY ==> row[i] != row[j])
  }

  lemma {:induction false} RowHas(row: seq<int>, ids: seq<int>, n: nat, k: int)
    requires n <= |row| && RowOk(row, ids) && Distinct(ids) && EMPTY !in ids
    ensures k in RowIndexes(row, ids, n) <==> 0 <= k < |ids| && exists i :: 0 <= i < n && row[i] == ids[k]
  {
    if n > 0 {
      RowHas(row, ids, n - 1, k);
      var id := row[n - 1];
      if id != EMPTY {
        var j := IndexOf(ids, id);
        assert 0 <= k < |ids| && ids[k] == id ==> k == j;
      } else {
        assert 0 <= k < |ids| ==> ids[k] in ids;
      }
    }
  }

  lemma {:induction false} RowDistinct(row: seq<int>, ids: seq<int>, n: nat)
    requires n <= |row| && RowOk(row, ids) && Distinct(ids) && EMPTY !in ids
    ensures Distinct(RowIndexes(row, ids, n))
  {
    if n > 0 {
      RowDistinct(row, ids, n - 1);
      if row[n - 1] != EMPTY {
        RowHas(row, ids, n - 1, IndexOf(ids, row[n - 1]));
      }
    }
  }

  lemma {:induction false} FlatRowHas(row: seq<int>, nNew: nat, b: nat, n: nat, x: (int, int))
    requires n <= |row|
    ensures x in FlatRow(row, nNew, b, n) <==> x.0 == b && 0 <= x.1 < nNew && x.1 in row[..n]
  {
    if n > 0 {
      FlatRowHas(row, nNew, b, n - 1, x);
      assert row[..n] == row[..n - 1] + [row[n - 1]];
    }
  }

  lemma {:induction false} FlatRowDistinct(row: seq<int>, nNew: nat, b: nat, n: nat)
    requires n <= |row| && Distinct(row)
    ensures DistinctPairs(FlatRow(row, nNew, b, n))
  {
    if n > 0 {
      FlatRowDistinct(row, nNew, b, n - 1);
      FlatRowHas(row, nNew, b, n - 1, (b, row[n - 1]));
    }
  }

  lemma {:induction false} FlatHas(buckets: seq<seq<int>>, nNew: nat, n: nat, x: (int, int))
    requires n <= |buckets|
    ensures x in Flat(buckets, nNew, n) <==> 0 <= x.0 < n && 0 <= x.1 < nNew && x.1 in buckets[x.0]
  {
    if n > 0 {
      FlatHas(buckets, nNew, n - 1, x);
      var row := buckets[n - 1];
      FlatRowHas(row, nNew, n - 1, |row|, x);
      assert row[..|row|] == row;
    }
  }

  lemma {:induction false} FlatDistinct(buckets: seq<seq<int>>, nNew: nat, n: nat)
    requires n <= |buckets| && forall b :: 0 <= b < |buckets| ==> Distinct(buckets[b])
    ensures DistinctPairs(Flat(buckets, nNew, n))
  {
    if n > 0 {
      FlatDistinct(buckets, nNew, n - 1);
      var front, row := Flat(buckets, nNew, n - 1), buckets[n - 1];
      var back := FlatRow(row, nNew, n - 1, |row|);
      FlatRowDistinct(row, nNew, n - 1, |row|);
      forall i, j | 0 <= i < |front| && 0 <= j < |back| ensures front[i] != back[j] {
        FlatHas(buckets, nNew, n - 1, front[i]);
        FlatRowHas(row, nNew, n - 1, |row|, back[j]);
      }
      Concatenated(front, back);
    }
  }

  lemma Concatenated(front: seq<(int, int)>, back: seq<(int, int)>)
    requires DistinctPairs(front) && DistinctPairs(back)
    requires forall i, j :: 0 <= i < |front| && 0 <= j < |back| ==> front[i] != back[j]
    ensures DistinctPairs(front + back)
  {
  }

  // ----- Putting the new entries back -----

  /** The k-th new entry has its slot in bucket b. */
  ghost predicate Sits(s: Book, ids: seq<int>, b: int, k: int)
    requires Shape(s.newTable, NEW_BUCKETS)
  {
    && 0 <= b < NEW_BUCKETS && 0 <= k < |ids| && ids[k] in s.info
    && s.newTable[b][Position(s.hash, true, b, s.info[ids[k]].addr)] == ids[k]
  }

  lemma SavedRow(s: Book, order: seq<int>, b: nat)
    requires Consistent(s) && Enumerates(order, s.info) && b < NEW_BUCKETS
    ensures RowOk(s.newTable[b], NewIds(s.info, order)) && EMPTY !in NewIds(s.info, order)
  {
    var row, ids := s.newTable[b], NewIds(s.info, order);
    forall i | 0 <= i < |row| && row[i] != EMPTY ensures row[i] in ids {
      assert InTable(b, i, NEW_BUCKETS) && NewSlotOk(s.hash, s.info, s.newTable, b, i);
      Partition(s, order, row[i]);
    }
    forall i, j | 0 <= i < j < |row| && row[i] != EMPTY ensures row[i] != row[j] {
      assert InTable(b, i, NEW_BUCKETS) && NewSlotOk(s.hash, s.info, s.newTable, b, i);
      assert InTable(b, j, NEW_BUCKETS) && NewSlotOk(s.hash, s.info, s.newTable, b, j);
    }
    Partition(s, order, EMPTY);
  }

  /** The file lists exactly the slots of the new table, each once. */
  lemma SavedEntries(s: Book, order: seq<int>, asmap: nat)
    requires Consistent(s) && Enumerates(order, s.info)
    ensures DistinctPairs(EntriesOf(Saved(s, order, asmap)))
    ensures forall x :: x in EntriesOf(Saved(s, order, asmap)) <==> Sits(s, NewIds(s.info, order), x.0, x.1)
  {
    var f, ids := Saved(s, order, asmap), NewIds(s.info, order);
    IdsDistinct(s.info, order);
    forall b | 0 <= b < NEW_BUCKETS ensures Distinct(f.buckets[b]) {
      SavedRow(s, order, b);
      RowDistinct(s.newTable[b], ids, BUCKET_SIZE);
    }
    FlatDistinct(f.buckets, |ids|, NEW_BUCKETS);
    forall x ensures x in EntriesOf(f) <==> Sits(s, ids, x.0, x.1) {
      FlatHas(f.buckets, |ids|, NEW_BUCKETS, x);
      if 0 <= x.0 < NEW_BUCKETS {
        SavedSlot(s, order, x.0, x.1);
      }
    }
  }

  function EntriesOf(f: File): seq<(int, int)> {
    Flat(f.buckets, |f.new_|, |f.buckets|)
  }

  lemma SavedSlot(s: Book, order: seq<int>, b: nat, k: int)
    requires Consistent(s) && Enumerates(order, s.info) && b < NEW_BUCKETS
    ensures var ids := NewIds(s.info, order);
            0 <= k < |ids| ==> (k in RowIndexes(s.newTable[b], ids, BUCKET_SIZE) <==> Sits(s, ids, b, k))
  {
    var row, ids := s.newTable[b], NewIds(s.info, order);
    SavedRow(s, order, b);
    IdsDistinct(s.info, order);
    RowHas(row, ids, BUCKET_SIZE, k);
    if 0 <= k < |ids| {
      Partition(s, order, ids[k]);
      forall i | 0 <= i < BUCKET_SIZE && row[i] == ids[k] ensures Sits(s, ids, b, k) {
        assert InTable(b, i, NEW_BUCKETS) && NewSlotOk(s.hash, s.info, s.newTable, b, i);
        assert ids[k] in ids;
      }
    }
  }

  /** Entry k of one book is a copy of entry all[k] of another. */
  ghost predicate CopyAt(s: Book, all: seq<int>, t: Book, k: nat)
    requires k < |all|
  {
    && all[k] in s.info && k in t.info
    && t.info[k] == s.info[all[k]].(lastTry := 0, lastCount := 0,
                                    refCount := t.info[k].refCount, randomPos := t.info[k].randomPos)
  }

  ghost predicate Copied(s: Book, all: seq<int>, t: Book) {
    && t.hash == s.hash && Numbered(t.info, |all|) && Distinct(all)
    && forall k: nat {:trigger CopyAt(s, all, t, k)} :: k < |all| ==> CopyAt(s, all, t, k)
  }

  /** A filled slot was filled by one of the first j bucket entries. */
  ghost predicate OriginAt(t: Book, entries: seq<(int, int)>, j: nat, b: int, p: int)
    requires Shape(t.newTable, NEW_BUCKETS) && InTable(b, p, NEW_BUCKETS) && j <= |entries|
  {
    t.newTable[b][p] != EMPTY ==> (b, t.newTable[b][p]) in entries[..j]
  }

  /** A bucket entry is back in its slot. */
  ghost predicate BackAt(t: Book, entries: seq<(int, int)>, i: nat)
    requires Shape(t.newTable, NEW_BUCKETS) && i < |entries|
  {
    var (b, k) := entries[i];
    0 <= b < NEW_BUCKETS && k in t.info && t.newTable[b][Position(t.hash, true, b, t.info[k].addr)] == k
  }

  /** The first j bucket entries are back, and nothing else has changed. */
  ghost predicate Restoring(base: Book, t: Book, entries: seq<(int, int)>, j: nat)
    requires j <= |entries|
  {
    && t == base.(newTable := t.newTable, info := t.info) && Shape(t.newTable, NEW_BUCKETS)
    && t.info.Keys == base.info.Keys
    && (forall id {:trigger t.info[id]} ::
         id in t.info ==> t.info[id] == base.info[id].(refCount := t.info[id].refCount))
    && (forall b, p {:trigger OriginAt(t, entries, j, b, p)} ::
         InTable(b, p, NEW_BUCKETS) ==> OriginAt(t, entries, j, b, p))
    && (forall i: nat {:trigger BackAt(t, entries, i)} :: i < j ==> BackAt(t, entries, i))
  }

  /** A slot that another book fills with entry k, entry k of this one does not hold twice. */
  lemma SlotStillFree(s: Book, all: seq<int>, ids: seq<int>, t: Book, entries: seq<(int, int)>, j: nat)
    requires j < |entries| && DistinctPairs(entries) && ids <= all && Copied(s, all, t)
    requires NewOk(t.hash, t.info, t.newTable)
    requires Shape(s.newTable, NEW_BUCKETS) && forall x :: x in entries <==> Sits(s, ids, x.0, x.1)
    requires forall b, p {:trigger OriginAt(t, entries, j, b, p)} ::
             InTable(b, p, NEW_BUCKETS) ==> OriginAt(t, entries, j, b, p)
    ensures var (b, k) := entries[j];
            0 <= b < NEW_BUCKETS && 0 <= k < |ids| && k in t.info &&
              t.newTable[b][Position(t.hash, true, b, t.info[k].addr)] == EMPTY
  {
    var x := entries[j];
    var b, k := x.0, x.1;
    assert x in entries && Sits(s, ids, b, k);
    assert CopyAt(s, all, t, k);
    var p := Position(t.hash, true, b, t.info[k].addr);
    assert InTable(b, p, NEW_BUCKETS) && OriginAt(t, entries, j, b, p) && NewSlotOk(t.hash, t.info, t.newTable, b, p);
    var other := t.newTable[b][p];
    NotEarlier(entries, j);
    if other != EMPTY {
      var y := (b, other);
      assert y in entries[..j] && y in entries && Sits(s, ids, b, other);
      SameSitter(s, all, ids, t, b, p, k, other);
    }
  }

  lemma NotEarlier(entries: seq<(int, int)>, j: nat)
    requires j < |entries| && DistinctPairs(entries)
    ensures entries[j] !in entries[..j]
  {
  }

  /** One slot of a bucket belongs to one entry. */
  lemma SameSitter(s: Book, all: seq<int>, ids: seq<int>, t: Book, b: int, p: int, j: int, k: int)
    requires Shape(s.newTable, NEW_BUCKETS) && ids <= all && Copied(s, all, t) && Sits(s, ids, b, j)
    requires Sits(s, ids, b, k)
    requires j in t.info && k in t.info && Position(t.hash, true, b, t.info[j].addr) == p
    requires Position(t.hash, true, b, t.info[k].addr) == p
    ensures j == k
  {
    assert CopyAt(s, all, t, j) && CopyAt(s, all, t, k);
    assert all[j] == ids[j] == s.newTable[b][p] == ids[k] == all[k];
  }

  lemma Smaller(a: set<int>, b: set<int>, x: int)
    requires a <= b && x in b && x !in a
    ensures |a| < |b|
  {
    assert b == a + (b - a);
    assert x in b - a;
  }

  /** An entry that is still to get a slot back has fewer references than it had. */
  lemma RefsLeft(s: Book, all: seq<int>, ids: seq<int>, t: Book, entries: seq<(int, int)>, j: nat, b: int, k: int)
    requires j < |entries| && entries[j] == (b, k) && ids <= all && Copied(s, all, t)
    requires NewOk(t.hash, t.info, t.newTable) && NewOk(s.hash, s.info, s.newTable)
    requires forall x :: x in entries <==> Sits(s, ids, x.0, x.1)
    requires forall c, p {:trigger OriginAt(t, entries, j, c, p)} ::
             InTable(c, p, NEW_BUCKETS) ==> OriginAt(t, entries, j, c, p)
    requires 0 <= b < NEW_BUCKETS && 0 <= k < |ids| && k in t.info
    requires t.newTable[b][Position(t.hash, true, b, t.info[k].addr)] == EMPTY
    ensures t.info[k].refCount < MAX_REFERENCES
  {
    assert (b, k) in entries && Sits(s, ids, b, k);
    assert CopyAt(s, all, t, k);
    var a := t.info[k].addr;
    var mine, theirs := Holding(t.hash, t.newTable, k, a), Holding(s.hash, s.newTable, ids[k], a);
    forall c | c in mine ensures c in theirs {
      assert InTable(c, Position(t.hash, true, c, a), NEW_BUCKETS);
      assert OriginAt(t, entries, j, c, Position(t.hash, true, c, a));
      assert (c, k) in entries && Sits(s, ids, c, k);
    }
    assert b in theirs && b !in mine;
    Smaller(mine, theirs, b);
    assert NewEntryOk(t.hash, t.info, t.newTable, k) && NewEntryOk(s.hash, s.info, s.newTable, ids[k]);
  }

  lemma RestoringStep(base: Book, t: Book, entries: seq<(int, int)>, j: nat, b: nat, k: int)
    requires j < |entries| && Restoring(base, t, entries, j) && entries[j] == (b, k) && b < NEW_BUCKETS && k in t.info
    requires k != EMPTY
    requires t.newTable[b][Position(t.hash, true, b, t.info[k].addr)] == EMPTY && EMPTY !in t.info
    ensures Restoring(base, Slotted(t, b, k), entries, j + 1)
  {
    var u := Slotted(t, b, k);
    forall c, p | InTable(c, p, NEW_BUCKETS) ensures OriginAt(u, entries, j + 1, c, p) {
      assert OriginAt(t, entries, j, c, p);
      assert entries[..j + 1] == entries[..j] + [entries[j]];
    }
    forall i: nat | i < j + 1 ensures BackAt(u, entries, i) {
      assert i < j ==> BackAt(t, entries, i);
    }
  }

  /** A bucket entry of the file finds its slot free and fills it. */
  lemma ApplyStep(s: Book, all: seq<int>, ids: seq<int>, base: Book, t: Book, entries: seq<(int, int)>, j: nat,
                  valid: Service -> bool)
    requires j < |entries| && DistinctPairs(entries) && ids <= all && Copied(s, all, t)
    requires NewOk(s.hash, s.info, s.newTable)
    requires forall x :: x in entries <==> Sits(s, ids, x.0, x.1)
    requires Pending(t) && Restoring(base, t, entries, j)
    requires forall k :: 0 <= k < |ids| && ids[k] in s.info ==> valid(s.info[ids[k]].addr) && !s.info[ids[k]].inTried
    ensures var u := Apply(t, entries[j].0, entries[j].1, true, valid);
            Pending(u) && Restoring(base, u, entries, j + 1) && Copied(s, all, u)
  {
    var b, k := entries[j].0, entries[j].1;
    SlotStillFree(s, all, ids, t, entries, j);
    RefsLeft(s, all, ids, t, entries, j, b, k);
    assert entries[j] in entries && Sits(s, ids, b, k);
    assert CopyAt(s, all, t, k);
    SlottedKeeps(t, b, k, t.info.Keys, {});
    RestoringStep(base, t, entries, j, b, k);
    var u := Slotted(t, b, k);
    assert Apply(t, b, k, true, valid) == u;
    assert u.info.Keys == t.info.Keys && Referenced(u.info, u.info.Keys);
    forall i: nat | i < |all| ensures CopyAt(s, all, u, i) {
      assert CopyAt(s, all, t, i);
    }
  }

  lemma {:induction false} AppliedKeeps(s: Book, all: seq<int>, ids: seq<int>, base: Book, entries: seq<(int, int)>,
                                        valid: Service -> bool, n: nat)
    requires n <= |entries| && DistinctPairs(entries) && ids <= all && Copied(s, all, base)
    requires NewOk(s.hash, s.info, s.newTable)
    requires forall x :: x in entries <==> Sits(s, ids, x.0, x.1)
    requires Pending(base) && base.newTable == BlankTable(NEW_BUCKETS)
    requires forall k :: 0 <= k < |ids| && ids[k] in s.info ==> valid(s.info[ids[k]].addr) && !s.info[ids[k]].inTried
    ensures var u := Applied(base, entries, true, valid, n);
            Pending(u) && Restoring(base, u, entries, n) && Copied(s, all, u)
  {
    if n > 0 {
      AppliedKeeps(s, all, ids, base, entries, valid, n - 1);
      ApplyStep(s, all, ids, base, Applied(base, entries, true, valid, n - 1), entries, n - 1, valid);
    }
  }

  // ----- The round trip -----

  /** One book is the other with entry all[k] renamed to k: the same records, tables,
      slots, reference counts and counters. */
  ghost predicate SameUpToNames(s: Book, t: Book, all: seq<int>) {
    && Copied(s, all, t) && (forall id :: id in s.info <==> id in all) && AllCopied(s, t, all)
    && NewNamed(s, t, all) && TriedNamed(s, t, all)
    && t.nNew == s.nNew && t.nTried == s.nTried && forall net: nat :: CountsOn(t.nets, net) == CountsOn(s.nets, net)
  }

  ghost predicate NameAt(all: seq<int>, table: Table, table': Table, b: int, p: int)
    requires 0 <= b < |table| && 0 <= b < |table'| && 0 <= p < |table[b]| && 0 <= p < |table'[b]|
  {
    if table[b][p] == EMPTY then table'[b][p] == EMPTY
    else 0 <= table'[b][p] < |all| && all[table'[b][p]] == table[b][p]
  }

  lemma CopiedRecords(s: Book, order: seq<int>, f: File, first: Book, base: Book)
    requires Consistent(s) && Enumerates(order, s.info) && f == Saved(s, order, f.asmap)
    requires LoadedNew(first, f.new_, |f.new_|) && LoadedTried(base, first, f.tried, |f.tried|) && base.hash == s.hash
    ensures Copied(s, NewIds(s.info, order) + TriedIds(s.info, order), base)
  {
    var n, t := NewIds(s.info, order), TriedIds(s.info, order);
    var all := n + t;
    AllDistinct(s, order);
    forall k: nat | k < |all| ensures CopyAt(s, all, base, k) {
      assert all[k] in all;
      Partition(s, order, all[k]);
      if k < |n| {
        assert EntryAt(first, k, f.new_[k], false);
        assert all[k] in n;
      } else {
        assert TriedAt(base, first.idCount, f.tried, k - |n|);
        assert all[k] in t;
      }
    }
  }

  /** A slot of the new table that was filled is filled with the renamed entry, and no other is. */
  lemma NewNames(s: Book, order: seq<int>, base: Book, u: Book, entries: seq<(int, int)>, b: nat, p: nat)
    requires Consistent(s) && Enumerates(order, s.info) && InTable(b, p, NEW_BUCKETS)
    requires forall x :: x in entries <==> Sits(s, NewIds(s.info, order), x.0, x.1)
    requires Copied(s, NewIds(s.info, order) + TriedIds(s.info, order), u) && NewOk(u.hash, u.info, u.newTable)
    requires Restoring(base, u, entries, |entries|)
    ensures NameAt(NewIds(s.info, order) + TriedIds(s.info, order), s.newTable, u.newTable, b, p)
  {
    var ids, all := NewIds(s.info, order), NewIds(s.info, order) + TriedIds(s.info, order);
    assert OriginAt(u, entries, |entries|, b, p) && NewSlotOk(u.hash, u.info, u.newTable, b, p);
    assert entries[..|entries|] == entries;
    var id, k := s.newTable[b][p], u.newTable[b][p];
    if id != EMPTY {
      SavedRow(s, order, b);
      var j := IndexOf(ids, id);
      assert NewSlotOk(s.hash, s.info, s.newTable, b, p) && CopyAt(s, all, u, j);
      var x := (b as int, j as int);
      assert Sits(s, ids, b, j) && x in entries;
      var i :| 0 <= i < |entries| && entries[i] == x;
      assert BackAt(u, entries, i);
    }
    if k != EMPTY {
      FilledFrom(s, order, base, u, entries, b, p);
    }
  }

  lemma FilledFrom(s: Book, order: seq<int>, base: Book, u: Book, entries: seq<(int, int)>, b: nat, p: nat)
    requires Consistent(s) && Enumerates(order, s.info) && InTable(b, p, NEW_BUCKETS)
    requires forall x :: x in entries <==> Sits(s, NewIds(s.info, order), x.0, x.1)
    requires Copied(s, NewIds(s.info, order) + TriedIds(s.info, order), u) && NewOk(u.hash, u.info, u.newTable)
    requires Restoring(base, u, entries, |entries|) && u.newTable[b][p] != EMPTY
    ensures s.newTable[b][p] != EMPTY
  {
    var ids, all, k := NewIds(s.info, order), NewIds(s.info, order) + TriedIds(s.info, order), u.newTable[b][p];
    assert OriginAt(u, entries, |entries|, b, p) && NewSlotOk(u.hash, u.info, u.newTable, b, p);
    assert entries[..|entries|] == entries;
    var x := (b as int, k);
    assert x in entries && Sits(s, ids, b, k);
    assert CopyAt(s, all, u, k);
  }

  /** A slot of the tried table likewise: it is determined by the addresses. */
  lemma TriedNames(s: Book, all: seq<int>, u: Book, b: nat, p: nat)
    requires TriedOk(s.hash, s.info, s.triedTable) && TriedOk(u.hash, u.info, u.triedTable)
    requires InTable(b, p, TRIED_BUCKETS)
    requires Copied(s, all, u) && (forall id :: id in s.info <==> id in all) && EMPTY !in s.info && EMPTY !in u.info
    ensures NameAt(all, s.triedTable, u.triedTable, b, p)
  {
    assert TriedSlotOk(s.hash, s.info, s.triedTable, b, p) && TriedSlotOk(u.hash, u.info, u.triedTable, b, p);
    var id, k := s.triedTable[b][p], u.triedTable[b][p];
    if id != EMPTY {
      assert id in all;
      var j :| 0 <= j < |all| && all[j] == id;
      assert CopyAt(s, all, u, j) && TriedEntryOk(u.hash, u.info, u.triedTable, j);
    }
    if k != EMPTY {
      TriedFrom(s, all, u, b, p);
    }
  }

  lemma TriedFrom(s: Book, all: seq<int>, u: Book, b: nat, p: nat)
    requires TriedOk(s.hash, s.info, s.triedTable) && TriedOk(u.hash, u.info, u.triedTable)
    requires InTable(b, p, TRIED_BUCKETS)
    requires Copied(s, all, u) && EMPTY !in s.info && u.triedTable[b][p] != EMPTY
    ensures s.triedTable[b][p] != EMPTY
  {
    var k := u.triedTable[b][p];
    assert TriedSlotOk(u.hash, u.info, u.triedTable, b, p) && CopyAt(s, all, u, k);
    var was := all[k];
    assert TriedEntryOk(s.hash, s.info, s.triedTable, was);
  }

  /** The reference counts come out as they were. */
  lemma SameReferences(s: Book, all: seq<int>, u: Book, k: nat)
    requires NewOk(s.hash, s.info, s.newTable) && NewOk(u.hash, u.info, u.newTable) && Copied(s, all, u) && k < |all|
    requires EMPTY !in s.info
    requires forall b, p {:trigger NameAt(all, s.newTable, u.newTable, b, p)} ::
               InTable(b, p, NEW_BUCKETS) ==> NameAt(all, s.newTable, u.newTable, b, p)
    ensures k in u.info && all[k] in s.info && u.info[k].refCount == s.info[all[k]].refCount
  {
    assert CopyAt(s, all, u, k);
    var id, a := all[k], u.info[k].addr;
    assert NewEntryOk(u.hash, u.info, u.newTable, k) && NewEntryOk(s.hash, s.info, s.newTable, id);
    var mine, theirs := Holding(u.hash, u.newTable, k, a), Holding(s.hash, s.newTable, id, a);
    forall b | 0 <= b < NEW_BUCKETS ensures b in mine <==> b in theirs {
      assert InTable(b, Position(u.hash, true, b, a), NEW_BUCKETS);
      assert NameAt(all, s.newTable, u.newTable, b, Position(u.hash, true, b, a));
    }
    assert mine == theirs;
  }

  // ----- Counting along a list -----

  ghost function SumOver(info: map<int, AddrInfo>, ids: seq<int>, w: (int, AddrInfo) -> int): int
    requires forall i :: 0 <= i < |ids| ==> ids[i] in info
  {
    if ids == [] then 0 else SumOver(info, ids[..|ids| - 1], w) + w(ids[|ids| - 1], info[ids[|ids| - 1]])
  }

  lemma {:induction false} TotalIsSum(info: map<int, AddrInfo>, ids: seq<int>, w: (int, AddrInfo) -> int)
    requires Distinct(ids) && forall id :: id in info <==> id in ids
    ensures forall i :: 0 <= i < |ids| ==> ids[i] in info
    ensures Total(info, w) == SumOver(info, ids, w)
  {
    assert forall i :: 0 <= i < |ids| ==> ids[i] in ids;
    if ids == [] {
      Inhabited(info.Keys);
    } else {
      var most, last := ids[..|ids| - 1], ids[|ids| - 1];
      assert last in info;
      TotalRemove(info, w, last);
      var rest := info - {last};
      forall id ensures id in rest <==> id in most {
        assert id in ids <==> id in most || id == last;
        assert last !in most;
      }
      TotalIsSum(rest, most, w);
      SumSame(info, rest, most, w);
    }
  }

  lemma {:induction false} SumSame(info: map<int, AddrInfo>, rest: map<int, AddrInfo>, ids: seq<int>,
                                   w: (int, AddrInfo) -> int)
    requires forall i :: 0 <= i < |ids| ==> ids[i] in info && ids[i] in rest && info[ids[i]] == rest[ids[i]]
    ensures SumOver(info, ids, w) == SumOver(rest, ids, w)
  {
    if ids != [] {
      SumSame(info, rest, ids[..|ids| - 1], w);
    }
  }

  /** 0, 1, ..., n - 1. */
  function Numbers(n: nat): (r: seq<int>)
    ensures |r| == n && forall i :: 0 <= i < n ==> r[i] == i
  {
    seq(n, i => i)
  }

  lemma {:induction false} SumCopied(s: Book, all: seq<int>, u: Book, w: (int, AddrInfo) -> int, n: nat)
    requires n <= |all| && Copied(s, all, u)
    requires forall i: nat :: i < n ==> i in u.info && all[i] in s.info && w(i, u.info[i]) == w(all[i], s.info[all[i]])
    ensures (forall i :: 0 <= i < n ==> all[..n][i] in s.info && Numbers(n)[i] in u.info)
         && SumOver(u.info, Numbers(n), w) == SumOver(s.info, all[..n], w)
  {
    if n > 0 {
      SumCopied(s, all, u, w, n - 1);
      assert Numbers(n)[..n - 1] == Numbers(n - 1) && all[..n][..n - 1] == all[..n - 1];
    }
  }

  /** A weight that copies share has the same total in both books. */
  lemma TotalCopied(s: Book, all: seq<int>, u: Book, w: (int, AddrInfo) -> int)
    requires Copied(s, all, u) && (forall id :: id in s.info <==> id in all)
    requires forall i: nat ::
             i < |all| ==> i in u.info && all[i] in s.info && w(i, u.info[i]) == w(all[i], s.info[all[i]])
    ensures Total(u.info, w) == Total(s.info, w)
  {
    SumCopied(s, all, u, w, |all|);
    assert all[..|all|] == all;
    TotalIsSum(s.info, all, w);
    forall id ensures id in u.info <==> id in Numbers(|all|) {
      assert 0 <= id < |all| ==> Numbers(|all|)[id] == id;
    }
    TotalIsSum(u.info, Numbers(|all|), w);
  }

  lemma SameCounts(s: Book, all: seq<int>, u: Book)
    requires Copied(s, all, u) && (forall id :: id in s.info <==> id in all)
    requires CountsOk(s.info, s.nNew, s.nTried, s.nets) && CountsOk(u.info, u.nNew, u.nTried, u.nets)
    ensures u.nNew == s.nNew && u.nTried == s.nTried
    ensures forall net: nat :: CountsOn(u.nets, net) == CountsOn(s.nets, net)
  {
    forall i: nat | i < |all|
      ensures i in u.info && all[i] in s.info && u.info[i].inTried == s.info[all[i]].inTried
      ensures u.info[i].addr == s.info[all[i]].addr
    {
      assert CopyAt(s, all, u, i);
    }
    TotalCopied(s, all, u, IsNew);
    TotalCopied(s, all, u, IsTried);
    forall net: nat ensures CountsOn(u.nets, net) == CountsOn(s.nets, net) {
      TotalCopied(s, all, u, NewOn(net));
      TotalCopied(s, all, u, TriedOn(net));
    }
  }

  lemma {:induction false} NothingPruned(t: Book, ids: seq<int>, n: nat)
    requires n <= |ids| && forall id :: id in t.info ==> t.info[id].inTried || t.info[id].refCount > 0
    ensures Pruned(t, ids, n) == t
  {
    if n > 0 {
      NothingPruned(t, ids, n - 1);
    }
  }

  ghost predicate NewNamed(s: Book, u: Book, all: seq<int>) {
    && Shape(s.newTable, NEW_BUCKETS) && Shape(u.newTable, NEW_BUCKETS)
    && forall b, p {:trigger NameAt(all, s.newTable, u.newTable, b, p)} ::
         InTable(b, p, NEW_BUCKETS) ==> NameAt(all, s.newTable, u.newTable, b, p)
  }

  ghost predicate TriedNamed(s: Book, u: Book, all: seq<int>) {
    && Shape(s.triedTable, TRIED_BUCKETS) && Shape(u.triedTable, TRIED_BUCKETS)
    && forall b, p {:trigger NameAt(all, s.triedTable, u.triedTable, b, p)} ::
         InTable(b, p, TRIED_BUCKETS) ==> NameAt(all, s.triedTable, u.triedTable, b, p)
  }

  ghost predicate AllCopied(s: Book, u: Book, all: seq<int>) {
    forall k: nat {:trigger CopyAt(s, all, u, k)} ::
      k < |all| ==> CopyAt(s, all, u, k) && u.info[k].refCount == s.info[all[k]].refCount
  }

  lemma RestoredNew(s: Book, order: seq<int>, base: Book, u: Book, entries: seq<(int, int)>, all: seq<int>)
    requires Consistent(s) && Enumerates(order, s.info)
    requires forall x :: x in entries <==> Sits(s, NewIds(s.info, order), x.0, x.1)
    requires all == NewIds(s.info, order) + TriedIds(s.info, order) && Copied(s, all, u) && Pending(u)
    requires Restoring(base, u, entries, |entries|)
    ensures NewNamed(s, u, all) && AllCopied(s, u, all)
  {
    forall b, p | InTable(b, p, NEW_BUCKETS) ensures NameAt(all, s.newTable, u.newTable, b, p) {
      NewNames(s, order, base, u, entries, b, p);
    }
    forall k: nat | k < |all| ensures CopyAt(s, all, u, k) && u.info[k].refCount == s.info[all[k]].refCount {
      SameReferences(s, all, u, k);
    }
  }

  lemma RestoredTried(s: Book, u: Book, all: seq<int>)
    requires Consistent(s) && Pending(u) && Copied(s, all, u) && forall id :: id in s.info <==> id in all
    ensures TriedNamed(s, u, all)
    ensures u.nNew == s.nNew && u.nTried == s.nTried
    ensures forall net: nat :: CountsOn(u.nets, net) == CountsOn(s.nets, net)
  {
    forall b, p | InTable(b, p, TRIED_BUCKETS) ensures NameAt(all, s.triedTable, u.triedTable, b, p) {
      TriedNames(s, all, u, b, p);
    }
    assert s.info - {} == s.info && u.info - {} == u.info;
    SameCounts(s, all, u);
  }

  /** Restored slots and copied records make the books the same up to names. */
  lemma RestoredSame(s: Book, order: seq<int>, base: Book, u: Book, entries: seq<(int, int)>)
    requires Consistent(s) && Enumerates(order, s.info)
    requires forall x :: x in entries <==> Sits(s, NewIds(s.info, order), x.0, x.1)
    requires Copied(s, NewIds(s.info, order) + TriedIds(s.info, order), u) && Pending(u)
    requires Restoring(base, u, entries, |entries|)
    ensures SameUpToNames(s, u, NewIds(s.info, order) + TriedIds(s.info, order))
  {
    var all := NewIds(s.info, order) + TriedIds(s.info, order);
    forall id ensures id in s.info <==> id in all {
      Partition(s, order, id);
    }
    RestoredNew(s, order, base, u, entries, all);
    RestoredTried(s, u, all);
  }

  /** A book that is the same as a consistent one has all its references. */
  lemma SameIsConsistent(s: Book, u: Book, all: seq<int>)
    requires Consistent(s) && Pending(u) && SameUpToNames(s, u, all) && u.collisions == {}
    ensures Consistent(u) && forall id :: id in u.info ==> u.info[id].inTried || u.info[id].refCount > 0
  {
    forall id | id in u.info ensures u.info[id].inTried || u.info[id].refCount > 0 {
      assert CopyAt(s, all, u, id);
      var was := all[id];
      assert was in s.info;
    }
  }

  /** Writing a consistent book of valid addresses and loading it with the same
      address map gives the same book up to the names of its entries, whatever the
      order in which entries are written and looked through. */
  lemma RoundTrip(s: Book, order: seq<int>, asmap: nat, valid: Service -> bool, look: seq<int>)
    requires Consistent(s) && Enumerates(order, s.info) && forall id :: id in s.info ==> valid(s.info[id].addr)
    ensures var t := Loaded(Saved(s, order, asmap), asmap, valid, look);
            Consistent(t) && SameUpToNames(s, t, NewIds(s.info, order) + TriedIds(s.info, order))
  {
    var f := Saved(s, order, asmap);
    SoundSaved(s, order, asmap, valid);
    SoundNew(s.hash, f.new_, f.tried, valid);
    var first := WithNew(f.hash, f.new_, |f.new_|);
    WithNewLoaded(f.hash, f.new_, |f.new_|);
    WithNewPending(f.hash, f.new_, |f.new_|);
    var base := WithTried(first, f.tried, valid, |f.tried|);
    WithTriedKeeps(first, f.new_, f.tried, valid, |f.tried|);
    CopiedRecords(s, order, f, first, base);
    SlotsBack(s, order, asmap, valid, base, look);
  }

  lemma SlotsBack(s: Book, order: seq<int>, asmap: nat, valid: Service -> bool, base: Book, look: seq<int>)
    requires Consistent(s) && Enumerates(order, s.info) && forall id :: id in s.info ==> valid(s.info[id].addr)
    requires Pending(base) && base.newTable == BlankTable(NEW_BUCKETS) && base.collisions == {}
    requires Copied(s, NewIds(s.info, order) + TriedIds(s.info, order), base)
    ensures var entries := EntriesOf(Saved(s, order, asmap));
            var t := Pruned(Applied(base, entries, true, valid, |entries|), look, |look|);
            Consistent(t) && SameUpToNames(s, t, NewIds(s.info, order) + TriedIds(s.info, order))
  {
    var ids, all, entries :=
      NewIds(s.info, order), NewIds(s.info, order) + TriedIds(s.info, order), EntriesOf(Saved(s, order, asmap));
    SavedEntries(s, order, asmap);
    forall k | 0 <= k < |ids| && ids[k] in s.info ensures valid(s.info[ids[k]].addr) && !s.info[ids[k]].inTried {
      Partition(s, order, ids[k]);
      var id := ids[k];
      assert id in ids;
    }
    AppliedKeeps(s, all, ids, base, entries, valid, |entries|);
    var u := Applied(base, entries, true, valid, |entries|);
    RestoredSame(s, order, base, u, entries);
    SameIsConsistent(s, u, all);
    NothingPruned(u, look, |look|);
  }
}
