/** Loading any file, whatever its buckets say and whether or not the address map is still the
    same: what it makes if its records have different addresses, and what holds even if not. */
module AddrLoad {
  import opened AddrBook
  import opened AddrFile

  /** Entry k comes from new record k. */
  ghost predicate FromNew(t: Book, new_: seq<Record>, k: int) {
    && 0 <= k < |new_| && k in t.info
    && t.info[k] == EntryOf(new_[k], t.info[k].randomPos).(refCount := t.info[k].refCount)
  }

  ghost predicate FromTriedAt(t: Book, tried: seq<Record>, id: int, i: nat) {
    && i < |tried| && id in t.info
    && t.info[id] == EntryOf(tried[i], t.info[id].randomPos).(inTried := true, refCount := t.info[id].refCount)
  }

  /** An entry comes from one of the first n tried records. */
  ghost predicate FromTried(t: Book, tried: seq<Record>, n: nat, id: int) {
    exists i: nat :: i < n && FromTriedAt(t, tried, id, i)
  }

  /** Every entry comes from a record. */
  ghost predicate Sourced(t: Book, new_: seq<Record>, tried: seq<Record>, n: nat) {
    forall id {:trigger FromNew(t, new_, id)} {:trigger FromTried(t, tried, n, id)} ::
      id in t.info ==> FromNew(t, new_, id) || FromTried(t, tried, n, id)
  }

  /** A valid tried record is there, or its slot is taken. */
  ghost predicate Seated(t: Book, tried: seq<Record>, valid: Service -> bool, n: nat)
    requires Shape(t.triedTable, TRIED_BUCKETS) && n <= |tried|
  {
    forall i :: 0 <= i < n && valid(tried[i].addr) ==> TriedSlot(t.hash, t.triedTable, tried[i].addr) != EMPTY
  }

  // ----- The tried entries -----

  ghost predicate TriedPart(t: Book, new_: seq<Record>, tried: seq<Record>, valid: Service -> bool, n: nat)
    requires n <= |tried|
  {
    && Pending(t) && t.collisions == {} && t.newTable == BlankTable(NEW_BUCKETS)
    && (forall k: nat {:trigger FromNew(t, new_, k)} :: k < |new_| ==> FromNew(t, new_, k))
    && Sourced(t, new_, tried, n) && Seated(t, tried, valid, n) && |new_| <= t.idCount
  }

  lemma AddressIsNew(t: Book, new_: seq<Record>, tried: seq<Record>, n: nat)
    requires n < |tried| && DistinctRecords(new_ + tried) && Sourced(t, new_, tried, n)
    ensures forall id :: id in t.info ==> t.info[id].addr != tried[n].addr
  {
    var all := new_ + tried;
    forall id | id in t.info ensures t.info[id].addr != tried[n].addr {
      assert all[|new_| + n] == tried[n];
      if FromNew(t, new_, id) {
        assert all[id] == new_[id];
      } else {
        assert FromTried(t, tried, n, id);
        var i: nat :| i < n && FromTriedAt(t, tried, id, i);
        assert all[|new_| + i] == tried[i];
      }
    }
  }

  lemma SourcedOn(t: Book, u: Book, new_: seq<Record>, tried: seq<Record>, n: nat, m: nat)
    requires Sourced(t, new_, tried, n) && n <= m && u.info.Keys <= t.info.Keys
    requires forall id :: id in u.info ==>
               u.info[id] == t.info[id].(refCount := u.info[id].refCount, randomPos := u.info[id].randomPos)
    ensures Sourced(u, new_, tried, m)
  {
    forall id | id in u.info ensures FromNew(u, new_, id) || FromTried(u, tried, m, id) {
      assert id in t.info;
      if !FromNew(t, new_, id) {
        assert FromTried(t, tried, n, id);
        var i: nat :| i < n && FromTriedAt(t, tried, id, i);
        assert FromTriedAt(u, tried, id, i);
      }
    }
  }

  lemma AddTriedSourced(t: Book, new_: seq<Record>, tried: seq<Record>, n: nat)
    requires n < |tried| && Sourced(t, new_, tried, n) && Shape(t.triedTable, TRIED_BUCKETS) && t.idCount !in t.info
    ensures Sourced(AddTried(t, tried[n]), new_, tried, n + 1)
  {
    var u := AddTried(t, tried[n]);
    forall id | id in u.info ensures FromNew(u, new_, id) || FromTried(u, tried, n + 1, id) {
      if id == t.idCount {
        assert FromTriedAt(u, tried, id, n);
      } else if !FromNew(t, new_, id) {
        assert FromTried(t, tried, n, id);
        var i: nat :| i < n && FromTriedAt(t, tried, id, i);
        assert FromTriedAt(u, tried, id, i);
      }
    }
  }

  lemma AddTriedSeated(t: Book, tried: seq<Record>, valid: Service -> bool, n: nat)
    requires n < |tried| && Shape(t.triedTable, TRIED_BUCKETS) && Seated(t, tried, valid, n) && 0 <= t.idCount
    ensures Seated(AddTried(t, tried[n]), tried, valid, n + 1)
  {
  }

  lemma {:induction false} TriedAny(base: Book, new_: seq<Record>, tried: seq<Record>, valid: Service -> bool, n: nat)
    requires n <= |tried| && DistinctRecords(new_ + tried) && LoadedNew(base, new_, |new_|) && Pending(base)
    ensures TriedPart(WithTried(base, tried, valid, n), new_, tried, valid, n)
  {
    if n == 0 {
      NewPart(base, new_, tried, valid);
    } else {
      TriedAny(base, new_, tried, valid, n - 1);
      TriedAnyStep(WithTried(base, tried, valid, n - 1), new_, tried, valid, n - 1, WithTried(base, tried, valid, n));
    }
  }

  lemma NewPart(base: Book, new_: seq<Record>, tried: seq<Record>, valid: Service -> bool)
    requires LoadedNew(base, new_, |new_|) && Pending(base)
    ensures TriedPart(base, new_, tried, valid, 0)
  {
    forall k: nat | k < |new_| ensures FromNew(base, new_, k) {
      assert EntryAt(base, k, new_[k], false);
    }
  }

  lemma TriedAnyStep(t: Book, new_: seq<Record>, tried: seq<Record>, valid: Service -> bool, n: nat, u: Book)
    requires n < |tried| && DistinctRecords(new_ + tried) && TriedPart(t, new_, tried, valid, n)
    requires u == if valid(tried[n].addr) && TriedSlot(t.hash, t.triedTable, tried[n].addr) == EMPTY
                  then AddTried(t, tried[n]) else t
    ensures TriedPart(u, new_, tried, valid, n + 1)
  {
    var r := tried[n];
    if valid(r.addr) && TriedSlot(t.hash, t.triedTable, r.addr) == EMPTY {
      AddressIsNew(t, new_, tried, n);
      AddTriedPending(t, r);
      AddTriedSourced(t, new_, tried, n);
      AddTriedSeated(t, tried, valid, n);
      forall k: nat | k < |new_| ensures FromNew(AddTried(t, r), new_, k) {
        assert FromNew(t, new_, k);
      }
    } else {
      SourcedOn(t, t, new_, tried, n, n + 1);
    }
  }

  // ----- The slots of the new table -----

  /** The slot an entry has under its own source. */
  function OwnSlot(t: Book, id: int): int
    requires Shape(t.newTable, NEW_BUCKETS) && id in t.info
  {
    var b := NewBucket(t.hash, t.info[id].addr, t.info[id].source);
    t.newTable[b][Position(t.hash, true, b, t.info[id].addr)]
  }

  /** The books t and u differ in slots of the new table only, and none of t's is emptied. */
  ghost predicate Fuller(t: Book, u: Book) {
    && Shape(t.newTable, NEW_BUCKETS) && Shape(u.newTable, NEW_BUCKETS)
    && u.hash == t.hash && u.triedTable == t.triedTable && u.collisions == t.collisions
    && u.info.Keys == t.info.Keys
    && (forall id :: id in t.info ==>
          u.info[id] == t.info[id].(refCount := u.info[id].refCount) && t.info[id].refCount <= u.info[id].refCount)
    && forall b, p :: InTable(b, p, NEW_BUCKETS) && t.newTable[b][p] != EMPTY ==> u.newTable[b][p] != EMPTY
  }

  lemma SlottedFuller(t: Book, b: nat, id: int)
    requires Pending(t) && b < NEW_BUCKETS && id in t.info && !t.info[id].inTried
    requires t.info[id].refCount < MAX_REFERENCES
    requires t.newTable[b][Position(t.hash, true, b, t.info[id].addr)] == EMPTY
    ensures Pending(Slotted(t, b, id)) && Fuller(t, Slotted(t, b, id)) && Slotted(t, b, id).info[id].refCount > 0
  {
    SlottedKeeps(t, b, id, t.info.Keys, {});
    assert NewEntryOk(t.hash, t.info, t.newTable, id);
    var u := Slotted(t, b, id);
    assert Referenced(u.info, u.info.Keys);
  }

  /** An entry that has a slot, or whose own one is taken. */
  ghost predicate Housed(t: Book, id: int)
    requires Shape(t.newTable, NEW_BUCKETS)
  {
    id in t.info && (t.info[id].refCount > 0 || OwnSlot(t, id) != EMPTY)
  }

  lemma ApplyAny(t: Book, bucket: int, id: int, restore: bool, valid: Service -> bool)
    requires Pending(t) && id in t.info && !t.info[id].inTried
    ensures var u := Apply(t, bucket, id, restore, valid);
            Pending(u) && Fuller(t, u) && (valid(t.info[id].addr) ==> Housed(u, id))
  {
    var a := t.info[id].addr;
    assert NewEntryOk(t.hash, t.info, t.newTable, id);
    if valid(a) && t.info[id].refCount < MAX_REFERENCES {
      var own := NewBucket(t.hash, a, t.info[id].source);
      if restore && 0 <= bucket < NEW_BUCKETS && t.newTable[bucket][Position(t.hash, true, bucket, a)] == EMPTY {
        SlottedFuller(t, bucket, id);
      } else if t.newTable[own][Position(t.hash, true, own, a)] == EMPTY {
        SlottedFuller(t, own, id);
      }
    }
  }

  lemma FullerOn(t: Book, u: Book, v: Book)
    requires Fuller(t, u) && Fuller(u, v)
    ensures Fuller(t, v)
  {
  }

  lemma PlacedStill(t: Book, u: Book, id: int)
    requires Fuller(t, u) && Housed(t, id)
    ensures Housed(u, id)
  {
    var b := NewBucket(t.hash, t.info[id].addr, t.info[id].source);
    assert InTable(b, Position(t.hash, true, b, t.info[id].addr), NEW_BUCKETS);
  }

  lemma {:induction false} AppliedAny(t: Book, entries: seq<(int, int)>, restore: bool, valid: Service -> bool, n: nat)
    requires n <= |entries| && Pending(t)
    requires forall i :: 0 <= i < |entries| ==> entries[i].1 in t.info && !t.info[entries[i].1].inTried
    ensures var u := Applied(t, entries, restore, valid, n);
            && Pending(u) && Fuller(t, u)
            && forall i :: 0 <= i < n && valid(t.info[entries[i].1].addr) ==> Housed(u, entries[i].1)
  {
    if n > 0 {
      AppliedAny(t, entries, restore, valid, n - 1);
      var u, id := Applied(t, entries, restore, valid, n - 1), entries[n - 1].1;
      assert id in u.info;
      ApplyAny(u, entries[n - 1].0, id, restore, valid);
      var v := Applied(t, entries, restore, valid, n);
      FullerOn(t, u, v);
      forall i | 0 <= i < n && valid(t.info[entries[i].1].addr) ensures Housed(v, entries[i].1) {
        if i < n - 1 {
          PlacedStill(u, v, entries[i].1);
        }
      }
    }
  }

  // ----- Dropping what has no slot -----

  /** Some entries without slot or tried mark are gone; the others have at most moved in vRandom. */
  ghost predicate Thinner(t: Book, u: Book) {
    && u.hash == t.hash && u.triedTable == t.triedTable && u.newTable == t.newTable && u.collisions == t.collisions
    && u.info.Keys <= t.info.Keys
    && (forall id :: id in u.info ==> u.info[id] == t.info[id].(randomPos := u.info[id].randomPos))
    && forall id :: id in t.info && (t.info[id].inTried || t.info[id].refCount != 0) ==> id in u.info
  }

  /** An entry that is gone or has a slot. */
  ghost predicate Decided(u: Book, id: int) {
    id in u.info ==> u.info[id].inTried || u.info[id].refCount != 0
  }

  lemma DroppedAny(t: Book, id: int)
    requires Pending(t)
    ensures Pending(Dropped(t, id)) && Thinner(t, Dropped(t, id)) && Decided(Dropped(t, id), id)
  {
    if id in t.info && !t.info[id].inTried && t.info[id].refCount == 0 {
      var s := MovedToEnd(t, id);
      LastDropped(s, id, t.info.Keys);
      ThinnerOn(t, s, DeletedLast(s, id));
    }
  }

  /** The first half of a deletion: the entry changes places with the last one. */
  lemma MovedToEnd(t: Book, id: int) returns (s: Book)
    requires Pending(t) && id in t.info && !t.info[id].inTried && t.info[id].refCount == 0
    ensures Inv(s, t.info.Keys, {}) && Thinner(t, s)
    ensures id in s.info && !s.info[id].inTried && s.info[id].refCount == 0 && s.info[id].randomPos == |s.random| - 1
    ensures s.random != [] && Dropped(t, id) == DeletedLast(s, id)
  {
    assert Placed(t.info, t.random, id);
    var pos, last := t.info[id].randomPos, |t.random| - 1;
    SwappedKeeps(t, pos, last, t.info.Keys, {});
    SwappedSame(t, pos, last);
    s := Swapped(t, pos, last);
  }

  lemma LastDropped(s: Book, id: int, limbo: set<int>)
    requires Inv(s, limbo, {}) && id in s.info && !s.info[id].inTried && s.info[id].refCount == 0
    requires s.info[id].randomPos == |s.random| - 1
    ensures s.random != [] && Pending(DeletedLast(s, id)) && Thinner(s, DeletedLast(s, id))
  {
    DeletedLastKeeps(s, id, limbo, {});
    var u := DeletedLast(s, id);
    assert Referenced(u.info, u.info.Keys);
  }

  lemma ThinnerOn(t: Book, u: Book, v: Book)
    requires Thinner(t, u) && Thinner(u, v)
    ensures Thinner(t, v)
  {
  }

  lemma {:induction false} PrunedAny(t: Book, ids: seq<int>, n: nat)
    requires n <= |ids| && Pending(t)
    ensures Pending(Pruned(t, ids, n)) && Thinner(t, Pruned(t, ids, n))
    ensures forall id {:trigger Decided(Pruned(t, ids, n), id)} :: id in ids[..n] ==> Decided(Pruned(t, ids, n), id)
  {
    if n > 0 {
      PrunedAny(t, ids, n - 1);
      var u, v := Pruned(t, ids, n - 1), Pruned(t, ids, n);
      DroppedAny(u, ids[n - 1]);
      ThinnerOn(t, u, v);
      forall id | id in ids[..n] ensures Decided(v, id) {
        if id != ids[n - 1] {
          assert id in ids[..n - 1] && Decided(u, id);
        }
      }
    }
  }

  lemma PrunedIsConsistent(t: Book, ids: seq<int>)
    requires Pending(t) && t.collisions == {} && forall id :: id in t.info ==> id in ids
    ensures Consistent(Pruned(t, ids, |ids|)) && Thinner(t, Pruned(t, ids, |ids|))
  {
    PrunedAny(t, ids, |ids|);
    var u := Pruned(t, ids, |ids|);
    forall id | id in u.info && !u.info[id].inTried ensures u.info[id].refCount > 0 {
      assert id in ids && ids[..|ids|] == ids;
      assert Decided(u, id) && NewEntryOk(u.hash, u.info, u.newTable, id);
    }
  }

  // ----- The whole file -----

  /** The book before entries without a slot are dropped. */
  function Unpruned(file: File, asmap: nat, valid: Service -> bool): Book {
    var t := WithTried(WithNew(file.hash, file.new_, |file.new_|), file.tried, valid, |file.tried|);
    var entries := Flat(file.buckets, |file.new_|, |file.buckets|);
    Applied(t, entries, |file.buckets| == NEW_BUCKETS && file.Checksum() == asmap, valid, |entries|)
  }

  /** The entry of a bucket list of a file that names new record k. */
  ghost predicate Named(file: File, k: int) {
    exists e :: e in Flat(file.buckets, |file.new_|, |file.buckets|) && e.1 == k
  }

  /** What is left of a file: nothing but its records; a valid tried record unless another one
      has its slot; a valid new record that some bucket names unless another entry has the slot
      it has under its own source. */
  ghost predicate Salvaged(file: File, valid: Service -> bool, u: Book)
    requires Shape(u.newTable, NEW_BUCKETS) && Shape(u.triedTable, TRIED_BUCKETS)
  {
    && u.hash == file.hash
    && Sourced(u, file.new_, file.tried, |file.tried|) && Seated(u, file.tried, valid, |file.tried|)
    && forall k :: 0 <= k < |file.new_| && valid(file.new_[k].addr) && Named(file, k) && k !in u.info ==>
         var b := NewBucket(u.hash, file.new_[k].addr, file.new_[k].source);
         u.newTable[b][Position(u.hash, true, b, file.new_[k].addr)] != EMPTY
  }

  /** Every file whose records have different addresses makes a consistent book, and loses an
      entry only to another one in its slot. */
  lemma AnyFile(file: File, asmap: nat, valid: Service -> bool, ids: seq<int>)
    requires DistinctRecords(file.new_ + file.tried)
    requires forall id :: id in Unpruned(file, asmap, valid).info ==> id in ids
    ensures var u := Loaded(file, asmap, valid, ids); Consistent(u) && Salvaged(file, valid, u)
  {
    var first := WithNew(file.hash, file.new_, |file.new_|);
    NewDistinct(file.new_, file.tried);
    WithNewLoaded(file.hash, file.new_, |file.new_|);
    WithNewPending(file.hash, file.new_, |file.new_|);
    TriedAny(first, file.new_, file.tried, valid, |file.tried|);
    var t := WithTried(first, file.tried, valid, |file.tried|);
    TriedHash(first, file.tried, valid, |file.tried|);
    AnyBuckets(file, asmap, valid, ids, t);
  }

  lemma NewDistinct(new_: seq<Record>, tried: seq<Record>)
    requires DistinctRecords(new_ + tried)
    ensures DistinctRecords(new_)
  {
    var all := new_ + tried;
    forall i, j | 0 <= i < j < |new_| ensures new_[i].addr != new_[j].addr {
      assert all[i] == new_[i] && all[j] == new_[j];
    }
  }

  lemma {:induction false} TriedHash(base: Book, tried: seq<Record>, valid: Service -> bool, n: nat)
    requires n <= |tried| && Shape(base.triedTable, TRIED_BUCKETS)
    ensures WithTried(base, tried, valid, n).hash == base.hash
  {
    if n > 0 {
      TriedHash(base, tried, valid, n - 1);
    }
  }

  lemma EntriesAreNew(file: File, t: Book, entries: seq<(int, int)>)
    requires entries == Flat(file.buckets, |file.new_|, |file.buckets|)
    requires forall k: nat {:trigger FromNew(t, file.new_, k)} :: k < |file.new_| ==> FromNew(t, file.new_, k)
    ensures forall i :: 0 <= i < |entries| ==> entries[i].1 in t.info && !t.info[entries[i].1].inTried
  {
    forall i | 0 <= i < |entries| ensures entries[i].1 in t.info && !t.info[entries[i].1].inTried {
      FlatHas(file.buckets, |file.new_|, |file.buckets|, entries[i]);
      assert FromNew(t, file.new_, entries[i].1);
    }
  }

  lemma NamedAreHoused(file: File, valid: Service -> bool, t: Book, v: Book, entries: seq<(int, int)>)
    requires entries == Flat(file.buckets, |file.new_|, |file.buckets|) && Shape(v.newTable, NEW_BUCKETS)
    requires forall k: nat {:trigger FromNew(t, file.new_, k)} :: k < |file.new_| ==> FromNew(t, file.new_, k)
    requires forall i :: 0 <= i < |entries| ==> entries[i].1 in t.info
    requires forall i :: 0 <= i < |entries| && valid(t.info[entries[i].1].addr) ==> Housed(v, entries[i].1)
    ensures forall k: nat :: k < |file.new_| && valid(file.new_[k].addr) && Named(file, k) ==> Housed(v, k)
  {
    forall k: nat | k < |file.new_| && valid(file.new_[k].addr) && Named(file, k) ensures Housed(v, k) {
      var e :| e in entries && e.1 == k;
      var i :| 0 <= i < |entries| && entries[i] == e;
      assert FromNew(t, file.new_, k);
    }
  }

  lemma AnyBuckets(file: File, asmap: nat, valid: Service -> bool, ids: seq<int>, t: Book)
    requires t == WithTried(WithNew(file.hash, file.new_, |file.new_|), file.tried, valid, |file.tried|)
    requires TriedPart(t, file.new_, file.tried, valid, |file.tried|) && t.hash == file.hash
    requires forall id :: id in Unpruned(file, asmap, valid).info ==> id in ids
    ensures var u := Loaded(file, asmap, valid, ids); Consistent(u) && Salvaged(file, valid, u)
  {
    var entries := Flat(file.buckets, |file.new_|, |file.buckets|);
    var restore := |file.buckets| == NEW_BUCKETS && file.Checksum() == asmap;
    EntriesAreNew(file, t, entries);
    AppliedAny(t, entries, restore, valid, |entries|);
    var v := Unpruned(file, asmap, valid);
    PrunedIsConsistent(v, ids);
    NamedAreHoused(file, valid, t, v, entries);
    StillSalvaged(file, valid, t, v, Pruned(v, ids, |ids|));
  }

  lemma StillSalvaged(file: File, valid: Service -> bool, t: Book, v: Book, u: Book)
    requires TriedPart(t, file.new_, file.tried, valid, |file.tried|) && t.hash == file.hash
    requires Fuller(t, v) && Thinner(v, u)
    requires forall k: nat :: k < |file.new_| && valid(file.new_[k].addr) && Named(file, k) ==> Housed(v, k)
    ensures Salvaged(file, valid, u)
  {
    SourcedOn(t, u, file.new_, file.tried, |file.tried|, |file.tried|);
    forall k: nat | k < |file.new_| && valid(file.new_[k].addr) && Named(file, k) && k !in u.info
      ensures OwnSlot(v, k) != EMPTY && v.info[k].addr == file.new_[k].addr && v.info[k].source == file.new_[k].source
    {
      assert FromNew(t, file.new_, k) && Housed(v, k);
    }
  }

  // ----- Files with repeated addresses -----

  /** What holds while any file is read: the address index leads to entries with that address,
      every entry is on a network that is counted, and no id is out of range. */
  ghost predicate Tidy(t: Book) {
    && (forall a {:trigger Resolves(t.info, t.addrs, a)} :: a in t.addrs ==> Resolves(t.info, t.addrs, a))
    && (forall id {:trigger OnNetwork(t, id)} :: id in t.info ==> OnNetwork(t, id))
    && t.collisions == {} && 0 <= t.idCount
  }

  ghost predicate OnNetwork(t: Book, id: int)
    requires id in t.info
  {
    t.info[id].addr.net in t.nets && 0 <= id < t.idCount
  }

  lemma JoinedTidy(t: Book, u: Book, e: AddrInfo)
    requires Tidy(t) && u.collisions == {} && u.idCount == t.idCount + 1
    requires u.info == t.info[t.idCount := e] && u.addrs == t.addrs[e.addr := t.idCount]
    requires e.addr.net in u.nets && t.nets.Keys <= u.nets.Keys
    ensures Tidy(u)
  {
    forall a | a in u.addrs ensures Resolves(u.info, u.addrs, a) {
      if a != e.addr {
        assert Resolves(t.info, t.addrs, a) && OnNetwork(t, t.addrs[a]);
      }
    }
    forall id | id in u.info ensures OnNetwork(u, id) {
      if id != t.idCount {
        assert OnNetwork(t, id);
      }
    }
  }

  /** Entries keep their addresses, whatever else changes. */
  lemma SameAddressesTidy(t: Book, u: Book)
    requires Tidy(t) && u.info.Keys == t.info.Keys && forall id :: id in t.info ==> u.info[id].addr == t.info[id].addr
    requires u.addrs == t.addrs && u.nets == t.nets && u.idCount == t.idCount && u.collisions == t.collisions
    ensures Tidy(u)
  {
    forall a | a in u.addrs ensures Resolves(u.info, u.addrs, a) {
      assert a in t.addrs && Resolves(t.info, t.addrs, a);
      var id := t.addrs[a];
      assert id in t.info && u.info[id].addr == t.info[id].addr;
    }
    forall id | id in u.info ensures OnNetwork(u, id) {
      assert id in t.info.Keys && OnNetwork(t, id);
    }
  }

  lemma DeletedTidy(t: Book, id: int)
    requires Tidy(t) && id in t.info && t.random != []
    ensures Tidy(DeletedLast(t, id))
  {
    var u := DeletedLast(t, id);
    forall a | a in u.addrs ensures Resolves(u.info, u.addrs, a) {
      assert Resolves(t.info, t.addrs, a);
    }
    forall j | j in u.info ensures OnNetwork(u, j) {
      assert OnNetwork(t, j);
    }
  }

  lemma {:induction false} NewTidy(h: Hash, records: seq<Record>, n: nat)
    requires n <= |records|
    ensures Tidy(WithNew(h, records, n))
  {
    if n > 0 {
      var t := WithNew(h, records, n - 1);
      NewTidy(h, records, n - 1);
      JoinedTidy(t, WithNew(h, records, n), EntryOf(records[n - 1], |t.random|));
    }
  }

  lemma {:induction false} TriedTidy(t: Book, records: seq<Record>, valid: Service -> bool, n: nat)
    requires n <= |records| && Shape(t.triedTable, TRIED_BUCKETS) && Tidy(t)
    ensures Tidy(WithTried(t, records, valid, n))
  {
    if n > 0 {
      var u, r := WithTried(t, records, valid, n - 1), records[n - 1];
      TriedTidy(t, records, valid, n - 1);
      if valid(r.addr) && TriedSlot(u.hash, u.triedTable, r.addr) == EMPTY {
        JoinedTidy(u, AddTried(u, r), EntryOf(r, |u.random|).(inTried := true));
      }
    }
  }

  lemma {:induction false} AppliedTidy(t: Book, entries: seq<(int, int)>, restore: bool, valid: Service -> bool, n: nat)
    requires n <= |entries| && Shape(t.newTable, NEW_BUCKETS) && Tidy(t)
    ensures Tidy(Applied(t, entries, restore, valid, n))
  {
    if n > 0 {
      AppliedTidy(t, entries, restore, valid, n - 1);
      SameAddressesTidy(Applied(t, entries, restore, valid, n - 1), Applied(t, entries, restore, valid, n));
    }
  }

  lemma SwappedTidy(t: Book, i: nat, j: nat)
    requires i < |t.random| && j < |t.random| && t.random[i] in t.info && t.random[j] in t.info && Tidy(t)
    ensures Tidy(Swapped(t, i, j))
  {
    SameAddressesTidy(t, Swapped(t, i, j));
  }

  lemma DroppedTidy(t: Book, id: int)
    requires Tidy(t)
    ensures Tidy(Dropped(t, id))
  {
    if Dropped(t, id) != t {
      SwappedTidy(t, t.info[id].randomPos, |t.random| - 1);
      DeletedTidy(Swapped(t, t.info[id].randomPos, |t.random| - 1), id);
    }
  }

  lemma {:induction false} PrunedTidy(t: Book, ids: seq<int>, n: nat)
    requires n <= |ids| && Tidy(t)
    ensures Tidy(Pruned(t, ids, n))
  {
    if n > 0 {
      PrunedTidy(t, ids, n - 1);
      DroppedTidy(Pruned(t, ids, n - 1), ids[n - 1]);
    }
  }

  /** Whatever a file holds, the book read from it is tidy. */
  lemma LoadedTidy(file: File, asmap: nat, valid: Service -> bool, ids: seq<int>)
    ensures Tidy(Loaded(file, asmap, valid, ids))
  {
    var first := WithNew(file.hash, file.new_, |file.new_|);
    var t := WithTried(first, file.tried, valid, |file.tried|);
    var entries := Flat(file.buckets, |file.new_|, |file.buckets|);
    var restore := |file.buckets| == NEW_BUCKETS && file.Checksum() == asmap;
    NewTidy(file.hash, file.new_, |file.new_|);
    TriedTidy(first, file.tried, valid, |file.tried|);
    AppliedTidy(t, entries, restore, valid, |entries|);
    PrunedTidy(Applied(t, entries, restore, valid, |entries|), ids, |ids|);
  }
}
