/** Ordered iteration over nested transactions: each iterator merges its own
    transaction's writes with the iterator of whatever lies below. */
module DbIterator {
  import opened DbTransaction
  import opened Options

  /** Lexicographic order on byte strings. */
  predicate LessBytes(a: seq<nat>, b: seq<nat>) {
    if b == [] then false
    else if a == [] then true
    else a[0] < b[0] || (a[0] == b[0] && LessBytes(a[1..], b[1..]))
  }

  /** The order of serialized keys. */
  predicate Less(a: Key, b: Key) {
    LessBytes(a.bytes, b.bytes)
  }

  /** Up to place i the strings agree, and there the first one ends or has the smaller byte. */
  ghost predicate PartsAt(a: seq<nat>, b: seq<nat>, i: nat) {
    i <= |a| && i < |b| && a[..i] == b[..i] && (i == |a| || a[i] < b[i])
  }

  /** One key comes before another as byte strings are ordered. */
  ghost predicate Precedes(a: Key, b: Key) {
    exists i: nat :: PartsAt(a.bytes, b.bytes, i)
  }

  lemma PartsLater(a: seq<nat>, b: seq<nat>, i: nat)
    requires a != [] && b != [] && a[0] == b[0]
    ensures PartsAt(a[1..], b[1..], i) <==> PartsAt(a, b, i + 1)
  {
    if i + 1 <= |a| && i + 1 <= |b| {
      assert a[..i + 1] == [a[0]] + a[1..][..i] && b[..i + 1] == [b[0]] + b[1..][..i];
      assert a[1..][..i] == a[..i + 1][1..] && b[1..][..i] == b[..i + 1][1..];
    }
  }

  lemma {:induction false} BytesLexicographic(a: seq<nat>, b: seq<nat>)
    ensures LessBytes(a, b) <==> exists i: nat :: PartsAt(a, b, i)
  {
    if b != [] && (a == [] || a[0] < b[0]) {
      assert PartsAt(a, b, 0);
    } else if a != [] && b != [] {
      if a[0] == b[0] {
        BytesLexicographic(a[1..], b[1..]);
        if i: nat :| PartsAt(a[1..], b[1..], i) {
          PartsLater(a, b, i);
          var j := i + 1;
          assert PartsAt(a, b, j);
        }
        if i: nat :| PartsAt(a, b, i) {
          PartsLater(a, b, i - 1);
        }
      } else {
        forall i: nat ensures !PartsAt(a, b, i) {
          if 0 < i <= |a| && i < |b| {
            assert a[..i][0] == a[0] && b[..i][0] == b[0];
          }
        }
      }
    }
  }

  /** The recursive comparison is the lexicographic order. */
  lemma LessIsLexicographic(a: Key, b: Key)
    ensures Less(a, b) <==> Precedes(a, b)
  {
    BytesLexicographic(a.bytes, b.bytes);
  }

  lemma {:induction false} BytesTotal(a: seq<nat>, b: seq<nat>)
    ensures LessBytes(a, b) || a == b || LessBytes(b, a)
    ensures !(LessBytes(a, b) && LessBytes(b, a)) && !LessBytes(a, a)
  {
    if a != [] && b != [] {
      BytesTotal(a[1..], b[1..]);
      BytesTotal(a[1..], a[1..]);
      if a[0] == b[0] && a[1..] == b[1..] {
        assert a == [a[0]] + a[1..] && b == [b[0]] + b[1..];
      }
    } else if a != [] {
      BytesTotal(a[1..], a[1..]);
    }
  }

  lemma {:induction false} BytesTransitive(a: seq<nat>, b: seq<nat>, c: seq<nat>)
    requires LessBytes(a, b) && LessBytes(b, c)
    ensures LessBytes(a, c)
    decreases |a|
  {
    if a != [] && a[0] == b[0] == c[0] {
      BytesTransitive(a[1..], b[1..], c[1..]);
    }
  }

  lemma LessTotal(a: Key, b: Key)
    ensures Less(a, b) || a == b || Less(b, a)
    ensures !(Less(a, b) && Less(b, a)) && !Less(a, a)
  {
    BytesTotal(a.bytes, b.bytes);
  }

  lemma LessTransitive(a: Key, b: Key, c: Key)
    ensures Less(a, b) && Less(b, c) ==> Less(a, c)
    ensures !Less(b, a) && Less(b, c) ==> Less(a, c)
    ensures Less(a, b) && !Less(c, b) ==> Less(a, c)
    ensures !Less(b, a) && !Less(c, b) ==> !Less(c, a)
  {
    LessTotal(a, b);
    LessTotal(b, c);
    LessTotal(a, c);
    if Less(a, b) && Less(b, c) { BytesTransitive(a.bytes, b.bytes, c.bytes); }
  }

  /** Where an ordered search starts. */
  datatype Bound = All | From(key: Key) | After(key: Key)

  predicate Within(k: Key, b: Bound) {
    match b
    case All => true
    case From(x) => !Less(k, x)
    case After(x) => Less(x, k)
  }

  /** The least key of a set within a bound, or none. */
  ghost predicate IsFirst(keys: set<Key>, b: Bound, r: Option<Key>) {
    match r
    case None => forall k :: k in keys ==> !Within(k, b)
    case Some(m) => m in keys && Within(m, b) && forall k :: k in keys && Within(k, b) ==> !Less(k, m)
  }

  /** A sorted container's lower_bound and upper_bound. */
  method FirstKey(keys: set<Key>, b: Bound) returns (r: Option<Key>)
    ensures IsFirst(keys, b, r)
  {
    r := None;
    var todo := keys;
    while todo != {}
      invariant todo <= keys && IsFirst(keys - todo, b, r)
      decreases todo
    {
      var k :| k in todo;
      if Within(k, b) && (r.None? || Less(k, r.value)) {
        OneSmaller(keys - todo, b, r, k);
        r := Some(k);
      } else {
        LessTotal(k, k);
      }
      assert keys - (todo - {k}) == (keys - todo) + {k};
      todo := todo - {k};
    }
    assert keys - todo == keys;
  }

  lemma OneSmaller(keys: set<Key>, b: Bound, r: Option<Key>, k: Key)
    requires IsFirst(keys, b, r) && Within(k, b) && (r.Some? ==> Less(k, r.value))
    ensures IsFirst(keys + {k}, b, Some(k))
  {
    forall j | j in keys + {k} && Within(j, b) ensures !Less(j, k) {
      LessTotal(k, k);
      if j != k {
        LessTransitive(k, r.value, j);
        LessTotal(k, j);
      }
    }
  }

  /** Which of two positions comes first. */
  function Earlier(t: Option<Key>, p: Option<Key>): Option<Key> {
    if t.None? then p else if p.None? then t else if Less(t.value, p.value) then t else p
  }

  /** The first of two first keys is the first of both sets, and each of them is
      still first from there on. */
  lemma EarlierIsFirst(writes: set<Key>, below: set<Key>, b: Bound, t: Option<Key>, p: Option<Key>)
    requires IsFirst(writes, b, t) && IsFirst(below, b, p)
    ensures IsFirst(writes + below, b, Earlier(t, p))
    ensures Earlier(t, p).Some? ==>
        IsFirst(writes, From(Earlier(t, p).value), t) && IsFirst(below, From(Earlier(t, p).value), p)
  {
    if Earlier(t, p).Some? {
      var c := Earlier(t, p).value;
      if t.Some? && p.Some? { LessTotal(t.value, p.value); }
      FromEarlier(writes, b, t, c);
      FromEarlier(below, b, p, c);
      forall k | k in writes + below && Within(k, b) ensures !Less(k, c) {
        if k in writes {
          LessTransitive(c, t.value, k);
        } else {
          LessTransitive(c, p.value, k);
        }
      }
    }
  }

  lemma FromEarlier(keys: set<Key>, b: Bound, r: Option<Key>, c: Key)
    requires IsFirst(keys, b, r) && Within(c, b) && (r.Some? ==> !Less(r.value, c))
    ensures IsFirst(keys, From(c), r)
  {
    forall k | k in keys && Within(k, From(c)) ensures Within(k, b) {
      if b.From? {
        LessTransitive(b.key, c, k);
      } else if b.After? {
        LessTransitive(b.key, c, k);
      }
    }
  }

  /** A first key other than the current one is the first one after it. */
  lemma FirstAfter(keys: set<Key>, c: Key, r: Option<Key>)
    requires IsFirst(keys, From(c), r) && c !in keys
    ensures IsFirst(keys, After(c), r)
  {
    if r.Some? { LessTotal(r.value, c); }
    forall k | k in keys && Within(k, After(c)) ensures Within(k, From(c)) {
      LessTotal(k, c);
    }
  }

  /** While skipping: every key passed over was hidden. */
  ghost predicate Skipped(keys: set<Key>, hidden: set<Key>, b: Bound, r: Option<Key>) {
    && (r.Some? ==> r.value in keys && Within(r.value, b))
    && forall k :: k in keys && Within(k, b) && (r.Some? ==> Less(k, r.value)) ==> k in hidden
  }

  lemma SkipOne(keys: set<Key>, hidden: set<Key>, b: Bound, m: Key, r: Option<Key>)
    requires Skipped(keys, hidden, b, Some(m)) && m in hidden && IsFirst(keys, After(m), r)
    ensures Skipped(keys, hidden, b, r)
    ensures Ahead(keys, r) < Ahead(keys, Some(m))
  {
    if r.Some? && b.From? { LessTransitive(b.key, m, r.value); LessTotal(m, r.value); }
    if r.Some? && b.After? { LessTransitive(b.key, m, r.value); }
    forall k | k in keys && Within(k, b) && (r.Some? ==> Less(k, r.value)) ensures k in hidden {
      LessTotal(k, m);
    }
    LessTotal(m, m);
    forall k | k in Ahead(keys, r) ensures k in Ahead(keys, Some(m)) {
      LessTransitive(m, r.value, k);
      LessTotal(m, k);
    }
    assert m in Ahead(keys, Some(m));
    if r.Some? { LessTotal(m, r.value); }
  }

  /** The keys still to come. */
  ghost function Ahead(keys: set<Key>, r: Option<Key>): set<Key> {
    set k | k in keys && r.Some? && !Less(k, r.value)
  }

  lemma SkipEnds(keys: set<Key>, hidden: set<Key>, b: Bound, r: Option<Key>)
    requires Skipped(keys, hidden, b, r) && (r.Some? ==> r.value !in hidden)
    ensures IsFirst(keys - hidden, b, r)
  {
  }

  class StoreIterator {
    const store: Store
    var at: Option<Key>
    /** The keys of the store while this iterator is in use. */
    ghost const keys: set<Key>

    constructor (store: Store)
      ensures this.store == store && at == None && keys == store.data.Keys
    {
      this.store := store;
      at := None;
      keys := store.data.Keys;
    }

    method SeekToFirst()
      requires store.data.Keys == keys
      modifies this
      ensures IsFirst(keys, All, at)
    {
      at := FirstKey(store.data.Keys, All);
    }

    method Seek(k: Key)
      requires store.data.Keys == keys
      modifies this
      ensures IsFirst(keys, From(k), at)
    {
      at := FirstKey(store.data.Keys, From(k));
    }

    method Next()
      requires store.data.Keys == keys && at.Some?
      modifies this
      ensures IsFirst(keys, After(old(at).value), at)
    {
      at := FirstKey(store.data.Keys, After(at.value));
    }
  }

  datatype Below = OfStore(store: StoreIterator) | OfTxn(txn: TxnIterator) {
    ghost function Keys(): set<Key> {
      match this
      case OfStore(it) => it.keys
      case OfTxn(it) => it.keys
    }

    ghost function Object(): object {
      match this
      case OfStore(it) => it
      case OfTxn(it) => it
    }

    /** Where the iterator below stands. */
    ghost function At(): Option<Key>
      reads Object()
    {
      match this
      case OfStore(it) => it.at
      case OfTxn(it) => it.at
    }
  }

  /** The keys a transaction shows: its writes, and what it does not hide below. */
  lemma ViewKeys(writes: Data, deletes: set<Key>, below: Data)
    requires writes.Keys !! deletes
    ensures Overlay(writes, deletes, below).Keys == writes.Keys + (below.Keys - (deletes + writes.Keys))
  {
    forall k
      ensures k in Overlay(writes, deletes, below) <==> k in writes.Keys + (below.Keys - (deletes + writes.Keys))
    {
      assert k in Overlay(writes, deletes, below) <==> Lookup(Overlay(writes, deletes, below), k).Some?;
    }
  }

  /** A position over an overlay: the earlier of the first write and the first
      visible key below, from that very key on. */
  ghost predicate Standing(writes: set<Key>, visible: set<Key>,
                           t: Option<Key>, p: Option<Key>, parentKey: Key, curIsParent: bool, at: Option<Key>) {
    && (p.Some? ==> parentKey == p.value)
    && at == Earlier(t, p)
    && (at.Some? ==>
          IsFirst(writes, From(at.value), t) && IsFirst(visible, From(at.value), p) && (curIsParent <==> p == at))
  }

  /** DecideCur's choice. */
  predicate Chosen(t: Option<Key>, p: Option<Key>, parentKey: Key, curIsParent: bool) {
    curIsParent <==> p.Some? && (t.None? || !Less(t.value, parentKey))
  }

  lemma Decided(writes: set<Key>, visible: set<Key>, b: Bound, t: Option<Key>, p: Option<Key>,
                parentKey: Key, curIsParent: bool)
    requires writes !! visible && (p.Some? ==> parentKey == p.value)
    requires IsFirst(writes, b, t) && IsFirst(visible, b, p)
    requires (t.None? && p.None?) || Chosen(t, p, parentKey, curIsParent)
    ensures IsFirst(writes + visible, b, Earlier(t, p))
    ensures Standing(writes, visible, t, p, parentKey, curIsParent, Earlier(t, p))
  {
    EarlierIsFirst(writes, visible, b, t, p);
  }

  class TxnIterator {
    const txn: Transaction
    const parentIt: Below
    var transactionIt: Option<Key>
    var parentKey: Key
    var curIsParent: bool
    /** The key this iterator stands on. */
    ghost var at: Option<Key>
    /** The transaction's changes while this iterator is in use, the keys it lets
        through from below, and all the keys it shows. */
    ghost const writes: set<Key>
    ghost const deletes: set<Key>
    ghost const visible: set<Key>
    ghost const keys: set<Key>
    /** This iterator and the ones below it. */
    ghost const Repr: set<object>

    ghost predicate Wired()
      decreases Repr
    {
      && txn in txn.Repr && this in Repr && Repr !! txn.Repr
      && visible == parentIt.Keys() - (deletes + writes) && keys == writes + visible
      && match parentIt
         case OfStore(it) => it.store in txn.Repr && Repr == {this, it}
         case OfTxn(it) =>
           && it in it.Repr && it.txn in txn.Repr && it.txn.Repr <= txn.Repr
           && Repr == {this} + it.Repr && this !in it.Repr && it.Wired()
    }

    ghost predicate BelowOk()
      requires Wired()
      reads Repr - {this}, txn.Repr
      decreases Repr, 0
    {
      match parentIt
      case OfStore(it) => it.store.data.Keys == it.keys
      case OfTxn(it) => it.Ok()
    }

    ghost predicate Ok()
      reads this, Repr, txn, txn.Repr
      decreases Repr, 1
    {
      && Wired() && txn.writes.Keys == writes && txn.deletes == deletes && BelowOk()
      && Standing(writes, visible, transactionIt, parentIt.At(), parentKey, curIsParent, at)
    }

    /** A new iterator, with a new one for whatever lies below. It stands nowhere. */
    constructor (txn: Transaction)
      requires txn.ValidStack()
      ensures this.txn == txn && fresh(Repr) && Ok() && at == None && keys == txn.View().Keys
      decreases txn.Repr
    {
      this.txn := txn;
      transactionIt, parentKey, curIsParent, at := None, Key([]), false, None;
      writes, deletes := txn.writes.Keys, txn.deletes;
      ViewKeys(txn.writes, txn.deletes, txn.ParentView());
      match txn.parent {
        case Db(s) =>
          var it := new StoreIterator(s);
          parentIt := OfStore(it);
          Repr := {this, it};
          visible := it.keys - (txn.deletes + txn.writes.Keys);
          keys := txn.writes.Keys + (it.keys - (txn.deletes + txn.writes.Keys));
        case Outer(t) =>
          var it := new TxnIterator(t);
          parentIt := OfTxn(it);
          Repr := {this} + it.Repr;
          visible := it.keys - (txn.deletes + txn.writes.Keys);
          keys := txn.writes.Keys + (it.keys - (txn.deletes + txn.writes.Keys));
      }
    }

    /** Keeps the parent's iterator moving until it stands on a key that this
        transaction neither deletes nor overwrites. */
    method SkipDeletedAndOverwritten(ghost b: Bound)
      requires Wired() && txn.writes.Keys == writes && txn.deletes == deletes && BelowOk()
      requires IsFirst(parentIt.Keys(), b, parentIt.At())
      modifies Repr
      ensures BelowOk() && IsFirst(visible, b, parentIt.At())
      ensures parentIt.At().Some? ==> parentKey == parentIt.At().value
      ensures transactionIt == old(transactionIt)
      decreases Repr, 2
    {
      var below := BelowKey();
      while below.Some?
        invariant BelowOk() && below == parentIt.At()
        invariant Skipped(parentIt.Keys(), deletes + writes, b, below)
        invariant transactionIt == old(transactionIt)
        decreases Ahead(parentIt.Keys(), below)
      {
        parentKey := below.value;
        if parentKey !in txn.deletes && parentKey !in txn.writes { break; }
        BelowNext();
        SkipOne(parentIt.Keys(), deletes + writes, b, below.value, parentIt.At());
        below := BelowKey();
      }
      SkipEnds(parentIt.Keys(), deletes + writes, b, below);
    }

    /** The parent iterator's key, if it is valid. */
    method BelowKey() returns (r: Option<Key>)
      requires Wired() && BelowOk()
      ensures r == parentIt.At()
      decreases Repr, 0
    {
      match parentIt {
        case OfStore(it) => r := it.at;
        case OfTxn(it) =>
          var valid := it.Valid();
          if !valid { return None; }
          var k := it.GetKey();
          r := Some(k);
      }
    }

    method BelowNext()
      requires Wired() && BelowOk() && parentIt.At().Some?
      modifies Repr - {this}
      ensures BelowOk() && IsFirst(parentIt.Keys(), After(old(parentIt.At()).value), parentIt.At())
      decreases Repr, 0
    {
      match parentIt {
        case OfStore(it) => it.Next();
        case OfTxn(it) => it.Next();
      }
    }

    method Valid() returns (v: bool)
      requires Ok()
      ensures v <==> at.Some?
      decreases Repr, 1
    {
      var below := BelowKey();
      v := transactionIt.Some? || below.Some?;
    }

    method GetKey() returns (k: Key)
      requires Ok()
      ensures k == if at.Some? then at.value else Key([])
      decreases Repr, 2
    {
      var v := Valid();
      if !v { return Key([]); }
      if curIsParent { return parentKey; }
      return transactionIt.value;
    }

    /** Chooses the smaller key. */
    method DecideCur(ghost b: Bound)
      requires Wired() && txn.writes.Keys == writes && txn.deletes == deletes && BelowOk()
      requires parentIt.At().Some? ==> parentKey == parentIt.At().value
      requires IsFirst(writes, b, transactionIt) && IsFirst(visible, b, parentIt.At())
      modifies this`curIsParent, this`at
      ensures Ok() && IsFirst(keys, b, at)
      decreases Repr, 2
    {
      var below := BelowKey();
      var cur := curIsParent;
      if transactionIt.Some? && below.None? {
        cur := false;
      } else if transactionIt.None? && below.Some? {
        cur := true;
      } else if transactionIt.Some? && below.Some? {
        cur := !Less(transactionIt.value, parentKey);
      }
      Decided(writes, visible, b, transactionIt, below, parentKey, cur);
      curIsParent, at := cur, Earlier(transactionIt, below);
    }

    method Next()
      requires Ok()
      modifies Repr
      ensures Ok()
      ensures old(at).None? ==> at.None?
      ensures old(at).Some? ==> IsFirst(keys, After(old(at).value), at)
      decreases Repr, 3
    {
      var below := BelowKey();
      if transactionIt.None? && below.None? { return; }
      ghost var c := at.value;
      if curIsParent {
        BelowNext();
        FirstAfter(writes, c, transactionIt);
        SkipDeletedAndOverwritten(After(c));
      } else {
        FirstAfter(visible, c, parentIt.At());
        transactionIt := FirstKey(txn.writes.Keys, After(transactionIt.value));
      }
      DecideCur(After(c));
    }

    method SeekToFirst()
      requires Ok()
      modifies Repr
      ensures Ok() && IsFirst(keys, All, at)
      decreases Repr, 3
    {
      transactionIt := FirstKey(txn.writes.Keys, All);
      match parentIt {
        case OfStore(it) => it.SeekToFirst();
        case OfTxn(it) => it.SeekToFirst();
      }
      SkipDeletedAndOverwritten(All);
      DecideCur(All);
    }

    method Seek(k: Key)
      requires Ok()
      modifies Repr
      ensures Ok() && IsFirst(keys, From(k), at)
      decreases Repr, 3
    {
      transactionIt := FirstKey(txn.writes.Keys, From(k));
      match parentIt {
        case OfStore(it) => it.Seek(k);
        case OfTxn(it) => it.Seek(k);
      }
      SkipDeletedAndOverwritten(From(k));
      DecideCur(From(k));
    }

    /** The value under the iterator, read through the transaction. */
    method GetValue() returns (r: Option<Value>)
      requires Ok() && txn.Wired()
      ensures r == if at.Some? then Lookup(txn.View(), at.value) else None
    {
      var v := Valid();
      if !v { return None; }
      if curIsParent {
        r := txn.Read(parentKey);
      } else {
        r := txn.Read(transactionIt.value);
      }
    }
  }

  ghost predicate Sorted(keys: seq<Key>) {
    forall i, j :: 0 <= i < j < |keys| ==> Less(keys[i], keys[j])
  }

  ghost predicate ValuesOf(view: Data, keys: seq<Key>, values: seq<Option<Value>>) {
    |values| == |keys| && forall i :: 0 <= i < |keys| ==> keys[i] in view && values[i] == Some(view[keys[i]])
  }

  /** Every key comes before the later ones as byte strings. */
  ghost predicate Increasing(keys: seq<Key>) {
    forall i, j :: 0 <= i < j < |keys| ==> Precedes(keys[i], keys[j])
  }

  /** Seek, then Next until the end, over a transaction nested however deep:
      exactly the keys it shows that do not come before the start point, strictly
      increasing as byte strings, each once and with the value it shows. */
  method Scan(txn: Transaction, start: Option<Key>) returns (found: seq<Key>, values: seq<Option<Value>>)
    requires txn.ValidStack()
    ensures Increasing(found) && ValuesOf(txn.View(), found, values)
    ensures forall k :: k in found <==> k in txn.View() && (start.Some? ==> !Precedes(k, start.value))
  {
    ghost var b := if start.Some? then From(start.value) else All;
    var it := new TxnIterator(txn);
    if start.Some? {
      it.Seek(start.value);
    } else {
      it.SeekToFirst();
    }
    found, values := ScanRest(it, b);
    ScanOrder(txn.View(), start, found);
  }

  lemma ScanOrder(view: Data, start: Option<Key>, found: seq<Key>)
    requires Sorted(found)
    requires forall k :: k in found <==> k in view && (start.Some? ==> !Less(k, start.value))
    ensures Increasing(found)
    ensures forall k :: k in found <==> k in view && (start.Some? ==> !Precedes(k, start.value))
  {
    forall i, j | 0 <= i < j < |found| ensures Precedes(found[i], found[j]) {
      LessIsLexicographic(found[i], found[j]);
    }
    if start.Some? {
      forall k ensures Less(k, start.value) <==> Precedes(k, start.value) {
        LessIsLexicographic(k, start.value);
      }
    }
  }

  /** Part way through a scan over the transaction's view. */
  ghost predicate Scanning(it: TxnIterator, b: Bound, found: seq<Key>, values: seq<Option<Value>>, view: Data)
    reads it, it.Repr, it.txn, it.txn.Repr
  {
    && it.Ok() && it.txn.Wired() && it.txn.View() == view && it.keys == view.Keys
    && Scanned(it.keys, b, found, it.at) && ValuesOf(view, found, values)
  }

  /** Next until the end. */
  method ScanRest(it: TxnIterator, ghost b: Bound) returns (found: seq<Key>, values: seq<Option<Value>>)
    requires it.Ok() && it.txn.Wired() && it.keys == it.txn.View().Keys && IsFirst(it.keys, b, it.at)
    modifies it.Repr
    ensures Scanned(it.keys, b, found, None) && ValuesOf(it.txn.View(), found, values)
  {
    found, values := [], [];
    ghost var view := it.txn.View();
    var valid := it.Valid();
    while valid
      invariant Scanning(it, b, found, values, view) && (valid <==> it.at.Some?)
      decreases Ahead(it.keys, it.at)
    {
      found, values, valid := ScanOne(it, b, found, values, view);
    }
  }

  /** One more entry of a scan. */
  method ScanOne(it: TxnIterator, ghost b: Bound, found: seq<Key>, values: seq<Option<Value>>, ghost view: Data)
    returns (found': seq<Key>, values': seq<Option<Value>>, valid: bool)
    requires Scanning(it, b, found, values, view) && it.at.Some?
    modifies it.Repr
    ensures Scanning(it, b, found', values', view) && (valid <==> it.at.Some?)
    ensures Ahead(it.keys, it.at) < old(Ahead(it.keys, it.at))
  {
    var k, v := Visit(it);
    valid := it.Valid();
    ScanAdvance(view, b, found, values, k, it.at);
    found', values' := found + [k], values + [v];
  }

  lemma ScanAdvance(view: Data, b: Bound, found: seq<Key>, values: seq<Option<Value>>, k: Key, at: Option<Key>)
    requires Scanned(view.Keys, b, found, Some(k)) && IsFirst(view.Keys, After(k), at) && ValuesOf(view, found, values)
    ensures Scanned(view.Keys, b, found + [k], at) && ValuesOf(view, found + [k], values + [Lookup(view, k)])
    ensures Ahead(view.Keys, at) < Ahead(view.Keys, Some(k))
  {
    ScanStep(view.Keys, b, found, k, at);
    Appended(view, found, values, k);
  }

  lemma Appended(view: Data, found: seq<Key>, values: seq<Option<Value>>, k: Key)
    requires ValuesOf(view, found, values) && k in view
    ensures ValuesOf(view, found + [k], values + [Lookup(view, k)])
  {
  }

  /** The current entry, and one step on. */
  method Visit(it: TxnIterator) returns (k: Key, v: Option<Value>)
    requires it.Ok() && it.txn.Wired() && it.at.Some?
    modifies it.Repr
    ensures it.Ok() && it.txn.View() == old(it.txn.View())
    ensures old(it.at) == Some(k) && v == Lookup(it.txn.View(), k)
    ensures IsFirst(it.keys, After(k), it.at)
  {
    k := it.GetKey();
    v := it.GetValue();
    it.Next();
  }

  /** Part way through a scan: the keys so far are those below the position. */
  ghost predicate Scanned(keys: set<Key>, b: Bound, found: seq<Key>, at: Option<Key>) {
    && Sorted(found)
    && (at.Some? ==> at.value in keys && Within(at.value, b))
    && forall k :: k in found <==> k in keys && Within(k, b) && (at.Some? ==> Less(k, at.value))
  }

  lemma ScanStep(keys: set<Key>, b: Bound, found: seq<Key>, c: Key, at: Option<Key>)
    requires Scanned(keys, b, found, Some(c)) && IsFirst(keys, After(c), at)
    ensures Scanned(keys, b, found + [c], at)
    ensures Ahead(keys, at) < Ahead(keys, Some(c))
  {
    LessTotal(c, c);
    if at.Some? {
      LessTotal(c, at.value);
      if b.From? || b.After? { LessTransitive(b.key, c, at.value); }
    }
    forall k ensures k in found + [c] <==> k in keys && Within(k, b) && (at.Some? ==> Less(k, at.value)) {
      LessTotal(k, c);
      if at.Some? { LessTransitive(k, c, at.value); }
    }
    forall k | k in Ahead(keys, at) ensures k in Ahead(keys, Some(c)) {
      LessTransitive(c, at.value, k);
      LessTotal(c, k);
    }
    assert c in Ahead(keys, Some(c));
    forall i, j | 0 <= i < j < |found + [c]| ensures Less((found + [c])[i], (found + [c])[j]) {
      if j == |found| { assert found[i] in found; }
    }
  }
}
