/** Nested write/delete overlays over a key-value store. */
module DbTransaction {
  import opened Options
  import opened Sums

  datatype Key = Key(bytes: seq<nat>)
  datatype Value = Value(bytes: seq<nat>)

  type Data = map<Key, Value>

  function Lookup(d: Data, k: Key): Option<Value> {
    if k in d then Some(d[k]) else None
  }

  /** What an overlay of writes and deletes shows over a parent view. */
  ghost function Overlay(writes: Data, deletes: set<Key>, below: Data): (v: Data)
    ensures forall k :: Lookup(v, k) ==
                        if k in deletes then None else if k in writes then Some(writes[k]) else Lookup(below, k)
  {
    map k | k in writes.Keys + below.Keys && k !in deletes :: if k in writes then writes[k] else below[k]
  }

  lemma SameData(v: Data, w: Data)
    requires forall k :: Lookup(v, k) == Lookup(w, k)
    ensures v == w
  {
    forall k ensures k in v <==> k in w {
      assert Lookup(v, k) == Lookup(w, k);
    }
    forall k | k in v ensures v[k] == w[k] {
      assert Lookup(v, k) == Lookup(w, k);
    }
  }

  const WriteSize := (k: Key, v: Value) => |k.bytes| + |v.bytes|
  const DeleteSize := (k: Key, b: bool) => |k.bytes|

  ghost function AsMap(s: set<Key>): map<Key, bool> {
    map k | k in s :: true
  }

  /** The exact size of everything pending. */
  ghost function PendingSize(writes: Data, deletes: set<Key>): int {
    Total(writes, WriteSize) + Total(AsMap(deletes), DeleteSize)
  }

  lemma SizeOfWrite(writes: Data, k: Key, v: Value)
    ensures Total(writes[k := v], WriteSize) ==
            Total(writes, WriteSize) + |k.bytes| + |v.bytes| - if k in writes then |k.bytes| + |writes[k].bytes| else 0
  {
    if k in writes {
      TotalReplace(writes, WriteSize, k, v);
    } else {
      TotalAdd(writes, WriteSize, k, v);
    }
  }

  lemma SizeWithoutWrite(writes: Data, k: Key)
    ensures Total(writes - {k}, WriteSize) ==
            Total(writes, WriteSize) - if k in writes then |k.bytes| + |writes[k].bytes| else 0
  {
    if k in writes {
      TotalRemove(writes, WriteSize, k);
    } else {
      assert writes - {k} == writes;
    }
  }

  lemma SizeOfDelete(deletes: set<Key>, k: Key)
    ensures Total(AsMap(deletes + {k}), DeleteSize) ==
            Total(AsMap(deletes), DeleteSize) + if k in deletes then 0 else |k.bytes|
    ensures Total(AsMap(deletes - {k}), DeleteSize) ==
            Total(AsMap(deletes), DeleteSize) - if k in deletes then |k.bytes| else 0
  {
    if k in deletes {
      assert deletes + {k} == deletes;
      TotalRemove(AsMap(deletes), DeleteSize, k);
      assert AsMap(deletes) - {k} == AsMap(deletes - {k});
    } else {
      assert deletes - {k} == deletes;
      TotalAdd(AsMap(deletes), DeleteSize, k, true);
      assert AsMap(deletes)[k := true] == AsMap(deletes + {k});
    }
  }

  /** What a key takes up among the writes, and what its mark takes up among the deletes. */
  function WriteCharge(writes: Data, k: Key): int {
    if k in writes then |k.bytes| + |writes[k].bytes| else 0
  }

  function DeleteCharge(deletes: set<Key>, k: Key): int {
    if k in deletes then |k.bytes| else 0
  }

  /** Writing a key moves it from the deletes to the writes. */
  lemma Written(writes: Data, deletes: set<Key>, below: Data, k: Key, v: Value)
    ensures Overlay(writes[k := v], deletes - {k}, below) == Overlay(writes, deletes, below)[k := v]
    ensures PendingSize(writes[k := v], deletes - {k}) ==
            PendingSize(writes, deletes) - (WriteCharge(writes, k) + DeleteCharge(deletes, k)) + |k.bytes| + |v.bytes|
    ensures k !in deletes ==> deletes - {k} == deletes
  {
    SameData(Overlay(writes[k := v], deletes - {k}, below), Overlay(writes, deletes, below)[k := v]);
    SizeOfWrite(writes, k, v);
    SizeOfDelete(deletes, k);
  }

  /** Erasing a key moves it from the writes to the deletes. */
  lemma Erased(writes: Data, deletes: set<Key>, below: Data, k: Key)
    ensures Overlay(writes - {k}, deletes + {k}, below) == Overlay(writes, deletes, below) - {k}
    ensures PendingSize(writes - {k}, deletes + {k}) ==
            PendingSize(writes, deletes) + |k.bytes| - DeleteCharge(deletes, k) - WriteCharge(writes, k)
    ensures k !in writes ==> writes - {k} == writes
  {
    SameData(Overlay(writes - {k}, deletes + {k}, below), Overlay(writes, deletes, below) - {k});
    SizeWithoutWrite(writes, k);
    SizeOfDelete(deletes, k);
  }

  /** Laying one overlay over another is one overlay: the inner one's deletes and
      writes take precedence. */
  lemma OverlayTwice(w: Data, d: set<Key>, w': Data, d': set<Key>, below: Data)
    requires w.Keys !! d
    ensures Overlay((w' - d) + w, (d' + d) - w.Keys, below) == Overlay(w, d, Overlay(w', d', below))
  {
    SameData(Overlay((w' - d) + w, (d' + d) - w.Keys, below), Overlay(w, d, Overlay(w', d', below)));
  }

  lemma OneMore(data: Data, todo: set<Key>, k: Key, deletes: set<Key>)
    requires k in todo && todo <= data.Keys && data.Keys !! deletes
    ensures data - (todo - {k}) == (data - todo)[k := data[k]]
    ensures deletes - {k} == deletes && |todo - {k}| == |todo| - 1
  {
  }

  lemma EmptyOverlay(below: Data)
    ensures Overlay(map[], {}, below) == below
  {
    SameData(Overlay(map[], {}, below), below);
  }

  class Store {
    var data: Data

    constructor (data: Data)
      ensures this.data == data
    {
      this.data := data;
    }

    method WriteBatch(batch: Batch)
      modifies this
      ensures data == Replay(batch.ops, old(data))
    {
      var before := data;
      assert batch.ops[..0] == [];
      for i := 0 to |batch.ops|
        invariant data == Replay(batch.ops[..i], before)
      {
        ReplayOneMore(batch.ops[..i], batch.ops[i], before);
        assert batch.ops[..i + 1] == batch.ops[..i] + [batch.ops[i]];
        match batch.ops[i]
        case Put(k, v) => data := data[k := v];
        case Drop(k) => data := data - {k};
      }
      assert batch.ops[..|batch.ops|] == batch.ops;
    }
  }

  datatype Parent = Db(store: Store) | Outer(txn: Transaction)

  class Transaction {
    const parent: Parent
    var writes: Data
    var deletes: set<Key>
    var memoryUsage: int
    /** This transaction and everything it reads from. */
    ghost const Repr: set<object>

    ghost predicate Wired()
      decreases Repr
    {
      && this in Repr
      && match parent
         case Db(s) => Repr == {this, s}
         case Outer(t) => t in t.Repr && Repr == {this} + t.Repr && this !in t.Repr && t.Wired()
    }

    ghost predicate Valid()
      reads this
    {
      Wired() && writes.Keys !! deletes && memoryUsage == PendingSize(writes, deletes)
    }

    /** This transaction and all the ones around it are in order. */
    ghost predicate ValidStack()
      reads this, Repr
      decreases Repr
    {
      Valid() && (parent.Outer? ==> parent.txn.ValidStack())
    }

    ghost function ParentView(): Data
      requires Wired()
      reads Repr - {this}
      decreases Repr
    {
      match parent
      case Db(s) => s.data
      case Outer(t) => Overlay(t.writes, t.deletes, t.ParentView())
    }

    /** What reads through this transaction see. */
    ghost function View(): Data
      requires Wired()
      reads Repr
    {
      Overlay(writes, deletes, ParentView())
    }

    constructor Over(parent: Parent)
      requires parent.Outer? ==> parent.txn.Wired() && parent.txn in parent.txn.Repr
      ensures Valid() && this.parent == parent && writes == map[] && deletes == {} && View() == ParentView()
      ensures Repr == {this} + if parent.Db? then {parent.store} else parent.txn.Repr
    {
      this.parent := parent;
      writes, deletes, memoryUsage := map[], {}, 0;
      Repr := {this} + if parent.Db? then {parent.store} else parent.txn.Repr;
      new;
      EmptyOverlay(ParentView());
    }

    method Write(k: Key, v: Value)
      requires Valid()
      modifies this
      ensures Valid() && View() == old(View())[k := v] && ParentView() == old(ParentView())
      ensures writes == old(writes)[k := v] && deletes == old(deletes) - {k}
    {
      ghost var below := ParentView();
      Written(writes, deletes, below, k, v);
      var oldMemoryUsage := WriteCharge(writes, k) + DeleteCharge(deletes, k);
      memoryUsage := memoryUsage - oldMemoryUsage + |k.bytes| + |v.bytes|;
      writes := writes[k := v];
      if k in deletes {
        deletes := deletes - {k};
      }
      assert ParentView() == below;
    }

    method Erase(k: Key)
      requires Valid()
      modifies this
      ensures Valid() && View() == old(View()) - {k} && ParentView() == old(ParentView())
      ensures writes == old(writes) - {k} && deletes == old(deletes) + {k}
    {
      ghost var below := ParentView();
      Erased(writes, deletes, below, k);
      memoryUsage := memoryUsage + |k.bytes| - DeleteCharge(deletes, k) - WriteCharge(writes, k);
      deletes := deletes + {k};
      if k in writes {
        writes := writes - {k};
      }
      assert ParentView() == below;
    }

    method Read(k: Key) returns (r: Option<Value>)
      requires Wired()
      ensures r == Lookup(View(), k)
      decreases Repr
    {
      if k in deletes { return None; }
      if k in writes { return Some(writes[k]); }
      match parent {
        case Db(s) => return Lookup(s.data, k);
        case Outer(t) => r := t.Read(k);
      }
    }

    method Exists(k: Key) returns (e: bool)
      requires Wired()
      ensures e <==> k in View()
      decreases Repr
    {
      assert k in View() <==> Lookup(View(), k).Some?;
      if k in deletes { return false; }
      if k in writes { return true; }
      match parent {
        case Db(s) => return k in s.data;
        case Outer(t) => e := t.Exists(k);
      }
    }

    method Clear()
      requires Wired()
      modifies this
      ensures Valid() && IsClean() && View() == ParentView() == old(ParentView())
    {
      writes, deletes, memoryUsage := map[], {}, 0;
      EmptyOverlay(ParentView());
    }

    predicate IsClean()
      reads this
    {
      writes == map[] && deletes == {}
    }

    /** The delete half of Commit's application loop, on the commit target. */
    method ApplyDelete(k: Key)
      requires Valid()
      modifies this
      ensures Valid() && writes == old(writes) - {k} && deletes == old(deletes) + {k}
    {
      Erased(writes, deletes, map[], k);
      assert k !in deletes || k !in writes;
      if k !in deletes {
        deletes := deletes + {k};
        memoryUsage := memoryUsage + |k.bytes|;
      } else {
        assert deletes + {k} == deletes;
      }
      if k in writes {
        memoryUsage := memoryUsage - (|k.bytes| + |writes[k].bytes|);
        writes := writes - {k};
      }
    }

    /** The write half of Commit's application loop, on the commit target. */
    method ApplyWrite(k: Key, v: Value)
      requires Valid()
      modifies this
      ensures Valid() && writes == old(writes)[k := v] && deletes == old(deletes) - {k}
    {
      Written(writes, deletes, map[], k, v);
      assert k !in writes || k !in deletes;
      if k in writes {
        assert deletes - {k} == deletes;
        memoryUsage := memoryUsage + |v.bytes| - |writes[k].bytes|;
        writes := writes[k := v];
      } else {
        writes := writes[k := v];
        memoryUsage := memoryUsage + |k.bytes| + |v.bytes|;
        if k in deletes {
          deletes := deletes - {k};
          memoryUsage := memoryUsage - |k.bytes|;
        } else {
          assert deletes - {k} == deletes;
        }
      }
    }

    /** Stages deletes one by one; running out of `budget` allocations throws. */
    method EraseAll(keys: set<Key>, budget: nat) returns (left: nat, thrown: bool)
      requires Valid() && IsClean()
      modifies this
      ensures Valid()
      ensures thrown <==> budget < |keys|
      ensures !thrown ==> writes == map[] && deletes == keys && left == budget - |keys|
    {
      var todo := keys;
      left := budget;
      while todo != {}
        invariant todo <= keys && Valid()
        invariant writes == map[] && deletes == keys - todo
        invariant left == budget - |keys| + |todo|
        decreases todo
      {
        if left == 0 { return left, true; }
        var k :| k in todo;
        Erase(k);
        todo, left := todo - {k}, left - 1;
      }
      thrown := false;
    }

    /** Stages writes one by one; running out of `budget` allocations throws. */
    method WriteAll(data: Data, budget: nat) returns (thrown: bool)
      requires Valid() && writes == map[] && data.Keys !! deletes
      modifies this
      ensures Valid()
      ensures thrown <==> budget < |data|
      ensures !thrown ==> writes == data && deletes == old(deletes)
    {
      var todo, left := data.Keys, budget;
      while todo != {}
        invariant todo <= data.Keys && Valid()
        invariant writes == data - todo && deletes == old(deletes)
        invariant left == budget - |data| + |todo|
        decreases todo
      {
        if left == 0 { return true; }
        var k :| k in todo;
        OneMore(data, todo, k, deletes);
        Write(k, data[k]);
        todo, left := todo - {k}, left - 1;
      }
      thrown := false;
    }

    /** Copies the pending changes into a staging transaction beside the target. */
    method Stage(budget: nat) returns (staged: Transaction, thrown: bool)
      requires Valid() && parent.Outer?
      ensures fresh(staged) && staged.Valid()
      ensures thrown <==> budget < |deletes| + |writes|
      ensures !thrown ==> staged.writes == writes && staged.deletes == deletes
    {
      assert parent.txn.Wired();
      staged := new Transaction.Over(parent.txn.parent);
      var left;
      left, thrown := staged.EraseAll(deletes, budget);
      if thrown { return; }
      thrown := staged.WriteAll(writes, left);
    }

    /** Applies prepared deletes. */
    method TakeDeletes(keys: set<Key>)
      requires Valid()
      modifies this
      ensures Valid() && writes == old(writes) - keys && deletes == old(deletes) + keys
    {
      var todo := keys;
      while todo != {}
        invariant todo <= keys && Valid()
        invariant writes == old(writes) - (keys - todo) && deletes == old(deletes) + (keys - todo)
        decreases todo
      {
        var k :| k in todo;
        ApplyDelete(k);
        todo := todo - {k};
        assert keys - todo == (keys - (todo + {k})) + {k};
      }
    }

    /** Applies prepared writes. */
    method TakeWrites(data: Data)
      requires Valid()
      modifies this
      ensures Valid() && writes == old(writes) + data && deletes == old(deletes) - data.Keys
    {
      var todo := data.Keys;
      while todo != {}
        invariant todo <= data.Keys && Valid()
        invariant writes == old(writes) + (data - todo) && deletes == old(deletes) - (data.Keys - todo)
        decreases todo
      {
        var k :| k in todo;
        ApplyWrite(k, data[k]);
        todo := todo - {k};
      }
    }

    /** Commit's second half, on the target: take over a prepared change. */
    method Absorb(newWrites: Data, newDeletes: set<Key>)
      requires Valid() && newWrites.Keys !! newDeletes
      modifies this
      ensures Valid() && View() == Overlay(newWrites, newDeletes, old(View()))
      ensures ParentView() == old(ParentView())
    {
      OverlayTwice(newWrites, newDeletes, writes, deletes, ParentView());
      TakeDeletes(newDeletes);
      TakeWrites(newWrites);
    }

    /** Hands a prepared change to the target and starts afresh. */
    method Apply(staged: Transaction)
      requires Valid() && parent.Outer? && parent.txn.Valid()
      requires staged.writes == writes && staged.deletes == deletes && staged != this && staged != parent.txn
      modifies this, parent.txn
      ensures Valid() && parent.txn.Valid() && IsClean()
      ensures View() == old(View()) && parent.txn.View() == old(View())
      ensures parent.txn.ParentView() == old(parent.txn.ParentView())
    {
      parent.txn.Absorb(staged.writes, staged.deletes);
      assert ParentView() == old(View());
      Clear();
    }

    /** Commits into the surrounding transaction: either all of it, or, if staging
        fails, nothing. Afterwards that transaction shows what this one showed. */
    method Commit(budget: nat) returns (thrown: bool)
      requires Valid() && parent.Outer? && parent.txn.Valid()
      modifies this, parent.txn
      ensures Valid() && parent.txn.Valid() && View() == old(View())
      ensures thrown <==> budget < |old(deletes)| + |old(writes)|
      ensures thrown ==> unchanged(this) && unchanged(parent.txn)
      ensures !thrown ==> IsClean() && parent.txn.View() == old(View())
      ensures parent.txn.ParentView() == old(parent.txn.ParentView())
    {
      var staged;
      staged, thrown := Stage(budget);
      if !thrown {
        Apply(staged);
      }
    }

    /** Commits the outermost transaction into a batch: whatever a store would
        hold after the batch, it now holds that with this overlay on top. */
    method CommitTo(batch: Batch, ghost data: Data)
      requires Valid() && batch !in Repr
      modifies this, batch
      ensures Valid() && IsClean()
      ensures Replay(batch.ops, data) == Overlay(old(writes), old(deletes), Replay(old(batch.ops), data))
    {
      ghost var v := Replay(batch.ops, data);
      SameData(Overlay(writes, {}, Overlay(map[], deletes, v)), Overlay(writes, deletes, v));
      batch.EraseAll(deletes, data);
      batch.WriteAll(writes, data);
      Clear();
    }

    /** What the transactions around this one show, outwards to the store. */
    ghost function Below(): (views: seq<Data>)
      requires Wired()
      ensures views != [] && views[0] == ParentView()
      reads Repr - {this}
      decreases Repr, 0
    {
      match parent
      case Db(s) => [s.data]
      case Outer(t) => t.Views()
    }

    /** What this transaction and those around it show. */
    ghost function Views(): (views: seq<Data>)
      requires Wired()
      ensures |views| >= 2
      reads Repr
      decreases Repr, 1
    {
      [View()] + Below()
    }

    /** How many allocations a commit some levels out takes: the outermost one stages nothing. */
    ghost function Staging(level: nat): nat
      requires Wired()
      reads Repr
      decreases level
    {
      match parent
      case Db(s) => 0
      case Outer(t) => if level == 0 then |deletes| + |writes| else t.Staging(level - 1)
    }

    /** Commits the outermost transaction to the store, by way of a batch. */
    method CommitRoot()
      requires Valid() && parent.Db?
      modifies this, parent.store
      ensures Valid() && Views() == [old(View()), old(View())]
    {
      var batch := new Batch();
      ghost var data := parent.store.data;
      CommitTo(batch, data);
      parent.store.WriteBatch(batch);
      EmptyOverlay(ParentView());
    }

    /** The transactions further out are in order. */
    ghost predicate ValidBelow()
      requires Wired()
      reads Repr - {this}
    {
      parent.Outer? ==> parent.txn.ValidStack()
    }

    twostate lemma Undisturbed()
      requires Wired() && unchanged(Repr - {this})
      ensures Below() == old(Below()) && (ValidBelow() <==> old(ValidBelow()))
    {
    }

    method CommitNested(t: Transaction, budget: nat) returns (thrown: bool)
      requires ValidStack() && parent == Outer(t)
      modifies this, t
      ensures Valid() && t.Valid() && t.ValidBelow() && t.Below() == old(t.Below())
      ensures View() == old(View()) && t.View() == if thrown then old(t.View()) else old(View())
      ensures thrown <==> budget < |old(deletes)| + |old(writes)|
    {
      assert t.ValidBelow();
      thrown := Commit(budget);
      t.Undisturbed();
    }

    /** Commits this transaction into what surrounds it. */
    method CommitOut(budget: nat) returns (thrown: bool)
      requires ValidStack()
      modifies Repr
      ensures ValidStack()
      ensures Views() == if thrown then old(Views()) else Committed(old(Views()), 0)
      ensures thrown <==> budget < old(Staging(0))
    {
      match parent {
        case Db(s) =>
          CommitRoot();
          thrown := false;
        case Outer(t) =>
          ghost var v, w, below := View(), t.View(), t.Below();
          assert t.Views() == [w] + below;
          CommittedFirst(v, w, below);
          thrown := CommitNested(t, budget);
          assert t.Views() == [if thrown then w else v] + below;
      }
    }

    /** Commits the transaction some levels out; levels beyond the outermost do nothing. */
    method CommitAt(level: nat, budget: nat, ghost need: nat) returns (thrown: bool)
      requires ValidStack() && need == Staging(level)
      modifies Repr
      ensures ValidStack()
      ensures Views() == if thrown then old(Views()) else Committed(old(Views()), level)
      ensures thrown <==> budget < need
      decreases level, 1
    {
      if level == 0 {
        thrown := CommitOut(budget);
      } else {
        match parent {
          case Db(s) =>
            thrown := false;
          case Outer(t) =>
            thrown := CommitFurther(t, level, budget, need);
        }
      }
    }

    method CommitFurther(t: Transaction, level: nat, budget: nat, ghost need: nat) returns (thrown: bool)
      requires ValidStack() && level > 0 && parent == Outer(t) && need == t.Staging(level - 1)
      modifies Repr - {this}
      ensures ValidStack()
      ensures Views() == if thrown then old(Views()) else Committed(old(Views()), level)
      ensures thrown <==> budget < need
      decreases level, 0
    {
      ghost var views := t.Views();
      thrown := t.CommitAt(level - 1, budget, need);
      CommittedInside(views, View(), level);
    }

    /** A change of the innermost level leaves the others alone. */
    method Change(op: Op)
      requires ValidStack() && !op.Commit?
      modifies this
      ensures Valid() && ValidBelow() && Below() == old(Below())
      ensures View() == match op
                        case Write(k, v) => old(View())[k := v]
                        case Erase(k) => old(View()) - {k}
                        case Clear => old(ParentView())
    {
      assert ValidBelow();
      match op
      case Write(k, v) => Write(k, v);
      case Erase(k) => Erase(k);
      case Clear => Clear();
      Undisturbed();
    }

    /** Memory for everything that a commit stages. */
    method EnoughFor(level: nat) returns (budget: nat)
      requires Wired()
      ensures budget == Staging(level)
      decreases level
    {
      match parent
      case Db(s) => budget := 0;
      case Outer(t) =>
        if level == 0 {
          budget := |deletes| + |writes|;
        } else {
          budget := t.EnoughFor(level - 1);
        }
    }

    /** One step of a run: changes at the innermost level, commits at any. */
    method Do(op: Op) returns (thrown: bool)
      requires ValidStack()
      modifies Repr
      ensures ValidStack() && Views() == Plain(old(Views()), op, thrown)
      ensures thrown ==> op.Commit? && op.scarce
    {
      thrown := false;
      if op.Commit? {
        var budget := op.budget;
        if !op.scarce {
          budget := EnoughFor(op.level);
        }
        thrown := CommitAt(op.level, budget, Staging(op.level));
      } else {
        ghost var below := Below();
        Change(op);
        assert Views() == [View()] + below;
      }
    }

    /** Over every run, at every depth, the transactions stand for a stack of plain maps;
        a commit that throws changes nothing, and none does unless memory is scarce. */
    method Run(ops: seq<Op>) returns (thrown: seq<bool>)
      requires ValidStack()
      modifies Repr
      ensures ValidStack() && |thrown| == |ops| && Views() == RunPlain(old(Views()), ops, thrown)
      ensures forall i :: 0 <= i < |ops| && thrown[i] ==> ops[i].Commit? && ops[i].scarce
    {
      thrown := [];
      ghost var views := Views();
      for i := 0 to |ops|
        invariant ValidStack() && |thrown| == i && Views() == RunPlain(views, ops[..i], thrown)
        invariant forall j :: 0 <= j < i && thrown[j] ==> ops[j].Commit? && ops[j].scarce
      {
        var failed := Do(ops[i]);
        RunOneMore(views, ops, thrown, failed);
        thrown := thrown + [failed];
      }
      assert ops[..|ops|] == ops;
    }
  }

  /** A step of a run. A commit has as many allocations as it needs, or a budget if memory is scarce. */
  datatype Op = Write(k: Key, v: Value) | Erase(k: Key) | Clear | Commit(level: nat, scarce: bool, budget: nat)

  /** A commit copies a level's map to the level around it. */
  ghost function Committed(views: seq<Data>, level: nat): seq<Data> {
    if level + 1 < |views| then views[level + 1 := views[level]] else views
  }

  lemma CommittedFirst(v: Data, w: Data, below: seq<Data>)
    ensures Committed([v] + ([w] + below), 0) == [v] + ([v] + below)
  {
  }

  lemma CommittedInside(views: seq<Data>, inner: Data, level: nat)
    requires level > 0
    ensures Committed([inner] + views, level) == [inner] + Committed(views, level - 1)
  {
  }

  /** What a step does to a stack of plain maps, the innermost first and the store's last. */
  ghost function Plain(views: seq<Data>, op: Op, thrown: bool): (after: seq<Data>)
    requires |views| >= 2
    ensures |after| == |views|
  {
    match op
    case Write(k, v) => views[0 := views[0][k := v]]
    case Erase(k) => views[0 := views[0] - {k}]
    case Clear => views[0 := views[1]]
    case Commit(level, _, _) => if thrown then views else Committed(views, level)
  }

  ghost function RunPlain(views: seq<Data>, ops: seq<Op>, thrown: seq<bool>): (after: seq<Data>)
    requires |views| >= 2 && |ops| == |thrown|
    ensures |after| == |views|
  {
    if ops == [] then views
    else
      var n := |ops| - 1;
      Plain(RunPlain(views, ops[..n], thrown[..n]), ops[n], thrown[n])
  }

  lemma RunOneMore(views: seq<Data>, ops: seq<Op>, thrown: seq<bool>, failed: bool)
    requires |views| >= 2 && |thrown| < |ops|
    ensures RunPlain(views, ops[..|thrown| + 1], thrown + [failed]) ==
            Plain(RunPlain(views, ops[..|thrown|], thrown), ops[|thrown|], failed)
  {
    var n := |thrown|;
    assert ops[..n + 1][..n] == ops[..n] && (thrown + [failed])[..n] == thrown;
  }

  datatype BatchOp = Put(k: Key, v: Value) | Drop(k: Key)

  ghost function Replayed(data: Data, op: BatchOp): Data {
    match op
    case Put(k, v) => data[k := v]
    case Drop(k) => data - {k}
  }

  /** A store's data after a batch is written to it. */
  ghost function Replay(ops: seq<BatchOp>, data: Data): Data {
    if ops == [] then data else Replayed(Replay(ops[..|ops| - 1], data), ops[|ops| - 1])
  }

  lemma ReplayOneMore(ops: seq<BatchOp>, op: BatchOp, data: Data)
    ensures Replay(ops + [op], data) == Replayed(Replay(ops, data), op)
  {
    assert (ops + [op])[..|ops|] == ops;
  }

  class Batch {
    var ops: seq<BatchOp>

    constructor ()
      ensures ops == []
    {
      ops := [];
    }

    method EraseAll(keys: set<Key>, ghost data: Data)
      modifies this
      ensures Replay(ops, data) == Overlay(map[], keys, Replay(old(ops), data))
    {
      var todo := keys;
      ghost var v := Replay(ops, data);
      EmptyOverlay(v);
      while todo != {}
        invariant todo <= keys && Replay(ops, data) == Overlay(map[], keys - todo, v)
        decreases todo
      {
        var k :| k in todo;
        ReplayOneMore(ops, Drop(k), data);
        SameData(Overlay(map[], keys - todo, v) - {k}, Overlay(map[], keys - (todo - {k}), v));
        ops := ops + [Drop(k)];
        todo := todo - {k};
      }
      assert keys - todo == keys;
    }

    method WriteAll(writes: Data, ghost data: Data)
      modifies this
      ensures Replay(ops, data) == Overlay(writes, {}, Replay(old(ops), data))
    {
      var todo := writes.Keys;
      ghost var v := Replay(ops, data);
      EmptyOverlay(v);
      assert writes - todo == map[];
      while todo != {}
        invariant todo <= writes.Keys && Replay(ops, data) == Overlay(writes - todo, {}, v)
        decreases todo
      {
        var k :| k in todo;
        ReplayOneMore(ops, Put(k, writes[k]), data);
        SameData(Overlay(writes - todo, {}, v)[k := writes[k]], Overlay(writes - (todo - {k}), {}, v));
        ops := ops + [Put(k, writes[k])];
        todo := todo - {k};
      }
      assert writes - todo == writes;
    }
  }
}
