/** The address manager's own consistency check, which every consistent book passes. */
module AddrCheck {
  import opened AddrBook
  import opened AddrFile
  import opened AddrLoad
  import opened Sums
  import M = AddrMan

  // ----- Entries -----

  /** The networks that entries are on. */
  ghost function NetsOf(info: map<int, AddrInfo>): set<nat> {
    set id | id in info :: info[id].addr.net
  }

  ghost predicate Collected(part: map<int, AddrInfo>, tried: set<int>, fresh_: map<int, int>, local: map<nat, Counts>) {
    && (forall id :: id in tried <==> id in part && part[id].inTried)
    && (forall id :: id in fresh_ <==> id in part && !part[id].inTried)
    && (forall id :: id in fresh_ ==> fresh_[id] == part[id].refCount)
    && CountsOk(part, |fresh_|, |tried|, local)
    && local.Keys == NetsOf(part)
  }

  function CollectTried(tried: set<int>, id: int, e: AddrInfo): set<int> {
    if e.inTried then tried + {id} else tried
  }

  function CollectNew(fresh_: map<int, int>, id: int, e: AddrInfo): map<int, int> {
    if e.inTried then fresh_ else fresh_[id := e.refCount]
  }

  function CollectNet(local: map<nat, Counts>, e: AddrInfo): map<nat, Counts> {
    if e.inTried then Bumped(local, e.addr.net, 0, 1) else Bumped(local, e.addr.net, 1, 0)
  }

  lemma CollectOne(part: map<int, AddrInfo>, tried: set<int>, fresh_: map<int, int>, local: map<nat, Counts>, id: int,
                   e: AddrInfo)
    requires Collected(part, tried, fresh_, local) && id !in part
    ensures Collected(part[id := e], CollectTried(tried, id, e), CollectNew(fresh_, id, e), CollectNet(local, e))
  {
    CountsAdd(part, |fresh_|, |tried|, local, id, e);
    NetsGrow(part, id, e);
    var fresh', tried' := CollectNew(fresh_, id, e), CollectTried(tried, id, e);
    assert |fresh'| == |fresh_| + (if e.inTried then 0 else 1) && |tried'| == |tried| + (if e.inTried then 1 else 0);
  }

  lemma NetsGrow(part: map<int, AddrInfo>, id: int, e: AddrInfo)
    requires id !in part
    ensures NetsOf(part[id := e]) == NetsOf(part) + {e.addr.net}
  {
    var part' := part[id := e];
    forall net ensures net in NetsOf(part') <==> net in NetsOf(part) + {e.addr.net} {
      if net in NetsOf(part') {
        var j :| j in part' && part'[j].addr.net == net;
        assert j != id ==> j in part && part[j].addr.net == net;
      }
      if net in NetsOf(part) {
        var j :| j in part && part[j].addr.net == net;
        assert part'[j].addr.net == net;
      }
      assert part'[id].addr.net == e.addr.net;
    }
  }

  /** What one entry must look like; 0 when it does. */
  function EntryCode(e: AddrInfo, id: int, addrs: map<Service, int>, random: seq<int>): int {
    if e.inTried && e.lastSuccess == 0 then -1
    else if e.inTried && e.refCount != 0 then -2
    else if !e.inTried && (e.refCount < 0 || e.refCount > MAX_REFERENCES) then -3
    else if !e.inTried && e.refCount == 0 then -4
    else if e.addr !in addrs || addrs[e.addr] != id then -5
    else if e.randomPos < 0 || e.randomPos >= |random| || random[e.randomPos] != id then -14
    else if e.lastTry < 0 then -6
    else if e.lastSuccess < 0 then -8
    else 0
  }

  ghost predicate PassesAt(info: map<int, AddrInfo>, addrs: map<Service, int>, random: seq<int>, id: int)
    requires id in info
  {
    EntryCode(info[id], id, addrs, random) == 0
  }

  /** Every entry but those still to do is as it must be. */
  ghost predicate PassedBut(info: map<int, AddrInfo>, addrs: map<Service, int>, random: seq<int>, todo: set<int>) {
    forall id {:trigger PassesAt(info, addrs, random, id)} ::
      id in info && id !in todo ==> PassesAt(info, addrs, random, id)
  }

  ghost predicate EntriesPass(info: map<int, AddrInfo>, addrs: map<Service, int>, random: seq<int>) {
    PassedBut(info, addrs, random, {})
  }

  /** Some entry fails with this code. */
  ghost predicate Faulty(info: map<int, AddrInfo>, addrs: map<Service, int>, random: seq<int>, code: int) {
    exists id :: id in info && EntryCode(info[id], id, addrs, random) == code
  }

  lemma EntryPasses(s: Book, id: int)
    requires Consistent(s) && id in s.info
    ensures EntryCode(s.info[id], id, s.addrs, s.random) == 0 <==> M.TimeOk(s.info[id])
  {
    assert Placed(s.info, s.random, id) && Indexed(s.info, s.addrs, id) && NewEntryOk(s.hash, s.info, s.newTable, id);
    if s.info[id].inTried {
      TriedUnreferenced(s.hash, s.info, s.newTable, id);
    }
  }

  lemma PassedMore(info: map<int, AddrInfo>, addrs: map<Service, int>, random: seq<int>, todo: set<int>, id: int)
    requires PassedBut(info, addrs, random, todo) && id in info && EntryCode(info[id], id, addrs, random) == 0
    ensures PassedBut(info, addrs, random, todo - {id})
  {
  }

  /** Looks at every entry, sorting the ids by table and counting them by network. */
  method Sort(info: map<int, AddrInfo>, addrs: map<Service, int>, random: seq<int>)
    returns (code: int, tried: set<int>, fresh_: map<int, int>, local: map<nat, Counts>)
    ensures code == 0 ==> Collected(info, tried, fresh_, local)
    ensures code == 0 <==> EntriesPass(info, addrs, random)
    ensures code != 0 ==> code in {-1, -2, -3, -4, -5, -14, -6, -8} && Faulty(info, addrs, random, code)
  {
    code, tried, fresh_, local := 0, {}, map[], map[];
    var todo := info.Keys;
    Without(info, todo, EMPTY);
    while |todo| > 0
      invariant todo <= info.Keys && Collected(info - todo, tried, fresh_, local) && code == 0
      invariant PassedBut(info, addrs, random, todo)
      decreases |todo|
    {
      Inhabited(todo);
      var id :| id in todo;
      var e := info[id];
      code := EntryCode(e, id, addrs, random);
      if code != 0 {
        assert !PassesAt(info, addrs, random, id);
        return;
      }
      PassedMore(info, addrs, random, todo, id);
      CollectOne(info - todo, tried, fresh_, local, id, e);
      Without(info, todo, id);
      tried, fresh_, local := CollectTried(tried, id, e), CollectNew(fresh_, id, e), CollectNet(local, e);
      todo := todo - {id};
    }
    Without(info, todo, EMPTY);
  }

  lemma Without(info: map<int, AddrInfo>, todo: set<int>, id: int)
    requires todo <= info.Keys
    ensures id in todo ==> info - (todo - {id}) == (info - todo)[id := info[id]]
    ensures todo == info.Keys ==> info - todo == map[]
    ensures todo == {} ==> info - todo == info
  {
  }

  // ----- The tried table -----

  predicate Before(b: int, p: int, n: int, i: int) {
    b < n || (b == n && p < i)
  }

  /** A tried entry has been met in its own slot. */
  ghost predicate Met(s: Book, id: int, n: int, i: int)
    requires id in s.info && Shape(s.triedTable, TRIED_BUCKETS)
  {
    var b := TriedBucket(s.hash, s.info[id].addr);
    var p := Position(s.hash, false, b, s.info[id].addr);
    Before(b, p, n, i) && s.triedTable[b][p] == id
  }

  /** The tried ids that have not been met, and no slot so far was wrong. */
  ghost predicate TriedLeft(s: Book, left: set<int>, n: int, i: int)
    requires Shape(s.triedTable, TRIED_BUCKETS)
  {
    && (forall id :: id in left <==> id in s.info && s.info[id].inTried && !Met(s, id, n, i))
    && (forall b, p {:trigger TriedSlotOk(s.hash, s.info, s.triedTable, b, p)} ::
          InTable(b, p, TRIED_BUCKETS) && Before(b, p, n, i) ==> TriedSlotOk(s.hash, s.info, s.triedTable, b, p))
  }

  /** What a slot of the tried table must hold; 0 when it does. */
  function TriedCode(h: Hash, info: map<int, AddrInfo>, left: set<int>, id: int, n: nat, i: nat): int {
    if id == EMPTY then 0
    else if id !in left then -11
    else if id !in info || TriedBucket(h, info[id].addr) != n then -17
    else if Position(h, false, n, info[id].addr) != i then -18
    else 0
  }

  lemma TriedScan(s: Book, left: set<int>, n: nat, i: nat)
    requires InTable(n, i, TRIED_BUCKETS) && Shape(s.triedTable, TRIED_BUCKETS) && TriedLeft(s, left, n, i)
    requires EMPTY !in s.info
    ensures var code := TriedCode(s.hash, s.info, left, s.triedTable[n][i], n, i);
            && (code == 0 ==> TriedLeft(s, left - {s.triedTable[n][i]}, n, i + 1))
            && (code != 0 ==> !TriedOk(s.hash, s.info, s.triedTable))
  {
    var id := s.triedTable[n][i];
    if TriedOk(s.hash, s.info, s.triedTable) {
      assert TriedSlotOk(s.hash, s.info, s.triedTable, n, i);
    }
    if TriedCode(s.hash, s.info, left, id, n, i) == 0 {
      forall b, p | InTable(b, p, TRIED_BUCKETS) && Before(b, p, n, i + 1)
        ensures TriedSlotOk(s.hash, s.info, s.triedTable, b, p)
      {
        assert Before(b, p, n, i) || (b == n && p == i);
      }
    }
  }

  /** One bucket of the tried table: every id in it is expected here and met once. */
  method CheckTriedRow(m: M.AddrMan, left: set<int>, n: nat) returns (code: int, left': set<int>)
    requires Shape(m.triedTable, TRIED_BUCKETS) && n < TRIED_BUCKETS && TriedLeft(m.State(), left, n, 0)
    requires EMPTY !in m.info
    ensures code == 0 ==> TriedLeft(m.State(), left', n, BUCKET_SIZE)
    ensures code in {0, -11, -17, -18}
    ensures code != 0 ==> !TriedOk(m.hash, m.info, m.triedTable)
  {
    code, left' := 0, left;
    for i := 0 to BUCKET_SIZE
      invariant code == 0 && TriedLeft(m.State(), left', n, i)
    {
      TriedScan(m.State(), left', n, i);
      code := TriedCode(m.hash, m.info, left', m.triedTable[n][i], n, i);
      if code != 0 {
        return;
      }
      left' := left' - {m.triedTable[n][i]};
    }
  }

  lemma TriedRowDone(s: Book, left: set<int>, n: nat)
    requires Shape(s.triedTable, TRIED_BUCKETS) && TriedLeft(s, left, n, BUCKET_SIZE)
    ensures TriedLeft(s, left, n + 1, 0)
  {
    forall id | id in s.info ensures Met(s, id, n, BUCKET_SIZE) <==> Met(s, id, n + 1, 0) {
    }
    forall b, p | InTable(b, p, TRIED_BUCKETS) && Before(b, p, n + 1, 0)
      ensures TriedSlotOk(s.hash, s.info, s.triedTable, b, p)
    {
      assert Before(b, p, n, BUCKET_SIZE);
    }
  }

  lemma TriedEnd(s: Book, left: set<int>)
    requires Shape(s.triedTable, TRIED_BUCKETS) && TriedLeft(s, left, TRIED_BUCKETS, 0)
    ensures |left| == 0 <==> TriedOk(s.hash, s.info, s.triedTable)
  {
    forall b, p | InTable(b, p, TRIED_BUCKETS) ensures TriedSlotOk(s.hash, s.info, s.triedTable, b, p) {
      assert Before(b, p, TRIED_BUCKETS, 0);
    }
    if |left| == 0 {
      forall id | id in s.info ensures TriedEntryOk(s.hash, s.info, s.triedTable, id) {
        assert id !in left;
      }
    } else {
      Inhabited(left);
      var id :| id in left;
      assert !TriedEntryOk(s.hash, s.info, s.triedTable, id);
    }
  }

  method CheckTriedTable(m: M.AddrMan, tried: set<int>) returns (code: int, left: set<int>)
    requires Shape(m.triedTable, TRIED_BUCKETS) && EMPTY !in m.info
    requires forall id :: id in tried <==> id in m.info && m.info[id].inTried
    ensures code == 0 ==> (|left| == 0 <==> TriedOk(m.hash, m.info, m.triedTable))
    ensures code in {0, -11, -17, -18}
    ensures code != 0 ==> !TriedOk(m.hash, m.info, m.triedTable)
  {
    code, left := 0, tried;
    for n := 0 to TRIED_BUCKETS
      invariant code == 0 && TriedLeft(m.State(), left, n, 0)
    {
      code, left := CheckTriedRow(m, left, n);
      if code != 0 {
        return;
      }
      TriedRowDone(m.State(), left, n);
    }
    TriedEnd(m.State(), left);
  }

  // ----- The new table -----

  /** The buckets of an entry that have been passed. */
  ghost function Seen(s: Book, id: int, n: int, i: int): set<int>
    requires id in s.info && Shape(s.newTable, NEW_BUCKETS)
  {
    set b | b in Holding(s.hash, s.newTable, id, s.info[id].addr) &&
      Before(b, Position(s.hash, true, b, s.info[id].addr), n, i)
  }

  /** The new ids with references still to come and how many, and no slot so far was wrong. */
  ghost predicate NewLeft(s: Book, left: map<int, int>, n: int, i: int)
    requires Shape(s.newTable, NEW_BUCKETS)
  {
    && (forall id {:trigger LeftAt(s, left, id, n, i)} :: LeftAt(s, left, id, n, i))
    && (forall b, p {:trigger NewSlotOk(s.hash, s.info, s.newTable, b, p)} ::
          InTable(b, p, NEW_BUCKETS) && Before(b, p, n, i) ==> NewSlotOk(s.hash, s.info, s.newTable, b, p))
  }

  ghost predicate LeftAt(s: Book, left: map<int, int>, id: int, n: int, i: int)
    requires Shape(s.newTable, NEW_BUCKETS)
  {
    if id in s.info && !s.info[id].inTried then
      && |Seen(s, id, n, i)| <= s.info[id].refCount
      && (id in left <==> |Seen(s, id, n, i)| < s.info[id].refCount)
      && (id in left ==> left[id] == s.info[id].refCount - |Seen(s, id, n, i)|)
    else id !in left
  }

  lemma SeenMore(s: Book, id: int, n: nat, i: nat)
    requires Shape(s.newTable, NEW_BUCKETS) && id in s.info && InTable(n, i, NEW_BUCKETS)
    ensures s.newTable[n][i] == id && Position(s.hash, true, n, s.info[id].addr) == i ==>
              Seen(s, id, n, i + 1) == Seen(s, id, n, i) + {n} && |Seen(s, id, n, i + 1)| == |Seen(s, id, n, i)| + 1
    ensures s.newTable[n][i] != id ==> Seen(s, id, n, i + 1) == Seen(s, id, n, i)
  {
    if s.newTable[n][i] == id && Position(s.hash, true, n, s.info[id].addr) == i {
      assert Seen(s, id, n, i + 1) == Seen(s, id, n, i) + {n};
      assert n !in Seen(s, id, n, i);
    }
  }

  /** An entry that sits in this slot has a reference left to be seen. */
  lemma StillToCome(s: Book, left: map<int, int>, n: nat, i: nat)
    requires NewOk(s.hash, s.info, s.newTable) && InTable(n, i, NEW_BUCKETS) && NewLeft(s, left, n, i)
    requires s.newTable[n][i] != EMPTY
    ensures s.newTable[n][i] in left && s.newTable[n][i] in s.info
    ensures Position(s.hash, true, n, s.info[s.newTable[n][i]].addr) == i
  {
    var id := s.newTable[n][i];
    assert NewSlotOk(s.hash, s.info, s.newTable, n, i);
    assert NewEntryOk(s.hash, s.info, s.newTable, id) && LeftAt(s, left, id, n, i);
    var all, seen := Holding(s.hash, s.newTable, id, s.info[id].addr), Seen(s, id, n, i);
    assert n in all && n !in seen && seen <= all;
    AddrFile.Smaller(seen, all, n);
  }

  function Decremented(left: map<int, int>, id: int): map<int, int>
    requires id in left
  {
    if left[id] == 1 then left - {id} else left[id := left[id] - 1]
  }

  /** What a slot of the new table must hold; 0 when it does. */
  function NewCode(h: Hash, info: map<int, AddrInfo>, left: map<int, int>, id: int, n: nat, i: nat): int {
    if id == EMPTY then 0
    else if id !in left then -12
    else if id !in info || Position(h, true, n, info[id].addr) != i then -19
    else 0
  }

  function NewAfter(left: map<int, int>, id: int): map<int, int> {
    if id in left then Decremented(left, id) else left
  }

  lemma NewScan(s: Book, left: map<int, int>, n: nat, i: nat)
    requires Shape(s.newTable, NEW_BUCKETS) && InTable(n, i, NEW_BUCKETS) && NewLeft(s, left, n, i) && EMPTY !in s.info
    ensures var code := NewCode(s.hash, s.info, left, s.newTable[n][i], n, i);
            && (code == 0 ==> NewLeft(s, NewAfter(left, s.newTable[n][i]), n, i + 1))
            && (code != 0 ==> !NewOk(s.hash, s.info, s.newTable))
  {
    var id := s.newTable[n][i];
    if NewOk(s.hash, s.info, s.newTable) && id != EMPTY {
      StillToCome(s, left, n, i);
    }
    if NewCode(s.hash, s.info, left, id, n, i) == 0 {
      NewScanned(s, left, n, i, id);
    }
  }

  lemma NewScanned(s: Book, left: map<int, int>, n: nat, i: nat, id: int)
    requires Shape(s.newTable, NEW_BUCKETS) && InTable(n, i, NEW_BUCKETS) && NewLeft(s, left, n, i) && EMPTY !in s.info
    requires id == s.newTable[n][i] && NewCode(s.hash, s.info, left, id, n, i) == 0
    ensures NewLeft(s, NewAfter(left, id), n, i + 1)
  {
    var left', next := NewAfter(left, id), i + 1;
    assert LeftAt(s, left, EMPTY, n, i) && LeftAt(s, left, id, n, i);
    forall j ensures LeftAt(s, left', j, n, next) {
      assert LeftAt(s, left, j, n, i);
      if j in s.info {
        SeenMore(s, j, n, i);
      }
    }
    forall b, p | InTable(b, p, NEW_BUCKETS) && Before(b, p, n, next)
      ensures NewSlotOk(s.hash, s.info, s.newTable, b, p)
    {
      assert Before(b, p, n, i) || (b == n && p == i);
    }
  }

  method CheckNewRow(m: M.AddrMan, left: map<int, int>, n: nat) returns (code: int, left': map<int, int>)
    requires Shape(m.newTable, NEW_BUCKETS) && n < NEW_BUCKETS && NewLeft(m.State(), left, n, 0) && EMPTY !in m.info
    ensures code == 0 ==> NewLeft(m.State(), left', n, BUCKET_SIZE)
    ensures code in {0, -12, -19}
    ensures code != 0 ==> !NewOk(m.hash, m.info, m.newTable)
  {
    code, left' := 0, left;
    for i := 0 to BUCKET_SIZE
      invariant code == 0 && NewLeft(m.State(), left', n, i)
    {
      NewScan(m.State(), left', n, i);
      code := NewCode(m.hash, m.info, left', m.newTable[n][i], n, i);
      if code != 0 {
        return;
      }
      left' := NewAfter(left', m.newTable[n][i]);
    }
  }

  lemma NewRowDone(s: Book, left: map<int, int>, n: nat)
    requires Shape(s.newTable, NEW_BUCKETS) && NewLeft(s, left, n, BUCKET_SIZE)
    ensures NewLeft(s, left, n + 1, 0)
  {
    var next := n + 1;
    forall id ensures LeftAt(s, left, id, next, 0) {
      assert LeftAt(s, left, id, n, BUCKET_SIZE);
      if id in s.info {
        assert Seen(s, id, n, BUCKET_SIZE) == Seen(s, id, next, 0);
      }
    }
    forall b, p | InTable(b, p, NEW_BUCKETS) && Before(b, p, next, 0)
      ensures NewSlotOk(s.hash, s.info, s.newTable, b, p)
    {
      assert Before(b, p, n, BUCKET_SIZE);
    }
  }

  /** A tried entry without references holds no slot of a table whose slots hold new entries. */
  lemma TriedHoldsNone(s: Book, id: int)
    requires Shape(s.newTable, NEW_BUCKETS) && id in s.info && s.info[id].inTried && id != EMPTY
    requires forall b, p {:trigger NewSlotOk(s.hash, s.info, s.newTable, b, p)} ::
               InTable(b, p, NEW_BUCKETS) ==> NewSlotOk(s.hash, s.info, s.newTable, b, p)
    ensures Holding(s.hash, s.newTable, id, s.info[id].addr) == {}
  {
    forall b | 0 <= b < NEW_BUCKETS ensures s.newTable[b][Position(s.hash, true, b, s.info[id].addr)] != id {
      assert NewSlotOk(s.hash, s.info, s.newTable, b, Position(s.hash, true, b, s.info[id].addr));
    }
  }

  lemma NewEnd(s: Book, left: map<int, int>)
    requires Shape(s.newTable, NEW_BUCKETS) && NewLeft(s, left, NEW_BUCKETS, 0) && EMPTY !in s.info
    requires EntriesPass(s.info, s.addrs, s.random)
    ensures |left| == 0 <==> NewOk(s.hash, s.info, s.newTable)
  {
    forall b, p | InTable(b, p, NEW_BUCKETS) ensures NewSlotOk(s.hash, s.info, s.newTable, b, p) {
      assert Before(b, p, NEW_BUCKETS, 0);
    }
    forall id | id in s.info ensures NewEntryOk(s.hash, s.info, s.newTable, id) <==> id !in left {
      assert LeftAt(s, left, id, NEW_BUCKETS, 0) && PassesAt(s.info, s.addrs, s.random, id);
      assert Seen(s, id, NEW_BUCKETS, 0) == Holding(s.hash, s.newTable, id, s.info[id].addr);
      if s.info[id].inTried {
        TriedHoldsNone(s, id);
      }
    }
    if |left| != 0 {
      Inhabited(left.Keys);
      var id :| id in left;
      assert LeftAt(s, left, id, NEW_BUCKETS, 0);
      assert !NewEntryOk(s.hash, s.info, s.newTable, id);
    }
  }

  lemma NewStart(s: Book, fresh_: map<int, int>)
    requires Shape(s.newTable, NEW_BUCKETS) && EntriesPass(s.info, s.addrs, s.random)
    requires forall id :: id in fresh_ <==> id in s.info && !s.info[id].inTried
    requires forall id :: id in fresh_ ==> fresh_[id] == s.info[id].refCount
    ensures NewLeft(s, fresh_, 0, 0)
  {
    forall id ensures LeftAt(s, fresh_, id, 0, 0) {
      if id in s.info {
        assert Seen(s, id, 0, 0) == {};
        assert PassesAt(s.info, s.addrs, s.random, id);
      }
    }
  }

  method CheckNewTable(m: M.AddrMan, fresh_: map<int, int>) returns (code: int, left: map<int, int>)
    requires Shape(m.newTable, NEW_BUCKETS) && EMPTY !in m.info && EntriesPass(m.info, m.addrs, m.random)
    requires forall id :: id in fresh_ <==> id in m.info && !m.info[id].inTried
    requires forall id :: id in fresh_ ==> fresh_[id] == m.info[id].refCount
    ensures code == 0 ==> (|left| == 0 <==> NewOk(m.hash, m.info, m.newTable))
    ensures code in {0, -12, -19}
    ensures code != 0 ==> !NewOk(m.hash, m.info, m.newTable)
  {
    code, left := 0, fresh_;
    NewStart(m.State(), fresh_);
    for n := 0 to NEW_BUCKETS
      invariant code == 0 && NewLeft(m.State(), left, n, 0)
    {
      code, left := CheckNewRow(m, left, n);
      if code != 0 {
        return;
      }
      NewRowDone(m.State(), left, n);
    }
    NewEnd(m.State(), left);
  }

  // ----- Networks -----

  ghost function NetCounts(info: map<int, AddrInfo>, net: nat): Counts {
    Counts(Total(info, NewOn(net)), Total(info, TriedOn(net)))
  }

  /** The recorded network counts are right, and there are enough of them. */
  ghost predicate NetsPass(info: map<int, AddrInfo>, nets: map<nat, Counts>) {
    |NetsOf(info)| <= |nets| && forall net :: net in nets ==> nets[net] == NetCounts(info, net)
  }

  method CheckNets(nets: map<nat, Counts>, local: map<nat, Counts>, ghost info: map<int, AddrInfo>, ghost nNew: int,
                   ghost nTried: int)
    returns (code: int)
    requires CountsOk(info, nNew, nTried, local) && local.Keys == NetsOf(info)
    ensures code == 0 <==> NetsPass(info, nets)
    ensures code != 0 ==> code == -20 || code == -21
    ensures code == -20 ==> |nets| < |NetsOf(info)|
    ensures code == -21 ==> exists net :: net in nets && nets[net] != NetCounts(info, net)
  {
    assert |local.Keys| == |local|;
    if |nets| < |local| {
      return -20;
    }
    var todo := nets.Keys;
    while todo != {}
      invariant todo <= nets.Keys
      invariant forall net :: net in nets && net !in todo ==> nets[net] == CountsOn(local, net)
      decreases |todo|
    {
      var net :| net in todo;
      if CountsOn(local, net) != nets[net] {
        return -21;
      }
      todo := todo - {net};
    }
    code := 0;
  }

  // ----- The whole check -----

  /** What the check accepts. */
  ghost predicate Passes(s: Book)
    requires Shape(s.triedTable, TRIED_BUCKETS) && Shape(s.newTable, NEW_BUCKETS)
  {
    && |s.random| == s.nTried + s.nNew && EntriesPass(s.info, s.addrs, s.random)
    && s.nNew == Total(s.info, IsNew) && s.nTried == Total(s.info, IsTried)
    && TriedOk(s.hash, s.info, s.triedTable) && NewOk(s.hash, s.info, s.newTable)
    && !s.hash.isNull && NetsPass(s.info, s.nets)
  }

  /** What each code of the check says is wrong. */
  ghost predicate Blames(s: Book, code: int)
    requires Shape(s.triedTable, TRIED_BUCKETS) && Shape(s.newTable, NEW_BUCKETS)
  {
    if code == 0 then Passes(s)
    else if code == -7 then |s.random| != s.nTried + s.nNew
    else if code in {-1, -2, -3, -4, -5, -14, -6, -8} then Faulty(s.info, s.addrs, s.random, code)
    else if code == -9 then s.nTried != Total(s.info, IsTried)
    else if code == -10 then s.nNew != Total(s.info, IsNew)
    else if code in {-11, -17, -18, -13} then !TriedOk(s.hash, s.info, s.triedTable)
    else if code in {-12, -19, -15} then !NewOk(s.hash, s.info, s.newTable)
    else if code == -16 then s.hash.isNull
    else if code == -20 then |s.nets| < |NetsOf(s.info)|
    else code == -21 && exists net :: net in s.nets && s.nets[net] != NetCounts(s.info, net)
  }

  /** The check accepts exactly the books it should, and the code says what is wrong with another. */
  method CheckAddrman(m: M.AddrMan) returns (code: int)
    requires Shape(m.triedTable, TRIED_BUCKETS) && Shape(m.newTable, NEW_BUCKETS) && EMPTY !in m.info
    ensures code == 0 <==> Passes(m.State())
    ensures Blames(m.State(), code)
  {
    if |m.random| != m.nTried + m.nNew {
      return -7;
    }
    var tried, fresh_, local, triedLeft, newLeft;
    code, tried, fresh_, local := Sort(m.info, m.addrs, m.random);
    if code != 0 {
      return;
    }
    if |tried| != m.nTried { return -9; }
    if |fresh_| != m.nNew { return -10; }
    code, triedLeft := CheckTriedTable(m, tried);
    if code != 0 {
      return;
    }
    code, newLeft := CheckNewTable(m, fresh_);
    if code != 0 {
      return;
    }
    if |triedLeft| != 0 { return -13; }
    if |newLeft| != 0 { return -15; }
    if m.hash.isNull { return -16; }
    code := CheckNets(m.nets, local, m.info, |fresh_|, |tried|);
  }

  // ----- Consistent books pass -----

  lemma {:induction false} OneEach(info: map<int, AddrInfo>, ids: seq<int>)
    requires forall i :: 0 <= i < |ids| ==> ids[i] in info
    ensures SumOver(info, ids, IsNew) + SumOver(info, ids, IsTried) == |ids|
  {
    if ids != [] {
      OneEach(info, ids[..|ids| - 1]);
    }
  }

  /** vRandom has as many places as the two counters say. */
  lemma SizesAgree(s: Book)
    requires Consistent(s)
    ensures |s.random| == s.nTried + s.nNew
  {
    forall i, j | 0 <= i < j < |s.random| ensures s.random[i] != s.random[j] {
      assert AddrBook.Listed(s.info, s.random, i) && AddrBook.Listed(s.info, s.random, j);
    }
    forall id ensures id in s.info <==> id in s.random {
      if id in s.info {
        assert Placed(s.info, s.random, id);
      }
      if id in s.random {
        var i :| 0 <= i < |s.random| && s.random[i] == id;
        assert AddrBook.Listed(s.info, s.random, i);
      }
    }
    assert s.info - {} == s.info;
    TotalIsSum(s.info, s.random, IsNew);
    TotalIsSum(s.info, s.random, IsTried);
    OneEach(s.info, s.random);
  }

  lemma {:induction false} NetCounted(info: map<int, AddrInfo>, net: nat, id: int)
    requires id in info && info[id].addr.net == net
    ensures Total(info, NewOn(net)) > 0 || Total(info, TriedOn(net)) > 0
  {
    TotalAtLeast(info, NewOn(net), id);
    TotalAtLeast(info, TriedOn(net), id);
  }

  lemma NoMore(a: set<nat>, b: set<nat>)
    requires a <= b
    ensures |a| <= |b|
  {
    assert b == a + (b - a);
  }

  lemma NetsAgree(info: map<int, AddrInfo>, nNew: int, nTried: int, nets: map<nat, Counts>)
    requires CountsOk(info, nNew, nTried, nets)
    ensures NetsPass(info, nets)
  {
    forall net | net in NetsOf(info) ensures net in nets.Keys {
      var id :| id in info && info[id].addr.net == net;
      NetCounted(info, net, id);
    }
    NoMore(NetsOf(info), nets.Keys);
    assert |nets.Keys| == |nets|;
    forall net | net in nets ensures nets[net] == NetCounts(info, net) {
      assert CountsOn(nets, net) == nets[net];
    }
  }

  /** Whatever state the manager can be in, its own check accepts it exactly when the
      times make sense and the key is not null. */
  lemma ConsistentPasses(s: Book)
    requires Consistent(s)
    ensures Passes(s) <==> TimesOk(s.info) && !s.hash.isNull
  {
    SizesAgree(s);
    assert s.info - {} == s.info;
    NetsAgree(s.info, s.nNew, s.nTried, s.nets);
    forall id | id in s.info ensures PassesAt(s.info, s.addrs, s.random, id) <==> M.TimeOk(s.info[id]) {
      EntryPasses(s, id);
    }
    if EntriesPass(s.info, s.addrs, s.random) {
      forall id | id in s.info ensures M.TimeOk(s.info[id]) {
        assert PassesAt(s.info, s.addrs, s.random, id);
      }
    }
  }

  // ----- What passing says of a book -----

  lemma {:induction false} Enumerated(info: map<int, AddrInfo>) returns (order: seq<int>)
    ensures Enumerates(order, info)
    decreases |info|
  {
    if |info| == 0 {
      order := [];
      Inhabited(info.Keys);
    } else {
      Inhabited(info.Keys);
      var id :| id in info.Keys;
      var rest := info - {id};
      order := Enumerated(rest);
      order := order + [id];
      forall x ensures x in info <==> x in order {
        assert x in rest <==> x in info && x != id;
      }
    }
  }

  /** As many places as entries, and every entry in its own: every place holds an entry. */
  lemma EveryPlaceTaken(s: Book, order: seq<int>, i: int)
    requires Enumerates(order, s.info) && |order| == |s.random| && 0 <= i < |s.random|
    requires forall id {:trigger Placed(s.info, s.random, id)} :: id in s.info ==> Placed(s.info, s.random, id)
    ensures AddrBook.Listed(s.info, s.random, i)
  {
    assert forall j :: 0 <= j < |order| ==> order[j] in order;
    var places := seq(|order|, j requires 0 <= j < |order| => s.info[order[j]].randomPos);
    forall j | 0 <= j < |order| ensures 0 <= places[j] < |s.random| && s.random[places[j]] == order[j] {
      assert Placed(s.info, s.random, order[j]);
    }
    if i !in places {
      var more := places + [i];
      assert forall j :: 0 <= j < |places| ==> places[j] in places;
      Pigeonhole(more, |s.random|);
      assert false;
    }
    var j :| 0 <= j < |places| && places[j] == i;
  }

  /** A book that passes has every index in order except for stale addresses and for networks
      without an entry. */
  lemma PassesMeans(s: Book)
    requires Shape(s.triedTable, TRIED_BUCKETS) && Shape(s.newTable, NEW_BUCKETS) && Passes(s)
    ensures RandomOk(s.info, s.random) && TimesOk(s.info) && Referenced(s.info, {})
    ensures forall id {:trigger Indexed(s.info, s.addrs, id)} :: id in s.info ==> Indexed(s.info, s.addrs, id)
    ensures TriedOk(s.hash, s.info, s.triedTable) && NewOk(s.hash, s.info, s.newTable)
    ensures s.nNew == Total(s.info, IsNew) && s.nTried == Total(s.info, IsTried) && !s.hash.isNull
  {
    forall id | id in s.info
      ensures Placed(s.info, s.random, id) && Indexed(s.info, s.addrs, id) && M.TimeOk(s.info[id])
      ensures !s.info[id].inTried ==> s.info[id].refCount > 0
    {
      assert PassesAt(s.info, s.addrs, s.random, id);
    }
    var order := Enumerated(s.info);
    assert forall j :: 0 <= j < |order| ==> order[j] in order;
    TotalIsSum(s.info, order, IsNew);
    TotalIsSum(s.info, order, IsTried);
    OneEach(s.info, order);
    forall i | 0 <= i < |s.random| ensures AddrBook.Listed(s.info, s.random, i) {
      EveryPlaceTaken(s, order, i);
    }
  }

  /** A network that no entry is on counts nothing. */
  lemma NobodyOn(info: map<int, AddrInfo>, net: nat)
    requires forall id :: id in info ==> info[id].addr.net != net
    ensures NetCounts(info, net) == Counts(0, 0)
  {
    TotalNonNegative(info, NewOn(net));
    TotalNonNegative(info, TriedOn(net));
    if Total(info, NewOn(net)) > 0 {
      var id := TotalPositive(info, NewOn(net));
    }
    if Total(info, TriedOn(net)) > 0 {
      var id := TotalPositive(info, TriedOn(net));
    }
  }

  /** The check is enough for what is read from a file: a book that passes is consistent. */
  lemma PassingIsConsistent(s: Book)
    requires Shape(s.triedTable, TRIED_BUCKETS) && Shape(s.newTable, NEW_BUCKETS) && Passes(s) && Tidy(s)
    ensures Consistent(s) && TimesOk(s.info) && !s.hash.isNull
  {
    PassesMeans(s);
    assert s.info - {} == s.info;
    forall net: nat ensures CountsOn(s.nets, net) == NetCounts(s.info, net) {
      if net !in s.nets {
        forall id | id in s.info ensures s.info[id].addr.net != net {
          assert OnNetwork(s, id);
        }
        NobodyOn(s.info, net);
      }
    }
    forall id | id in s.info ensures 0 <= id < s.idCount {
      assert OnNetwork(s, id);
    }
    assert |s.collisions| == 0;
  }
}
