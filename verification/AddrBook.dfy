/** The address manager's tables as values: what each elementary step does to
    them, and the invariant that ties the seven indexes together. */
module AddrBook {
  import opened Sums

  const TRIED_BUCKETS: nat := 256
  const NEW_BUCKETS: nat := 1024
  const BUCKET_SIZE: nat := 64
  const MAX_REFERENCES: nat := 8
  const MAX_COLLISIONS: nat := 10
  const EMPTY: int := -1

  /** A network address with port; `net` is the network it belongs to. */
  datatype Service = Service(net: nat, host: nat, port: nat)

  /** Where an address was heard from. */
  datatype Source = Source(net: nat, host: nat)

  datatype AddrInfo = AddrInfo(
    addr: Service, source: Source, time: int, services: nat,
    lastTry: int, lastCount: int, lastSuccess: int, attempts: int,
    refCount: int, inTried: bool, randomPos: int)

  /** The key: whether it is the null key, and the keyed hashes behind bucket choice, any functions whatever. */
  datatype Hash = Hash(
    isNull: bool, tried: Service -> nat, newer: (Service, Source) -> nat, position: (bool, nat, Service) -> nat)

  type Table = seq<seq<int>>

  datatype Counts = Counts(nNew: int, nTried: int)

  datatype Book = Book(
    hash: Hash,
    idCount: int,
    info: map<int, AddrInfo>,
    addrs: map<Service, int>,
    random: seq<int>,
    nNew: int,
    nTried: int,
    newTable: Table,
    triedTable: Table,
    nets: map<nat, Counts>,
    collisions: set<int>)

  function TriedBucket(h: Hash, a: Service): (b: nat)
    ensures b < TRIED_BUCKETS
  {
    h.tried(a) % TRIED_BUCKETS
  }

  function NewBucket(h: Hash, a: Service, source: Source): (b: nat)
    ensures b < NEW_BUCKETS
  {
    h.newer(a, source) % NEW_BUCKETS
  }

  function Position(h: Hash, isNew: bool, bucket: nat, a: Service): (p: nat)
    ensures p < BUCKET_SIZE
  {
    h.position(isNew, bucket, a) % BUCKET_SIZE
  }

  predicate Shape(t: Table, buckets: nat) {
    |t| == buckets && forall b :: 0 <= b < buckets ==> |t[b]| == BUCKET_SIZE
  }

  function Put(t: Table, b: nat, p: nat, x: int): Table
    requires b < |t| && p < |t[b]|
  {
    t[b := t[b][p := x]]
  }

  function BlankTable(buckets: nat): (t: Table)
    ensures Shape(t, buckets) && forall b, p :: InTable(b, p, buckets) ==> t[b][p] == EMPTY
  {
    seq(buckets, _ => seq(BUCKET_SIZE, _ => EMPTY))
  }

  /** A book without entries. */
  function Blank(h: Hash): Book {
    Book(h, 0, map[], map[], [], 0, 0, BlankTable(NEW_BUCKETS), BlankTable(TRIED_BUCKETS), map[], {})
  }

  lemma PutSame(t: Table, b: nat, p: nat)
    requires b < |t| && p < |t[b]|
    ensures Put(t, b, p, t[b][p]) == t
  {
    assert t[b][p := t[b][p]] == t[b];
  }

  lemma PutTwice(t: Table, b: nat, p: nat, x: int, y: int)
    requires b < |t| && p < |t[b]|
    ensures Put(Put(t, b, p, x), b, p, y) == Put(t, b, p, y)
  {
    assert t[b][p := x][p := y] == t[b][p := y];
  }

  function CountsOn(nets: map<nat, Counts>, net: nat): Counts {
    if net in nets then nets[net] else Counts(0, 0)
  }

  lemma Inhabited(s: set<int>)
    ensures s == {} || exists x :: x in s
  {
    if forall x: int :: x !in s {
      assert s == {};
    }
  }

  // ----- The invariant -----

  /** vRandom lists every live id once, and every entry knows its place in it. */
  ghost predicate RandomOk(info: map<int, AddrInfo>, random: seq<int>) {
    && (forall id {:trigger Placed(info, random, id)} :: id in info ==> Placed(info, random, id))
    && (forall i {:trigger Listed(info, random, i)} :: 0 <= i < |random| ==> Listed(info, random, i))
  }

  ghost predicate Placed(info: map<int, AddrInfo>, random: seq<int>, id: int)
    requires id in info
  {
    0 <= info[id].randomPos < |random| && random[info[id].randomPos] == id
  }

  ghost predicate Listed(info: map<int, AddrInfo>, random: seq<int>, i: int)
    requires 0 <= i < |random|
  {
    random[i] in info && info[random[i]].randomPos == i
  }

  /** mapAddr is the inverse of mapInfo. */
  ghost predicate AddrsOk(info: map<int, AddrInfo>, addrs: map<Service, int>) {
    && (forall id {:trigger Indexed(info, addrs, id)} :: id in info ==> Indexed(info, addrs, id))
    && (forall a {:trigger Resolves(info, addrs, a)} :: a in addrs ==> Resolves(info, addrs, a))
  }

  ghost predicate Indexed(info: map<int, AddrInfo>, addrs: map<Service, int>, id: int)
    requires id in info
  {
    info[id].addr in addrs && addrs[info[id].addr] == id
  }

  ghost predicate Resolves(info: map<int, AddrInfo>, addrs: map<Service, int>, a: Service)
    requires a in addrs
  {
    addrs[a] in info && info[addrs[a]].addr == a
  }

  predicate InTable(b: int, p: int, buckets: nat) {
    0 <= b < buckets && 0 <= p < BUCKET_SIZE
  }

  /** Tried entries sit in exactly their one hashed slot, and nothing else does. */
  ghost predicate TriedOk(h: Hash, info: map<int, AddrInfo>, t: Table) {
    && Shape(t, TRIED_BUCKETS)
    && (forall b, p {:trigger TriedSlotOk(h, info, t, b, p)} ::
         InTable(b, p, TRIED_BUCKETS) ==> TriedSlotOk(h, info, t, b, p))
    && (forall id {:trigger TriedEntryOk(h, info, t, id)} :: id in info ==> TriedEntryOk(h, info, t, id))
  }

  ghost predicate TriedSlotOk(h: Hash, info: map<int, AddrInfo>, t: Table, b: int, p: int)
    requires Shape(t, TRIED_BUCKETS) && InTable(b, p, TRIED_BUCKETS)
  {
    var id := t[b][p];
    id != EMPTY ==>
      id in info && info[id].inTried && TriedBucket(h, info[id].addr) == b && Position(h, false, b, info[id].addr) == p
  }

  ghost predicate TriedEntryOk(h: Hash, info: map<int, AddrInfo>, t: Table, id: int)
    requires Shape(t, TRIED_BUCKETS) && id in info
  {
    info[id].inTried ==> TriedSlot(h, t, info[id].addr) == id
  }

  /** The tried slot an address hashes to. */
  function TriedSlot(h: Hash, t: Table, a: Service): int
    requires Shape(t, TRIED_BUCKETS)
  {
    var b := TriedBucket(h, a);
    t[b][Position(h, false, b, a)]
  }

  /** The new buckets in which an id occupies its position. */
  ghost function Holding(h: Hash, t: Table, id: int, a: Service): set<int>
    requires Shape(t, NEW_BUCKETS)
  {
    set b | 0 <= b < NEW_BUCKETS && t[b][Position(h, true, b, a)] == id
  }

  /** New-table slots hold untried entries at their hashed position, and every
      entry's reference count is the number of its slots. */
  ghost predicate NewOk(h: Hash, info: map<int, AddrInfo>, t: Table) {
    && Shape(t, NEW_BUCKETS)
    && (forall b, p {:trigger NewSlotOk(h, info, t, b, p)} ::
         InTable(b, p, NEW_BUCKETS) ==> NewSlotOk(h, info, t, b, p))
    && (forall id {:trigger NewEntryOk(h, info, t, id)} :: id in info ==> NewEntryOk(h, info, t, id))
  }

  ghost predicate NewSlotOk(h: Hash, info: map<int, AddrInfo>, t: Table, b: int, p: int)
    requires Shape(t, NEW_BUCKETS) && InTable(b, p, NEW_BUCKETS)
  {
    var id := t[b][p];
    id != EMPTY ==> id in info && !info[id].inTried && Position(h, true, b, info[id].addr) == p
  }

  ghost predicate NewEntryOk(h: Hash, info: map<int, AddrInfo>, t: Table, id: int)
    requires Shape(t, NEW_BUCKETS) && id in info
  {
    info[id].refCount == |Holding(h, t, id, info[id].addr)| && info[id].refCount <= MAX_REFERENCES
  }

  /** Every untried entry, except those in limbo, is referenced. */
  ghost predicate Referenced(info: map<int, AddrInfo>, limbo: set<int>) {
    forall id :: id in info && !info[id].inTried && id !in limbo ==> info[id].refCount > 0
  }

  ghost function IsNew(id: int, e: AddrInfo): int { if e.inTried then 0 else 1 }
  ghost function IsTried(id: int, e: AddrInfo): int { if e.inTried then 1 else 0 }
  ghost function NewOn(net: nat): (int,
                       AddrInfo) -> int { (id, e: AddrInfo) => if !e.inTried && e.addr.net == net then 1 else 0 }
  ghost function TriedOn(net: nat): (int,
                         AddrInfo) -> int { (id, e: AddrInfo) => if e.inTried && e.addr.net == net then 1 else 0 }

  /** All counters are exact, in total and per network. */
  ghost predicate CountsOk(info: map<int, AddrInfo>, nNew: int, nTried: int, nets: map<nat, Counts>) {
    && nNew == Total(info, IsNew) && nTried == Total(info, IsTried)
    && forall net: nat :: CountsOn(nets, net) == Counts(Total(info, NewOn(net)), Total(info, TriedOn(net)))
  }

  /** The times make sense: none before the epoch, and every tried entry was reached after it.
      The manager's own check asks for this; no other index depends on it. */
  ghost predicate TimesOk(info: map<int, AddrInfo>) {
    forall id :: id in info ==>
      info[id].lastTry >= 0 && info[id].lastSuccess >= 0 && (info[id].inTried ==> info[id].lastSuccess > 0)
  }

  ghost predicate IdsOk(s: Book) {
    && (forall id :: id in s.info ==> 0 <= id < s.idCount)
    && 0 <= s.idCount && |s.collisions| <= MAX_COLLISIONS
    && (forall id :: id in s.collisions ==> 0 <= id < s.idCount)
  }

  /** Everything but the order of vRandom. Entries in `limbo` may be without
      reference; entries in `uncounted` are left out of the counters. */
  ghost predicate Settled(s: Book, limbo: set<int>, uncounted: set<int>) {
    && AddrsOk(s.info, s.addrs)
    && TriedOk(s.hash, s.info, s.triedTable)
    && NewOk(s.hash, s.info, s.newTable)
    && Referenced(s.info, limbo)
    && CountsOk(s.info - uncounted, s.nNew, s.nTried, s.nets)
    && IdsOk(s)
  }

  /** The invariant between elementary steps. */
  ghost predicate Inv(s: Book, limbo: set<int>, uncounted: set<int>) {
    RandomOk(s.info, s.random) && Settled(s, limbo, uncounted)
  }

  /** Every live id among the pending collisions faces an occupied tried slot. */
  ghost predicate Facing(s: Book)
    requires Shape(s.triedTable, TRIED_BUCKETS)
  {
    forall id :: id in s.collisions && id in s.info ==> TriedSlot(s.hash, s.triedTable, s.info[id].addr) != EMPTY
  }

  /** What every operation leaves behind. */
  ghost predicate Consistent(s: Book) {
    Inv(s, {}, {}) && Facing(s)
  }

  /** How a book may change over time: ids are never reused or given another
      address, and an occupied tried slot stays occupied. */
  ghost predicate Evolves(s: Book, s': Book)
    requires Shape(s.triedTable, TRIED_BUCKETS) && Shape(s'.triedTable, TRIED_BUCKETS)
  {
    && s'.hash == s.hash && s.idCount <= s'.idCount
    && (forall id :: id in s'.info && id < s.idCount ==> id in s.info && s'.info[id].addr == s.info[id].addr)
    && (forall b, p :: InTable(b, p, TRIED_BUCKETS) && s.triedTable[b][p] != EMPTY ==> s'.triedTable[b][p] != EMPTY)
  }

  lemma EvolvesOn(s: Book, s': Book, s'': Book)
    requires Shape(s.triedTable, TRIED_BUCKETS) && Shape(s'.triedTable, TRIED_BUCKETS)
    requires Shape(s''.triedTable, TRIED_BUCKETS)
    requires Evolves(s, s') && Evolves(s', s'')
    ensures Evolves(s, s'')
  {
  }

  lemma StillFacing(s: Book, s': Book)
    requires Shape(s.triedTable, TRIED_BUCKETS) && Shape(s'.triedTable, TRIED_BUCKETS)
    requires IdsOk(s) && Facing(s) && Evolves(s, s') && s'.collisions <= s.collisions
    ensures Facing(s')
  {
    forall id | id in s'.collisions && id in s'.info
      ensures TriedSlot(s'.hash, s'.triedTable, s'.info[id].addr) != EMPTY
    {
      assert id in s.info && s'.info[id].addr == s.info[id].addr;
      assert TriedSlot(s.hash, s.triedTable, s.info[id].addr) != EMPTY;
    }
  }

  // ----- Counters -----

  function Bumped(nets: map<nat, Counts>, net: nat, dNew: int, dTried: int): map<nat, Counts> {
    var c := CountsOn(nets, net);
    nets[net := Counts(c.nNew + dNew, c.nTried + dTried)]
  }

  lemma CountsAdd(info: map<int, AddrInfo>, nNew: int, nTried: int, nets: map<nat, Counts>, id: int, e: AddrInfo)
    requires CountsOk(info, nNew, nTried, nets) && id !in info
    ensures e.inTried ==> CountsOk(info[id := e], nNew, nTried + 1, Bumped(nets, e.addr.net, 0, 1))
    ensures !e.inTried ==> CountsOk(info[id := e], nNew + 1, nTried, Bumped(nets, e.addr.net, 1, 0))
  {
    TotalAdd(info, IsNew, id, e);
    TotalAdd(info, IsTried, id, e);
    forall net: nat
      ensures Total(info[id := e], NewOn(net)) == Total(info, NewOn(net)) + NewOn(net)(id, e)
      ensures Total(info[id := e], TriedOn(net)) == Total(info, TriedOn(net)) + TriedOn(net)(id, e)
    {
      TotalAdd(info, NewOn(net), id, e);
      TotalAdd(info, TriedOn(net), id, e);
    }
  }

  lemma CountsRemove(info: map<int, AddrInfo>, nNew: int, nTried: int, nets: map<nat, Counts>, id: int)
    requires CountsOk(info, nNew, nTried, nets) && id in info
    ensures info[id].inTried ==> CountsOk(info - {id}, nNew, nTried - 1, Bumped(nets, info[id].addr.net, 0, -1))
    ensures !info[id].inTried ==> CountsOk(info - {id}, nNew - 1, nTried, Bumped(nets, info[id].addr.net, -1, 0))
  {
    TotalRemove(info, IsNew, id);
    TotalRemove(info, IsTried, id);
    forall net: nat
      ensures Total(info - {id}, NewOn(net)) == Total(info, NewOn(net)) - NewOn(net)(id, info[id])
      ensures Total(info - {id}, TriedOn(net)) == Total(info, TriedOn(net)) - TriedOn(net)(id, info[id])
    {
      TotalRemove(info, NewOn(net), id);
      TotalRemove(info, TriedOn(net), id);
    }
  }

  lemma CountsReplace(info: map<int, AddrInfo>, nNew: int, nTried: int, nets: map<nat, Counts>, id: int, e: AddrInfo)
    requires CountsOk(info, nNew, nTried, nets)
    requires id in info ==> e.inTried == info[id].inTried && e.addr == info[id].addr
    ensures id in info ==> CountsOk(info[id := e], nNew, nTried, nets)
  {
    if id in info {
      TotalReplace(info, IsNew, id, e);
      TotalReplace(info, IsTried, id, e);
      forall net: nat
        ensures Total(info[id := e], NewOn(net)) == Total(info, NewOn(net))
        ensures Total(info[id := e], TriedOn(net)) == Total(info, TriedOn(net))
      {
        TotalReplace(info, NewOn(net), id, e);
        TotalReplace(info, TriedOn(net), id, e);
      }
    }
  }

  /** Changing an entry without moving it between tables or networks keeps the counters. */
  lemma CountsKept(info: map<int, AddrInfo>, uncounted: set<int>, nNew: int, nTried: int, nets: map<nat, Counts>,
                   id: int, e: AddrInfo)
    requires CountsOk(info - uncounted, nNew, nTried, nets) && id in info
    requires id in uncounted || (e.inTried == info[id].inTried && e.addr == info[id].addr)
    ensures CountsOk(info[id := e] - uncounted, nNew, nTried, nets)
  {
    if id in uncounted {
      assert info[id := e] - uncounted == info - uncounted;
    } else {
      CountsReplace(info - uncounted, nNew, nTried, nets, id, e);
      assert info[id := e] - uncounted == (info - uncounted)[id := e];
    }
  }

  // ----- Elementary steps -----

  /** Replaces one entry. */
  function Entered(s: Book, id: int, e: AddrInfo): Book {
    s.(info := s.info[id := e])
  }

  /** A new id for an entry, at the end of vRandom. */
  function Joined(s: Book, e: AddrInfo): Book {
    var id := s.idCount;
    s.(idCount := id + 1,
       info := s.info[id := e],
       addrs := s.addrs[e.addr := id],
       random := s.random + [id],
       nNew := s.nNew + 1,
       nets := Bumped(s.nets, e.addr.net, 1, 0))
  }

  /** Create: a new entry for a new address. */
  function Created(s: Book, a: Service, source: Source, time: int, services: nat): Book {
    Joined(s, AddrInfo(a, source, time, services, 0, 0, 0, 0, 0, false, |s.random|))
  }

  /** SwapRandom: exchange two places of vRandom. */
  function Swapped(s: Book, i: nat, j: nat): Book
    requires i < |s.random| && j < |s.random| && s.random[i] in s.info && s.random[j] in s.info
  {
    if i == j then s
    else
      var id1, id2 := s.random[i], s.random[j];
      var info1 := s.info[id1 := s.info[id1].(randomPos := j)];
      s.(info := info1[id2 := info1[id2].(randomPos := i)], random := s.random[i := id2][j := id1])
  }

  /** Delete, once the entry stands last in vRandom: drop it everywhere. */
  function DeletedLast(s: Book, id: int): Book
    requires id in s.info && s.random != []
  {
    s.(nets := Bumped(s.nets, s.info[id].addr.net, -1, 0),
       random := s.random[..|s.random| - 1],
       addrs := s.addrs - {s.info[id].addr},
       info := s.info - {id},
       nNew := s.nNew - 1)
  }

  /** Empties a slot of the new table and takes back its reference. */
  function Unslotted(s: Book, b: nat, p: nat): Book
    requires b < |s.newTable| && p < |s.newTable[b]| && s.newTable[b][p] in s.info
  {
    var id := s.newTable[b][p];
    s.(newTable := Put(s.newTable, b, p, EMPTY),
       info := s.info[id := s.info[id].(refCount := s.info[id].refCount - 1)])
  }

  /** Puts an entry into its position of a new bucket. */
  function Slotted(s: Book, b: nat, id: int): Book
    requires b < NEW_BUCKETS && Shape(s.newTable, NEW_BUCKETS) && id in s.info
  {
    s.(newTable := Put(s.newTable, b, Position(s.hash, true, b, s.info[id].addr), id),
       info := s.info[id := s.info[id].(refCount := s.info[id].refCount + 1)])
  }

  lemma AddrsKept(info: map<int, AddrInfo>, addrs: map<Service, int>, id: int, e: AddrInfo)
    requires AddrsOk(info, addrs) && id in info && e.addr == info[id].addr
    ensures AddrsOk(info[id := e], addrs)
  {
    var info' := info[id := e];
    forall j | j in info' ensures Indexed(info', addrs, j) {
      assert Indexed(info, addrs, j);
    }
    forall a | a in addrs ensures Resolves(info', addrs, a) {
      assert Resolves(info, addrs, a);
    }
  }

  lemma TriedKept(h: Hash, info: map<int, AddrInfo>, t: Table, id: int, e: AddrInfo)
    requires TriedOk(h, info, t) && id in info && e.addr == info[id].addr && e.inTried == info[id].inTried
    ensures TriedOk(h, info[id := e], t)
  {
    var info' := info[id := e];
    forall b, p | InTable(b, p, TRIED_BUCKETS) ensures TriedSlotOk(h, info', t, b, p) {
      assert TriedSlotOk(h, info, t, b, p);
    }
    forall j | j in info' ensures TriedEntryOk(h, info', t, j) {
      assert TriedEntryOk(h, info, t, j);
    }
  }

  lemma NewKept(h: Hash, info: map<int, AddrInfo>, t: Table, id: int, e: AddrInfo)
    requires NewOk(h, info, t) && id in info
    requires e.addr == info[id].addr && e.inTried == info[id].inTried && e.refCount == info[id].refCount
    ensures NewOk(h, info[id := e], t)
  {
    var info' := info[id := e];
    forall b, p | InTable(b, p, NEW_BUCKETS) ensures NewSlotOk(h, info', t, b, p) {
      assert NewSlotOk(h, info, t, b, p);
    }
    forall j | j in info' ensures NewEntryOk(h, info', t, j) {
      assert NewEntryOk(h, info, t, j);
    }
  }

  /** Changing only an entry's statistics or its place in vRandom. */
  lemma EnteredKeeps(s: Book, id: int, e: AddrInfo, limbo: set<int>, uncounted: set<int>)
    requires Settled(s, limbo, uncounted) && id in s.info
    requires e.addr == s.info[id].addr && e.inTried == s.info[id].inTried && e.refCount == s.info[id].refCount
    ensures Settled(Entered(s, id, e), limbo, uncounted)
  {
    AddrsKept(s.info, s.addrs, id, e);
    TriedKept(s.hash, s.info, s.triedTable, id, e);
    NewKept(s.hash, s.info, s.newTable, id, e);
    CountsKept(s.info, uncounted, s.nNew, s.nTried, s.nets, id, e);
  }

  // ----- SwapRandom -----

  lemma RandomSwapped(info: map<int, AddrInfo>, random: seq<int>, i: nat, j: nat)
    requires RandomOk(info, random) && i < |random| && j < |random| && i != j
    ensures random[i] in info && random[j] in info && random[i] != random[j]
    ensures RandomOk(info[random[i] := info[random[i]].(randomPos := j)][random[j] := info[random[j]].(randomPos := i)],
                     random[i := random[j]][j := random[i]])
  {
    assert Listed(info, random, i) && Listed(info, random, j);
    var id1, id2 := random[i], random[j];
    var info' := info[id1 := info[id1].(randomPos := j)][id2 := info[id2].(randomPos := i)];
    var random' := random[i := id2][j := id1];
    forall id | id in info' ensures Placed(info', random', id) {
      assert Placed(info, random, id);
    }
    forall k | 0 <= k < |random'| ensures Listed(info', random', k) {
      assert Listed(info, random, k);
    }
  }

  /** A swap changes nothing but places in vRandom. */
  lemma SwappedSame(s: Book, i: nat, j: nat)
    requires i < |s.random| && j < |s.random| && RandomOk(s.info, s.random)
    ensures s.random[i] in s.info && s.random[j] in s.info
    ensures var s' := Swapped(s, i, j);
            && s' == s.(info := s'.info, random := s'.random)
            && s'.info.Keys == s.info.Keys && |s'.random| == |s.random|
            && (forall id :: id in s.info ==> s'.info[id] == s.info[id].(randomPos := s'.info[id].randomPos))
            && s'.info[s.random[i]] == s.info[s.random[i]].(randomPos := j)
  {
    assert Listed(s.info, s.random, i) && Listed(s.info, s.random, j);
  }

  lemma SwappedKeeps(s: Book, i: nat, j: nat, limbo: set<int>, uncounted: set<int>)
    requires Inv(s, limbo, uncounted) && i < |s.random| && j < |s.random|
    ensures s.random[i] in s.info && s.random[j] in s.info
    ensures Inv(Swapped(s, i, j), limbo, uncounted)
  {
    assert Listed(s.info, s.random, i) && Listed(s.info, s.random, j);
    if i != j {
      RandomSwapped(s.info, s.random, i, j);
      var id1, id2 := s.random[i], s.random[j];
      var s1 := Entered(s, id1, s.info[id1].(randomPos := j));
      EnteredKeeps(s, id1, s.info[id1].(randomPos := j), limbo, uncounted);
      EnteredKeeps(s1, id2, s1.info[id2].(randomPos := i), limbo, uncounted);
    }
  }

  // ----- Create and Delete -----

  lemma NewWithout(h: Hash, info: map<int, AddrInfo>, t: Table, id: int)
    requires NewOk(h, info, t) && id in info && info[id].refCount == 0 && id != EMPTY
    ensures forall b, p :: InTable(b, p, NEW_BUCKETS) ==> t[b][p] != id
    ensures NewOk(h, info - {id}, t)
  {
    assert NewEntryOk(h, info, t, id);
    assert Holding(h, t, id, info[id].addr) == {};
    forall b, p | InTable(b, p, NEW_BUCKETS) ensures t[b][p] != id && NewSlotOk(h, info - {id}, t, b, p) {
      assert NewSlotOk(h, info, t, b, p);
      assert b !in Holding(h, t, id, info[id].addr);
    }
    forall j | j in info - {id} ensures NewEntryOk(h, info - {id}, t, j) {
      assert NewEntryOk(h, info, t, j);
    }
  }

  lemma TriedWithout(h: Hash, info: map<int, AddrInfo>, t: Table, id: int)
    requires TriedOk(h, info, t) && id in info && !info[id].inTried
    ensures TriedOk(h, info - {id}, t)
  {
    forall b, p | InTable(b, p, TRIED_BUCKETS) ensures TriedSlotOk(h, info - {id}, t, b, p) {
      assert TriedSlotOk(h, info, t, b, p);
    }
    forall j | j in info - {id} ensures TriedEntryOk(h, info - {id}, t, j) {
      assert TriedEntryOk(h, info, t, j);
    }
  }

  lemma AddrsWithout(info: map<int, AddrInfo>, addrs: map<Service, int>, id: int)
    requires AddrsOk(info, addrs) && id in info
    ensures AddrsOk(info - {id}, addrs - {info[id].addr})
  {
    var info', addrs' := info - {id}, addrs - {info[id].addr};
    assert Indexed(info, addrs, id);
    forall j | j in info' ensures Indexed(info', addrs', j) {
      assert Indexed(info, addrs, j);
    }
    forall a | a in addrs' ensures Resolves(info', addrs', a) {
      assert Resolves(info, addrs, a);
    }
  }

  lemma RandomWithoutLast(info: map<int, AddrInfo>, random: seq<int>, id: int)
    requires RandomOk(info, random) && random != [] && id in info && info[id].randomPos == |random| - 1
    ensures RandomOk(info - {id}, random[..|random| - 1])
  {
    var info', random' := info - {id}, random[..|random| - 1];
    assert Placed(info, random, id);
    forall j | j in info' ensures Placed(info', random', j) {
      assert Placed(info, random, j);
    }
    forall k | 0 <= k < |random'| ensures Listed(info', random', k) {
      assert Listed(info, random, k);
    }
  }

  /** Deleting an unreferenced entry that stands last in vRandom. */
  lemma DeletedLastKeeps(s: Book, id: int, limbo: set<int>, uncounted: set<int>)
    requires Inv(s, limbo, uncounted) && id in s.info && !s.info[id].inTried && s.info[id].refCount == 0
    requires id !in uncounted && s.info[id].randomPos == |s.random| - 1
    ensures s.random != [] && Inv(DeletedLast(s, id), limbo, uncounted)
  {
    assert Placed(s.info, s.random, id);
    RandomWithoutLast(s.info, s.random, id);
    AddrsWithout(s.info, s.addrs, id);
    TriedWithout(s.hash, s.info, s.triedTable, id);
    NewWithout(s.hash, s.info, s.newTable, id);
    CountsRemove(s.info - uncounted, s.nNew, s.nTried, s.nets, id);
    assert (s.info - {id}) - uncounted == (s.info - uncounted) - {id};
  }

  lemma TablesWith(h: Hash, info: map<int, AddrInfo>, newTable: Table, triedTable: Table, id: int, e: AddrInfo)
    requires NewOk(h, info, newTable) && TriedOk(h, info, triedTable)
    requires id !in info && id != EMPTY && e.refCount == 0 && !e.inTried
    ensures NewOk(h, info[id := e], newTable) && TriedOk(h, info[id := e], triedTable)
  {
    var info' := info[id := e];
    forall b, p | InTable(b, p, NEW_BUCKETS) ensures newTable[b][p] != id && NewSlotOk(h, info', newTable, b, p) {
      assert NewSlotOk(h, info, newTable, b, p);
    }
    forall b, p | InTable(b, p, TRIED_BUCKETS) ensures TriedSlotOk(h, info', triedTable, b, p) {
      assert TriedSlotOk(h, info, triedTable, b, p);
    }
    assert Holding(h, newTable, id, e.addr) == {};
    forall j | j in info' ensures NewEntryOk(h, info', newTable, j) && TriedEntryOk(h, info', triedTable, j) {
      assert j in info ==> NewEntryOk(h, info, newTable, j) && TriedEntryOk(h, info, triedTable, j);
    }
  }

  lemma IndexesWith(info: map<int, AddrInfo>, random: seq<int>, addrs: map<Service, int>, id: int, e: AddrInfo)
    requires RandomOk(info, random) && AddrsOk(info, addrs)
    requires id !in info && e.addr !in addrs && e.randomPos == |random|
    ensures RandomOk(info[id := e], random + [id]) && AddrsOk(info[id := e], addrs[e.addr := id])
  {
    var info', random', addrs' := info[id := e], random + [id], addrs[e.addr := id];
    forall j | j in info' ensures Placed(info', random', j) && Indexed(info', addrs', j) {
      assert j in info ==> Placed(info, random, j) && Indexed(info, addrs, j);
    }
    forall k | 0 <= k < |random'| ensures Listed(info', random', k) {
      assert k < |random| ==> Listed(info, random, k);
    }
    forall a | a in addrs' ensures Resolves(info', addrs', a) {
      assert a in addrs ==> Resolves(info, addrs, a);
    }
  }

  lemma MinorWith(s: Book, id: int, e: AddrInfo, info': map<int, AddrInfo>, limbo: set<int>)
    requires IdsOk(s) && Referenced(s.info, limbo) && id == s.idCount && !e.inTried && info' == s.info[id := e]
    ensures Referenced(info', limbo + {id})
    ensures forall j :: j in info' ==> 0 <= j < id + 1
    ensures forall j :: j in info' && j < id ==> j in s.info && info'[j] == s.info[j]
  {
  }

  /** An entry for an unknown address starts in limbo. */
  lemma JoinedKeeps(s: Book, e: AddrInfo, limbo: set<int>)
    requires Inv(s, limbo, {}) && e.addr !in s.addrs && e.refCount == 0 && !e.inTried
    requires e.randomPos == |s.random|
    ensures Inv(Joined(s, e), limbo + {s.idCount}, {})
    ensures Evolves(s, Joined(s, e))
  {
    var id := s.idCount;
    IndexesWith(s.info, s.random, s.addrs, id, e);
    TablesWith(s.hash, s.info, s.newTable, s.triedTable, id, e);
    assert s.info - {} == s.info && s.info[id := e] - {} == s.info[id := e];
    CountsAdd(s.info, s.nNew, s.nTried, s.nets, id, e);
    MinorWith(s, id, e, s.info[id := e], limbo);
  }

  /** Creating an entry for an unknown address leaves it in limbo. */
  lemma CreatedKeeps(s: Book, a: Service, source: Source, time: int, services: nat)
    requires Inv(s, {}, {}) && a !in s.addrs
    ensures Inv(Created(s, a, source, time, services), {s.idCount}, {})
    ensures Evolves(s, Created(s, a, source, time, services))
  {
    JoinedKeeps(s, AddrInfo(a, source, time, services, 0, 0, 0, 0, 0, false, |s.random|), {});
    assert {} + {s.idCount} == {s.idCount};
  }

  // ----- Slots of the new table -----

  lemma RandomKept(info: map<int, AddrInfo>, random: seq<int>, id: int, e: AddrInfo)
    requires RandomOk(info, random) && id in info && e.randomPos == info[id].randomPos
    ensures RandomOk(info[id := e], random)
  {
    var info' := info[id := e];
    forall j | j in info' ensures Placed(info', random, j) {
      assert Placed(info, random, j);
    }
    forall k | 0 <= k < |random| ensures Listed(info', random, k) {
      assert Listed(info, random, k);
    }
  }

  lemma HoldingOthers(h: Hash, t: Table, b: nat, p: nat, x: int, id: int, a: Service)
    requires Shape(t, NEW_BUCKETS) && InTable(b, p, NEW_BUCKETS) && t[b][p] != id && x != id
    ensures Holding(h, Put(t, b, p, x), id, a) == Holding(h, t, id, a)
  {
  }

  /** Emptying an occupied slot and taking back its reference. */
  lemma NewUnslotted(h: Hash, info: map<int, AddrInfo>, t: Table, b: nat, p: nat)
    requires NewOk(h, info, t) && InTable(b, p, NEW_BUCKETS) && t[b][p] != EMPTY && EMPTY !in info
    ensures t[b][p] in info && info[t[b][p]].refCount > 0
    ensures NewOk(h, info[t[b][p] := info[t[b][p]].(refCount := info[t[b][p]].refCount - 1)], Put(t, b, p, EMPTY))
  {
    assert NewSlotOk(h, info, t, b, p);
    var id := t[b][p];
    var e, t' := info[id], Put(t, b, p, EMPTY);
    var info' := info[id := e.(refCount := e.refCount - 1)];
    assert NewEntryOk(h, info, t, id);
    assert b in Holding(h, t, id, e.addr);
    assert Holding(h, t', id, e.addr) == Holding(h, t, id, e.addr) - {b as int};
    forall j | j in info' ensures NewEntryOk(h, info', t', j) {
      assert NewEntryOk(h, info, t, j);
      if j != id { HoldingOthers(h, t, b, p, EMPTY, j, info[j].addr); }
    }
    forall c, q | InTable(c, q, NEW_BUCKETS) ensures NewSlotOk(h, info', t', c, q) {
      assert NewSlotOk(h, info, t, c, q);
    }
  }

  /** Filling an entry's empty slot and adding its reference. */
  lemma NewSlotted(h: Hash, info: map<int, AddrInfo>, t: Table, b: nat, id: int)
    requires NewOk(h, info, t) && b < NEW_BUCKETS && id in info && EMPTY !in info
    requires !info[id].inTried && info[id].refCount < MAX_REFERENCES
    requires t[b][Position(h, true, b, info[id].addr)] == EMPTY
    ensures NewOk(h, info[id := info[id].(refCount := info[id].refCount + 1)],
                  Put(t, b, Position(h, true, b, info[id].addr), id))
  {
    var p := Position(h, true, b, info[id].addr);
    var e, t' := info[id], Put(t, b, p, id);
    var info' := info[id := e.(refCount := e.refCount + 1)];
    assert NewEntryOk(h, info, t, id);
    assert Holding(h, t', id, e.addr) == Holding(h, t, id, e.addr) + {b as int};
    forall j | j in info' ensures NewEntryOk(h, info', t', j) {
      assert NewEntryOk(h, info, t, j);
      if j != id { HoldingOthers(h, t, b, p, id, j, info[j].addr); }
    }
    forall c, q | InTable(c, q, NEW_BUCKETS) ensures NewSlotOk(h, info', t', c, q) {
      assert NewSlotOk(h, info, t, c, q);
    }
  }

  lemma MinorKept(info: map<int, AddrInfo>, id: int, e: AddrInfo, limbo: set<int>)
    requires id in info && Referenced(info, limbo) && e.inTried == info[id].inTried
    ensures info[id := e].Keys == info.Keys
    ensures Referenced(info[id := e], limbo + {id})
    ensures e.refCount > 0 ==> Referenced(info[id := e], limbo - {id})
  {
  }

  lemma UnslottedKeeps(s: Book, b: nat, p: nat, limbo: set<int>, uncounted: set<int>)
    requires Inv(s, limbo, uncounted) && InTable(b, p, NEW_BUCKETS) && s.newTable[b][p] != EMPTY
    ensures var id := s.newTable[b][p]; id in s.info && s.info[id].refCount > 0 && !s.info[id].inTried
    ensures Inv(Unslotted(s, b, p), limbo + {s.newTable[b][p]}, uncounted)
  {
    assert NewSlotOk(s.hash, s.info, s.newTable, b, p);
    var id := s.newTable[b][p];
    NewUnslotted(s.hash, s.info, s.newTable, b, p);
    var e := s.info[id].(refCount := s.info[id].refCount - 1);
    RandomKept(s.info, s.random, id, e);
    AddrsKept(s.info, s.addrs, id, e);
    TriedKept(s.hash, s.info, s.triedTable, id, e);
    CountsKept(s.info, uncounted, s.nNew, s.nTried, s.nets, id, e);
    MinorKept(s.info, id, e, limbo);
  }

  lemma SlottedKeeps(s: Book, b: nat, id: int, limbo: set<int>, uncounted: set<int>)
    requires Inv(s, limbo, uncounted) && b < NEW_BUCKETS && id in s.info
    requires !s.info[id].inTried && s.info[id].refCount < MAX_REFERENCES
    requires s.newTable[b][Position(s.hash, true, b, s.info[id].addr)] == EMPTY
    ensures Inv(Slotted(s, b, id), limbo - {id}, uncounted)
  {
    NewSlotted(s.hash, s.info, s.newTable, b, id);
    assert NewEntryOk(s.hash, s.info, s.newTable, id);
    var e := s.info[id].(refCount := s.info[id].refCount + 1);
    RandomKept(s.info, s.random, id, e);
    AddrsKept(s.info, s.addrs, id, e);
    TriedKept(s.hash, s.info, s.triedTable, id, e);
    CountsKept(s.info, uncounted, s.nNew, s.nTried, s.nets, id, e);
    MinorKept(s.info, id, e, limbo);
  }

  // ----- Moving between the tables -----

  /** Takes an entry out of the new-table counters. */
  function Withdrawn(s: Book, id: int): Book
    requires id in s.info
  {
    s.(nNew := s.nNew - 1, nets := Bumped(s.nets, s.info[id].addr.net, -1, 0))
  }

  /** Puts an entry into the new-table counters. */
  function Counted(s: Book, id: int): Book
    requires id in s.info
  {
    s.(nNew := s.nNew + 1, nets := Bumped(s.nets, s.info[id].addr.net, 1, 0))
  }

  /** Takes the entry in a tried slot out of the tried table. */
  function Demoted(s: Book, b: nat, p: nat): Book
    requires b < |s.triedTable| && p < |s.triedTable[b]| && s.triedTable[b][p] in s.info
  {
    var id := s.triedTable[b][p];
    s.(info := s.info[id := s.info[id].(inTried := false)],
       triedTable := Put(s.triedTable, b, p, EMPTY),
       nTried := s.nTried - 1,
       nets := Bumped(s.nets, s.info[id].addr.net, 0, -1))
  }

  /** Puts an entry into its tried slot. */
  function Promoted(s: Book, id: int): Book
    requires id in s.info && Shape(s.triedTable, TRIED_BUCKETS)
  {
    var b := TriedBucket(s.hash, s.info[id].addr);
    s.(triedTable := Put(s.triedTable, b, Position(s.hash, false, b, s.info[id].addr), id),
       nTried := s.nTried + 1,
       info := s.info[id := s.info[id].(inTried := true)],
       nets := Bumped(s.nets, s.info[id].addr.net, 0, 1))
  }

  lemma WithdrawnKeeps(s: Book, id: int, limbo: set<int>, uncounted: set<int>)
    requires Inv(s, limbo, uncounted) && id in s.info && !s.info[id].inTried && id !in uncounted
    ensures Inv(Withdrawn(s, id), limbo, uncounted + {id})
  {
    CountsRemove(s.info - uncounted, s.nNew, s.nTried, s.nets, id);
    assert s.info - (uncounted + {id}) == (s.info - uncounted) - {id};
  }

  lemma CountedKeeps(s: Book, id: int, limbo: set<int>, uncounted: set<int>)
    requires Inv(s, limbo, uncounted) && id in s.info && !s.info[id].inTried && id in uncounted
    ensures Inv(Counted(s, id), limbo, uncounted - {id})
  {
    CountsAdd(s.info - uncounted, s.nNew, s.nTried, s.nets, id, s.info[id]);
    assert s.info - (uncounted - {id}) == (s.info - uncounted)[id := s.info[id]];
  }

  /** A tried entry has no reference from the new table. */
  lemma TriedUnreferenced(h: Hash, info: map<int, AddrInfo>, t: Table, id: int)
    requires NewOk(h, info, t) && id in info && info[id].inTried && EMPTY !in info
    ensures info[id].refCount == 0
  {
    assert NewEntryOk(h, info, t, id);
    forall b | 0 <= b < NEW_BUCKETS ensures t[b][Position(h, true, b, info[id].addr)] != id {
      assert NewSlotOk(h, info, t, b, Position(h, true, b, info[id].addr));
    }
    assert Holding(h, t, id, info[id].addr) == {};
  }

  /** An unreferenced entry may change sides without the new table noticing. */
  lemma NewFlipped(h: Hash, info: map<int, AddrInfo>, t: Table, id: int, e: AddrInfo)
    requires NewOk(h, info, t) && id in info && info[id].refCount == 0 && id != EMPTY
    requires e.addr == info[id].addr && e.refCount == 0
    ensures NewOk(h, info[id := e], t)
  {
    var info' := info[id := e];
    NewWithout(h, info, t, id);
    forall b, p | InTable(b, p, NEW_BUCKETS) ensures NewSlotOk(h, info', t, b, p) {
      assert NewSlotOk(h, info, t, b, p);
    }
    forall j | j in info' ensures NewEntryOk(h, info', t, j) {
      assert NewEntryOk(h, info, t, j);
    }
  }

  lemma TriedDemoted(h: Hash, info: map<int, AddrInfo>, t: Table, b: nat, p: nat)
    requires TriedOk(h, info, t) && InTable(b, p, TRIED_BUCKETS) && t[b][p] != EMPTY
    ensures t[b][p] in info && info[t[b][p]].inTried
    ensures TriedOk(h, info[t[b][p] := info[t[b][p]].(inTried := false)], Put(t, b, p, EMPTY))
  {
    assert TriedSlotOk(h, info, t, b, p);
    var id, t' := t[b][p], Put(t, b, p, EMPTY);
    var info' := info[id := info[id].(inTried := false)];
    forall c, q | InTable(c, q, TRIED_BUCKETS) ensures TriedSlotOk(h, info', t', c, q) {
      assert TriedSlotOk(h, info, t, c, q);
    }
    forall j | j in info' ensures TriedEntryOk(h, info', t', j) {
      assert TriedEntryOk(h, info, t, j);
    }
  }

  lemma TriedPromoted(h: Hash, info: map<int, AddrInfo>, t: Table, id: int)
    requires TriedOk(h, info, t) && id in info && !info[id].inTried && EMPTY !in info
    requires TriedSlot(h, t, info[id].addr) == EMPTY
    ensures var b := TriedBucket(h, info[id].addr);
            TriedOk(h, info[id := info[id].(inTried := true)], Put(t, b, Position(h, false, b, info[id].addr), id))
  {
    var b := TriedBucket(h, info[id].addr);
    var t', info' := Put(t, b, Position(h, false, b, info[id].addr), id), info[id := info[id].(inTried := true)];
    forall c, q | InTable(c, q, TRIED_BUCKETS) ensures TriedSlotOk(h, info', t', c, q) {
      assert TriedSlotOk(h, info, t, c, q);
    }
    forall j | j in info' ensures TriedEntryOk(h, info', t', j) {
      assert TriedEntryOk(h, info, t, j);
    }
  }

  lemma DemotedMinor(info: map<int, AddrInfo>, id: int, limbo: set<int>)
    requires id in info && Referenced(info, limbo)
    ensures var info' := info[id := info[id].(inTried := false)];
            Referenced(info', limbo + {id}) && info'.Keys == info.Keys
  {
  }

  lemma DemotedKeeps(s: Book, b: nat, p: nat, limbo: set<int>, uncounted: set<int>)
    requires Inv(s, limbo, uncounted) && InTable(b, p, TRIED_BUCKETS) && s.triedTable[b][p] != EMPTY
    requires s.triedTable[b][p] !in uncounted
    ensures var id := s.triedTable[b][p]; id in s.info && s.info[id].refCount == 0
    ensures var id := s.triedTable[b][p]; Inv(Demoted(s, b, p), limbo + {id}, uncounted + {id})
  {
    TriedDemoted(s.hash, s.info, s.triedTable, b, p);
    var id := s.triedTable[b][p];
    var e := s.info[id].(inTried := false);
    TriedUnreferenced(s.hash, s.info, s.newTable, id);
    NewFlipped(s.hash, s.info, s.newTable, id, e);
    RandomKept(s.info, s.random, id, e);
    AddrsKept(s.info, s.addrs, id, e);
    CountsRemove(s.info - uncounted, s.nNew, s.nTried, s.nets, id);
    assert s.info[id := e] - (uncounted + {id}) == (s.info - uncounted) - {id};
    DemotedMinor(s.info, id, limbo);
  }

  lemma PromotedMinor(info: map<int, AddrInfo>, id: int, limbo: set<int>)
    requires id in info && Referenced(info, limbo)
    ensures var info' := info[id := info[id].(inTried := true)];
            Referenced(info', limbo - {id}) && info'.Keys == info.Keys
  {
  }

  lemma PromotedKeeps(s: Book, id: int, limbo: set<int>, uncounted: set<int>)
    requires Inv(s, limbo, uncounted) && id in s.info && !s.info[id].inTried
    requires s.info[id].refCount == 0 && id in uncounted
    requires TriedSlot(s.hash, s.triedTable, s.info[id].addr) == EMPTY
    ensures Inv(Promoted(s, id), limbo - {id}, uncounted - {id})
  {
    TriedPromoted(s.hash, s.info, s.triedTable, id);
    var e := s.info[id].(inTried := true);
    NewFlipped(s.hash, s.info, s.newTable, id, e);
    RandomKept(s.info, s.random, id, e);
    AddrsKept(s.info, s.addrs, id, e);
    CountsAdd(s.info - uncounted, s.nNew, s.nTried, s.nets, id, e);
    assert s.info[id := e] - (uncounted - {id}) == (s.info - uncounted)[id := e];
    PromotedMinor(s.info, id, limbo);
  }

  // ----- What the tables determine -----

  /** Two states of one entry that differ only in what the tables determine. */
  predicate SameRecord(e: AddrInfo, e': AddrInfo) {
    e' == e.(refCount := e'.refCount, inTried := e'.inTried, randomPos := e'.randomPos)
  }

  /** Entries live in both books keep their records, apart from the exceptions. */
  ghost predicate Kept(s: Book, s': Book, except: set<int>) {
    forall id {:trigger s'.info[id]} ::
      id in s.info && id in s'.info && id !in except ==> SameRecord(s.info[id], s'.info[id])
  }

  /** An id stands somewhere in a table. */
  ghost predicate Stands(t: Table, buckets: nat, id: int)
    requires Shape(t, buckets)
  {
    exists b, p :: InTable(b, p, buckets) && t[b][p] == id
  }

  lemma HeldStands(h: Hash, info: map<int, AddrInfo>, t: Table, id: int)
    requires NewOk(h, info, t) && id in info && info[id].refCount > 0
    ensures Stands(t, NEW_BUCKETS, id)
  {
    assert NewEntryOk(h, info, t, id);
    assert Holding(h, t, id, info[id].addr) != {};
    var b :| b in Holding(h, t, id, info[id].addr);
    assert InTable(b, Position(h, true, b, info[id].addr), NEW_BUCKETS);
  }

  /** In a consistent book the live ids are exactly the ids in the two tables. */
  lemma LiveIsStanding(s: Book, id: int)
    requires Consistent(s) && id != EMPTY
    ensures id in s.info <==> Stands(s.newTable, NEW_BUCKETS, id) || Stands(s.triedTable, TRIED_BUCKETS, id)
    ensures id in s.info ==> (s.info[id].inTried <==> Stands(s.triedTable, TRIED_BUCKETS, id))
  {
    if id in s.info {
      assert TriedEntryOk(s.hash, s.info, s.triedTable, id);
      if s.info[id].inTried {
        var b := TriedBucket(s.hash, s.info[id].addr);
        assert InTable(b, Position(s.hash, false, b, s.info[id].addr), TRIED_BUCKETS);
      } else {
        HeldStands(s.hash, s.info, s.newTable, id);
      }
    }
    if Stands(s.newTable, NEW_BUCKETS, id) {
      var b, p :| InTable(b, p, NEW_BUCKETS) && s.newTable[b][p] == id;
      assert NewSlotOk(s.hash, s.info, s.newTable, b, p);
    }
    if Stands(s.triedTable, TRIED_BUCKETS, id) {
      var b, p :| InTable(b, p, TRIED_BUCKETS) && s.triedTable[b][p] == id;
      assert TriedSlotOk(s.hash, s.info, s.triedTable, b, p);
    }
  }

  /** The tables and the records determine a consistent book's entries up to
      their places in vRandom. */
  lemma TablesDetermine(s: Book, s': Book, id: int)
    requires Consistent(s) && Consistent(s') && s.hash == s'.hash
    requires s.newTable == s'.newTable && s.triedTable == s'.triedTable && Kept(s, s', {})
    ensures id in s.info <==> id in s'.info
    ensures id in s.info ==> s'.info[id] == s.info[id].(randomPos := s'.info[id].randomPos)
  {
    if id != EMPTY {
      LiveIsStanding(s, id);
      LiveIsStanding(s', id);
    }
    if id in s.info && id in s'.info {
      assert NewEntryOk(s.hash, s.info, s.newTable, id) && NewEntryOk(s.hash, s'.info, s.newTable, id);
    }
  }
}
