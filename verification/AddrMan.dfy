/** The address manager: its operations change the tables in place, one
    elementary step after another, and each leaves a consistent book. */
module AddrMan {
  import opened AddrBook
  import opened Powers

  const MINUTE: int := 60
  const HOUR: int := 3600
  const DAY: int := 86400
  const HORIZON: int := 30 * DAY
  const RETRIES: int := 3
  const MAX_FAILURES: int := 10
  const MIN_FAIL: int := 7 * DAY
  const REPLACEMENT: int := 4 * HOUR
  const TEST_WINDOW: int := 40 * MINUTE

  /** An announced address. */
  datatype Address = Address(service: Service, time: int, services: nat)

  /** Facts about addresses that come from outside the address manager. */
  datatype NetRules = NetRules(routable: Service -> bool, valid: Service -> bool, netClass: Service -> nat)

  predicate IsTerrible(e: AddrInfo, now: int) {
    if now - e.lastTry <= MINUTE then false
    else if e.time > now + 10 * MINUTE then true
    else if now - e.time > HORIZON then true
    else if e.lastSuccess == 0 && e.attempts >= RETRIES then true
    else now - e.lastSuccess > MIN_FAIL && e.attempts >= MAX_FAILURES
  }

  function Max(a: int, b: int): int { if a < b then b else a }

  /** An entry whose place in vRandom may have changed and nothing else. */
  predicate SameEntry(e: AddrInfo, e': AddrInfo) {
    e' == e.(randomPos := e'.randomPos)
  }

  ghost predicate SameEntries(info: map<int, AddrInfo>, info': map<int, AddrInfo>) {
    && info.Keys == info'.Keys
    && forall id {:trigger info[id]} {:trigger info'[id]} :: id in info' ==> SameEntry(info[id], info'[id])
  }

  /** The entry that loses its last reference when a new slot is emptied. */
  function Orphan(s: Book, b: nat, p: nat): set<int>
    requires b < |s.newTable| && p < |s.newTable[b]|
  {
    var id := s.newTable[b][p];
    if id in s.info && s.info[id].refCount == 1 then {id} else {}
  }

  /** The table with every slot of an id emptied. */
  function Without(t: Table, id: int): Table {
    seq(|t|, b requires 0 <= b < |t| =>
      seq(|t[b]|, p requires 0 <= p < |t[b]| => if t[b][p] == id then EMPTY else t[b][p]))
  }

  /** The first `n` buckets of the round that starts at `start`. */
  predicate Visited(start: nat, n: nat, b: int) {
    (b - start) % NEW_BUCKETS < n
  }

  lemma VisitedStep(start: nat, n: nat, b: nat)
    requires start < NEW_BUCKETS && n < NEW_BUCKETS && b < NEW_BUCKETS
    ensures Visited(start, n + 1, b) <==> Visited(start, n, b) || b == (start + n) % NEW_BUCKETS
  {
    var d := (b - start) % NEW_BUCKETS;
    assert d == if b >= start then b - start else b - start + NEW_BUCKETS;
  }

  /** No visited bucket holds the id at its position. */
  ghost predicate Swept(h: Hash, t: Table, id: int, a: Service, start: nat, n: nat)
    requires Shape(t, NEW_BUCKETS)
  {
    forall b :: 0 <= b < NEW_BUCKETS && Visited(start, n, b) ==> b !in Holding(h, t, id, a)
  }

  lemma SweptStep(h: Hash, t: Table, t': Table, id: int, a: Service, start: nat, n: nat)
    requires Shape(t, NEW_BUCKETS) && Shape(t', NEW_BUCKETS) && start < NEW_BUCKETS && n < NEW_BUCKETS
    requires Swept(h, t, id, a, start, n) && Emptied(t, t', id, NEW_BUCKETS)
    requires id != EMPTY && (start + n) % NEW_BUCKETS !in Holding(h, t', id, a)
    ensures Swept(h, t', id, a, start, n + 1)
  {
    forall b | 0 <= b < NEW_BUCKETS && Visited(start, n + 1, b) ensures b !in Holding(h, t', id, a) {
      VisitedStep(start, n, b);
      if Visited(start, n, b) {
        assert b !in Holding(h, t, id, a);
        assert SlotEmptied(t, t', id, b, Position(h, true, b, a));
      }
    }
  }

  /** A slot is as it was, or it was emptied of the id. */
  predicate SlotEmptied(t: Table, t': Table, id: int, b: nat, p: nat)
    requires b < |t| && p < |t[b]| && b < |t'| && p < |t'[b]|
  {
    t'[b][p] == t[b][p] || (t[b][p] == id && t'[b][p] == EMPTY)
  }

  ghost predicate Emptied(t: Table, t': Table, id: int, buckets: nat)
    requires Shape(t, buckets) && Shape(t', buckets)
  {
    forall b, p {:trigger SlotEmptied(t, t', id, b, p)} :: InTable(b, p, buckets) ==> SlotEmptied(t, t', id, b, p)
  }

  lemma EmptiedOne(t: Table, t': Table, id: int, b: nat, p: nat)
    requires Shape(t, NEW_BUCKETS) && Shape(t', NEW_BUCKETS) && Emptied(t, t', id, NEW_BUCKETS)
    requires InTable(b, p, NEW_BUCKETS) && t'[b][p] == id && id != EMPTY
    ensures Emptied(t, Put(t', b, p, EMPTY), id, NEW_BUCKETS) && Emptied(t', Put(t', b, p, EMPTY), id, NEW_BUCKETS)
  {
    var t'' := Put(t', b, p, EMPTY);
    forall c, q | InTable(c, q, NEW_BUCKETS) ensures SlotEmptied(t, t'', id, c, q) {
      assert SlotEmptied(t, t', id, c, q);
    }
  }

  lemma EmptiedAll(t: Table, t': Table, id: int)
    requires Shape(t, NEW_BUCKETS) && Shape(t', NEW_BUCKETS) && Emptied(t, t', id, NEW_BUCKETS)
    requires forall b, p :: InTable(b, p, NEW_BUCKETS) ==> t'[b][p] != id
    ensures t' == Without(t, id)
  {
    forall b | 0 <= b < NEW_BUCKETS ensures t'[b] == Without(t, id)[b] {
      forall p | 0 <= p < BUCKET_SIZE ensures t'[b][p] == Without(t, id)[b][p] {
        assert SlotEmptied(t, t', id, b, p);
        assert InTable(b, p, NEW_BUCKETS);
      }
    }
  }

  /** Whether the round went to its end or stopped at the last reference. */
  lemma UnlistDone(h: Hash, info: map<int, AddrInfo>, t: Table, t': Table, id: int, start: nat)
    requires NewOk(h, info, t') && id in info && id != EMPTY
    requires Shape(t, NEW_BUCKETS) && Emptied(t, t', id, NEW_BUCKETS)
    requires info[id].refCount == 0 || Swept(h, t', id, info[id].addr, start, NEW_BUCKETS)
    ensures info[id].refCount == 0 && t' == Without(t, id)
  {
    assert NewEntryOk(h, info, t', id);
    assert Swept(h, t', id, info[id].addr, start, NEW_BUCKETS) ==> Holding(h, t', id, info[id].addr) == {};
    NewWithout(h, info, t', id);
    EmptiedAll(t, t', id);
  }

  /** The new table with an entry in the bucket its own source gives it. */
  function Reentered(t: Table, h: Hash, e: AddrInfo, id: int): Table
    requires Shape(t, NEW_BUCKETS)
  {
    var b := NewBucket(h, e.addr, e.source);
    Put(t, b, Position(h, true, b, e.addr), id)
  }

  /** The tried table after an entry moved there. */
  function Tried(s: Book, id: int): Table
    requires id in s.info && Shape(s.triedTable, TRIED_BUCKETS)
  {
    var b := TriedBucket(s.hash, s.info[id].addr);
    Put(s.triedTable, b, Position(s.hash, false, b, s.info[id].addr), id)
  }

  /** A new table after an entry moved to the tried table: the entry it
      displaced there, if any, went back to its own new bucket. */
  function Reshuffled(s: Book, id: int, t: Table): Table
    requires id in s.info && Shape(s.triedTable, TRIED_BUCKETS) && Shape(t, NEW_BUCKETS)
  {
    var displaced := TriedSlot(s.hash, s.triedTable, s.info[id].addr);
    if displaced in s.info then Reentered(t, s.hash, s.info[displaced], displaced) else t
  }

  lemma NotDisplaced(s: Book, id: int)
    requires TriedOk(s.hash, s.info, s.triedTable) && id in s.info && !s.info[id].inTried && id != EMPTY
    ensures TriedSlot(s.hash, s.triedTable, s.info[id].addr) != id
  {
    var b := TriedBucket(s.hash, s.info[id].addr);
    assert TriedSlotOk(s.hash, s.info, s.triedTable, b, Position(s.hash, false, b, s.info[id].addr));
  }

  function Succeeded(e: AddrInfo, time: int): AddrInfo {
    e.(lastSuccess := time, lastTry := time, attempts := 0)
  }

  /** What a report of a successful connection to a known address does. */
  ghost predicate GoodDone(s: Book, s': Book, id: int, testBeforeEvict: bool, e: AddrInfo, moved: bool)
    requires Shape(s.triedTable, TRIED_BUCKETS) && Shape(s.newTable, NEW_BUCKETS) && id in s.info
  {
    && id in s'.info && Kept(s, s', {id}) && SameRecord(e, s'.info[id])
    && var full := TriedSlot(s.hash, s.triedTable, s.info[id].addr) != EMPTY;
    && moved == (!s.info[id].inTried && !(testBeforeEvict && full))
    && s'.idCount == s.idCount
    && s'.triedTable == (if moved then Tried(s, id) else s.triedTable)
    && s'.newTable == (if moved then Reshuffled(s, id, Without(s.newTable, id)) else s.newTable)
    && s'.collisions == (if !moved && !s.info[id].inTried && |s.collisions| < MAX_COLLISIONS
                         then s.collisions + {id} else s.collisions)
  }

  /** The slot of the new table an address takes under a source. */
  function ListingSlot(s: Book, a: Service, source: Source): int
    requires Shape(s.newTable, NEW_BUCKETS)
  {
    var b := NewBucket(s.hash, a, source);
    s.newTable[b][Position(s.hash, true, b, a)]
  }

  function Relisted(s: Book, id: int, a: Service, source: Source): Table
    requires Shape(s.newTable, NEW_BUCKETS)
  {
    var b := NewBucket(s.hash, a, source);
    Put(s.newTable, b, Position(s.hash, true, b, a), id)
  }

  /** The slot is free, or its entry is terrible or can spare it for a newcomer. */
  predicate GivesWay(s: Book, id: int, e: AddrInfo, source: Source, now: int)
    requires Shape(s.newTable, NEW_BUCKETS)
  {
    var other := ListingSlot(s, e.addr, source);
    other == EMPTY ||
    (other != id && other in s.info &&
     (IsTerrible(s.info[other], now) || (s.info[other].refCount > 1 && e.refCount == 0)))
  }

  /** A source announcing itself gets no penalty. */
  function Penalty(a: Address, source: Source, penalty: int): int {
    if a.service.net == source.net && a.service.host == source.host then 0 else penalty
  }

  /** A known entry after another announcement. */
  function Refreshed(e: AddrInfo, a: Address, penalty: int, now: int): AddrInfo {
    var interval := if now - a.time < DAY then HOUR else DAY;
    e.(time := if e.time < a.time - interval - penalty then Max(0, a.time - penalty) else e.time,
       services := BitOr(e.services, a.services))
  }

  function FirstRecord(a: Address, source: Source, penalty: int): AddrInfo {
    AddrInfo(a.service, source, Max(0, a.time - penalty), a.services, 0, 0, 0, 0, 0, false, 0)
  }

  /** Whether a known entry may get another listing: it carries news, it is not
      tried, it has room, and the draw of one in two to its references is lucky. */
  predicate Admits(e: AddrInfo, a: Address, draw: nat)
  {
    && a.time > e.time && !e.inTried && e.refCount != MAX_REFERENCES
    && (e.refCount > 0 ==> draw % Pow2(e.refCount) == 0)
  }

  /** What announcing an address does: the entry's record becomes `e`, at most
      its one slot under the source changes, and everything else is kept. */
  ghost predicate AddDone(s: Book, s': Book, id: int, e: AddrInfo, source: Source, now: int, admitted: bool,
                          added: bool)
    requires Shape(s.newTable, NEW_BUCKETS)
  {
    && (added <==> admitted && GivesWay(s, id, e, source, now))
    && s'.newTable == (if added then Relisted(s, id, e.addr, source) else s.newTable)
    && s'.triedTable == s.triedTable && s'.collisions == s.collisions
    && (id in s'.info ==> SameRecord(e, s'.info[id]))
    && Kept(s, s', {id})
  }

  lemma GoodAfter(s: Book, s': Book, id: int, testBeforeEvict: bool, e: AddrInfo, moved: bool)
    requires Shape(s.triedTable, TRIED_BUCKETS) && Shape(s.newTable, NEW_BUCKETS) && id in s.info
    requires e.addr == s.info[id].addr && e.source == s.info[id].source && e.inTried == s.info[id].inTried
    requires TriedSlot(s.hash, s.triedTable, e.addr) == id ==> e.inTried
    requires GoodDone(Entered(s, id, e), s', id, testBeforeEvict, e, moved)
    ensures GoodDone(s, s', id, testBeforeEvict, e, moved)
  {
  }

  lemma AddAfter(s: Book, s': Book, id: int, e: AddrInfo, source: Source, now: int, added: bool)
    requires Shape(s.newTable, NEW_BUCKETS) && id in s.info && e.addr == s.info[id].addr
    requires AddDone(Entered(s, id, e), s', id, e, source, now, true, added)
    ensures AddDone(s, s', id, e, source, now, true, added)
  {
  }

  /** Listing an entry that was just created is announcing an unknown address. */
  lemma AddFresh(s: Book, s1: Book, s': Book, a: Address, source: Source, penalty: int, now: int, added: bool)
    requires Shape(s.newTable, NEW_BUCKETS) && s.idCount !in s.info
    requires s1 == Created(s, a.service, source, Max(0, a.time - penalty), a.services)
    requires added <==> GivesWay(s1, s.idCount, s1.info[s.idCount], source, now)
    requires s'.newTable == if added then Relisted(s1, s.idCount, a.service, source) else s1.newTable
    requires s'.triedTable == s1.triedTable && s'.collisions == s1.collisions && Kept(s1, s', {})
    ensures AddDone(s, s', s.idCount, FirstRecord(a, source, penalty), source, now, true, added)
  {
  }

  /** What AddSingle does with one announced address. */
  ghost predicate AddStep(rules: NetRules, s: Book, s': Book, a: Address, source: Source, penalty: int,
                          now: int, later: int, draw: nat, added: bool)
    requires Shape(s.newTable, NEW_BUCKETS)
  {
    var fine := Penalty(a, source, penalty);
    if !rules.routable(a.service) then
      !added && s' == s
    else if a.service in s.addrs then
      var id := s.addrs[a.service];
      && id in s.info && id in s'.info && s'.idCount == s.idCount
      && var e := Refreshed(s.info[id], a, fine, now);
      AddDone(s, s', id, e, source, later, Admits(e, a, draw), added)
    else
      && s'.idCount == s.idCount + 1 && (s.idCount in s'.info <==> added)
      && AddDone(s, s', s.idCount, FirstRecord(a, source, fine), source, later, true, added)
  }

  /** What becomes of a pending collision. */
  datatype Verdict = Drop | Replace | Wait

  function Judge(s: Book, valid: Service -> bool, id: int, now: int): Verdict
    requires Shape(s.triedTable, TRIED_BUCKETS)
  {
    if id !in s.info || !valid(s.info[id].addr) then Drop
    else
      var other := TriedSlot(s.hash, s.triedTable, s.info[id].addr);
      if other !in s.info then Wait
      else
        var e := s.info[other];
        if now - e.lastSuccess < REPLACEMENT then Drop
        else if now - e.lastTry < REPLACEMENT then (if now - e.lastTry > 60 then Replace else Wait)
        else if now - s.info[id].lastSuccess > TEST_WINDOW then Replace
        else Wait
  }

  /** What ResolveOne does with one pending collision. */
  ghost predicate ResolveStep(valid: Service -> bool, s: Book, s': Book, id: int, now: int)
    requires Shape(s.triedTable, TRIED_BUCKETS) && Shape(s.newTable, NEW_BUCKETS)
  {
    match Judge(s, valid, id, now)
    case Wait => s' == s
    case Drop => s' == s.(collisions := s.collisions - {id})
    case Replace =>
      && s'.collisions == s.collisions - {id} && id in s.info
      && GoodDone(s, s'.(collisions := s.collisions), id, false, Succeeded(s.info[id], now), !s.info[id].inTried)
  }

  // ----- Times -----

  /** An entry's times make sense. */
  predicate TimeOk(e: AddrInfo) {
    e.lastTry >= 0 && e.lastSuccess >= 0 && (e.inTried ==> e.lastSuccess > 0)
  }

  /** An entry that keeps its record does not become tried unless it takes a tried slot. */
  lemma TimeKept(s: Book, s': Book, id: int)
    requires Consistent(s) && Consistent(s') && id in s.info && id in s'.info
    requires SameRecord(s.info[id], s'.info[id]) && TimeOk(s.info[id])
    requires Stands(s'.triedTable, TRIED_BUCKETS, id) ==> Stands(s.triedTable, TRIED_BUCKETS, id)
    ensures TimeOk(s'.info[id])
  {
    LiveIsStanding(s, id);
    LiveIsStanding(s', id);
  }

  lemma AddTimes(rules: NetRules, s: Book, s': Book, a: Address, source: Source, penalty: int,
                 now: int, later: int, draw: nat, added: bool)
    requires Consistent(s) && Consistent(s') && Evolves(s, s') && TimesOk(s.info)
    requires AddStep(rules, s, s', a, source, penalty, now, later, draw, added)
    ensures TimesOk(s'.info)
  {
    forall id | id in s'.info ensures TimeOk(s'.info[id]) {
      if id < s.idCount {
        if SameRecord(s.info[id], s'.info[id]) {
          TimeKept(s, s', id);
        } else {
          var e := Refreshed(s.info[id], a, Penalty(a, source, penalty), now);
          assert SameRecord(e, s'.info[id]);
          LiveIsStanding(s, id);
          LiveIsStanding(s', id);
        }
      } else {
        LiveIsStanding(s, id);
        LiveIsStanding(s', id);
      }
    }
  }

  /** Only the entry that moves takes a tried slot. */
  lemma TriedStands(s: Book, id: int, j: int)
    requires Shape(s.triedTable, TRIED_BUCKETS) && id in s.info && j != id && j != EMPTY
    requires Stands(Tried(s, id), TRIED_BUCKETS, j)
    ensures Stands(s.triedTable, TRIED_BUCKETS, j)
  {
    var t := Tried(s, id);
    var b, p :| InTable(b, p, TRIED_BUCKETS) && t[b][p] == j;
    assert s.triedTable[b][p] == j;
  }

  lemma MovedStands(s: Book, id: int)
    requires Shape(s.triedTable, TRIED_BUCKETS) && id in s.info
    ensures Stands(Tried(s, id), TRIED_BUCKETS, id)
  {
    var b := TriedBucket(s.hash, s.info[id].addr);
    var p := Position(s.hash, false, b, s.info[id].addr);
    assert InTable(b, p, TRIED_BUCKETS) && Tried(s, id)[b][p] == id;
  }

  /** A report of a connection keeps the times in order unless its own time is too early. */
  lemma GoodTimes(s: Book, s': Book, id: int, testBeforeEvict: bool, time: int, moved: bool)
    requires Consistent(s) && Consistent(s') && Evolves(s, s') && TimesOk(s.info) && id in s.info
    requires GoodDone(s, s', id, testBeforeEvict, Succeeded(s.info[id], time), moved)
    ensures TimesOk(s'.info) <==> time > 0 || (time == 0 && !moved && !s.info[id].inTried)
  {
    LiveIsStanding(s, id);
    LiveIsStanding(s', id);
    if moved {
      MovedStands(s, id);
    }
    assert TimeOk(s'.info[id]) <==> time > 0 || (time == 0 && !moved && !s.info[id].inTried);
    forall j | j in s'.info && j != id ensures TimeOk(s'.info[j]) {
      assert j < s.idCount;
      if moved && Stands(s'.triedTable, TRIED_BUCKETS, j) {
        TriedStands(s, id, j);
      }
      TimeKept(s, s', j);
    }
  }

  // ----- Who may be evicted -----

  /** A tried entry may go for a pending one: it was not reached for four hours, and was
      tried since, more than a minute ago, or the pending one has waited for over forty
      minutes. */
  predicate MayEvict(e: AddrInfo, pending: AddrInfo, now: int) {
    && now - e.lastSuccess >= 14400
    && (60 < now - e.lastTry < 14400 || (now - e.lastTry >= 14400 && now - pending.lastSuccess > 2400))
  }

  /** The slot in dispute changes hands exactly if the pending address is valid and not
      tried already and the entry there may be evicted; the collision is forgotten in that
      case, and if its entry is dead or invalid or the entry there was reached lately. */
  lemma EvictsExactly(valid: Service -> bool, s: Book, s': Book, id: int, now: int)
    requires Consistent(s) && id in s.collisions && id in s.info && ResolveStep(valid, s, s', id, now)
    requires Shape(s'.triedTable, TRIED_BUCKETS)
    ensures var other := TriedSlot(s.hash, s.triedTable, s.info[id].addr);
            && other in s.info
            && TriedSlot(s.hash, s'.triedTable, s.info[id].addr) ==
               (if valid(s.info[id].addr) && !s.info[id].inTried && MayEvict(s.info[other], s.info[id], now)
                then id else other)
            && (id in s'.collisions <==>
                valid(s.info[id].addr) && now - s.info[other].lastSuccess >= 14400 &&
                !MayEvict(s.info[other], s.info[id], now))
  {
    var b := TriedBucket(s.hash, s.info[id].addr);
    var p := Position(s.hash, false, b, s.info[id].addr);
    assert InTable(b, p, TRIED_BUCKETS) && TriedSlotOk(s.hash, s.info, s.triedTable, b, p);
  }

  /** An entry of the tried table that was reached within the last four hours stays in it. */
  lemma RecentStays(valid: Service -> bool, s: Book, s': Book, id: int, now: int, j: int)
    requires Consistent(s) && Consistent(s') && id in s.collisions && ResolveStep(valid, s, s', id, now)
    requires j in s.info && s.info[j].inTried && now - s.info[j].lastSuccess < 14400
    ensures j in s'.info && s'.info[j].inTried
    ensures s'.info[j].lastSuccess == s.info[j].lastSuccess || (j == id && s'.info[j].lastSuccess == now)
  {
    LiveIsStanding(s, j);
    var b, p :| InTable(b, p, TRIED_BUCKETS) && s.triedTable[b][p] == j;
    assert TriedSlotOk(s.hash, s.info, s.triedTable, b, p);
    assert s'.triedTable[b][p] == j;
    LiveIsStanding(s', j);
  }

  /** An entry that was reached within four hours of every reading of the clock, the
      readings being no further apart. */
  ghost predicate Recent(info: map<int, AddrInfo>, pending: set<int>, clock: int -> int, j: int) {
    && j in info && info[j].inTried
    && (forall id :: id in pending ==> clock(id) - info[j].lastSuccess < 14400)
    && forall id, k :: id in pending && k in pending ==> clock(id) - clock(k) < 14400
  }

  /** Entries that were reached lately are still tried. */
  ghost predicate RecentKept(s0: Book, s: Book, clock: int -> int) {
    forall j {:trigger Recent(s0.info, s0.collisions, clock, j)} ::
      Recent(s0.info, s0.collisions, clock, j) ==> Recent(s.info, s0.collisions, clock, j)
  }

  lemma StillRecent(valid: Service -> bool, s0: Book, s: Book, s': Book, id: int, clock: int -> int)
    requires Consistent(s) && Consistent(s') && id in s.collisions && id in s0.collisions
    requires ResolveStep(valid, s, s', id, clock(id))
    requires RecentKept(s0, s, clock)
    ensures RecentKept(s0, s', clock)
  {
    forall j | Recent(s0.info, s0.collisions, clock, j) ensures Recent(s'.info, s0.collisions, clock, j) {
      assert Recent(s.info, s0.collisions, clock, j);
      RecentStays(valid, s, s', id, clock(id), j);
    }
  }

  /** The empty result of a lookup. */
  function NoInfo(): AddrInfo {
    AddrInfo(Service(0, 0, 0), Source(0, 0), 0, 0, 0, 0, 0, 0, 0, false, EMPTY)
  }

  method LeastOf(s: set<int>) returns (id: int)
    requires |s| > 0
    ensures id in s && (forall j :: j in s ==> id <= j) && |s - {id}| < |s|
  {
    ghost var least := Least(s);
    id :| id in s && forall j :: j in s ==> id <= j;
  }

  lemma {:induction false} Least(s: set<int>) returns (least: int)
    requires |s| > 0
    ensures least in s && forall y :: y in s ==> least <= y
    decreases |s|
  {
    Inhabited(s);
    least :| least in s;
    var rest := s - {least};
    if |rest| > 0 {
      var other := Least(rest);
      assert forall y :: y in s ==> y == least || y in rest;
      least := if other < least then other else least;
    } else {
      assert s == {least};
    }
  }

  // ----- Choosing addresses to hand out -----

  datatype Wanted = AnyNetwork | Only(net: nat)

  function AsAddress(e: AddrInfo): Address {
    Address(e.addr, e.time, e.services)
  }

  predicate Eligible(e: AddrInfo, rules: NetRules, network: Wanted, now: int) {
    (network.Only? ==> rules.netClass(e.addr) == network.net) && !IsTerrible(e, now)
  }

  ghost predicate Offered(info: map<int, AddrInfo>, rules: NetRules, network: Wanted, now: int, a: Address) {
    exists id :: id in info && Eligible(info[id], rules, network, now) && AsAddress(info[id]) == a
  }

  predicate Distinct(r: seq<Address>) {
    forall i, j :: 0 <= i < j < |r| ==> r[i].service != r[j].service
  }

  ghost predicate AllOffered(info: map<int, AddrInfo>, rules: NetRules, network: Wanted, now: int, r: seq<Address>) {
    forall a :: a in r ==> Offered(info, rules, network, now, a)
  }

  ghost predicate Exhausted(info: map<int, AddrInfo>, rules: NetRules, network: Wanted, now: int, r: seq<Address>) {
    forall a :: Offered(info, rules, network, now, a) ==> a in r
  }

  predicate Live(info: map<int, AddrInfo>, ids: seq<int>) {
    forall i :: 0 <= i < |ids| ==> ids[i] in info
  }

  /** The eligible addresses among a list of ids, in order. */
  function Picks(info: map<int, AddrInfo>, ids: seq<int>, rules: NetRules, network: Wanted, now: int): seq<Address>
    requires Live(info, ids)
  {
    if ids == [] then []
    else
      var e := info[ids[|ids| - 1]];
      Picks(info, ids[..|ids| - 1], rules, network, now) +
        (if Eligible(e, rules, network, now) then [AsAddress(e)] else [])
  }

  lemma PicksStep(info: map<int, AddrInfo>, random: seq<int>, n: nat, e: AddrInfo, rules: NetRules, network: Wanted,
                  now: int)
    requires n < |random| && Live(info, random[..n]) && random[n] in info && SameEntry(info[random[n]], e)
    ensures Live(info, random[..n + 1])
    ensures Picks(info, random[..n + 1], rules, network, now) ==
            if Eligible(e, rules, network, now) then Picks(info, random[..n], rules, network, now) + [AsAddress(e)]
            else Picks(info, random[..n], rules, network, now)
  {
    assert random[..n + 1][..n] == random[..n];
  }

  ghost predicate PickedAt(info: map<int, AddrInfo>, ids: seq<int>, rules: NetRules, network: Wanted, now: int,
                           a: Address, i: int)
    requires Live(info, ids)
  {
    0 <= i < |ids| && Eligible(info[ids[i]], rules, network, now) && AsAddress(info[ids[i]]) == a
  }

  lemma {:induction false} PicksFrom(info: map<int, AddrInfo>, ids: seq<int>, rules: NetRules, network: Wanted,
                                     now: int, a: Address)
    requires Live(info, ids)
    ensures a in Picks(info, ids, rules, network, now) <==> exists i :: PickedAt(info, ids, rules, network, now, a, i)
  {
    if ids != [] {
      var most, last := ids[..|ids| - 1], |ids| - 1;
      PicksFrom(info, most, rules, network, now, a);
      if a in Picks(info, ids, rules, network, now) {
        if a in Picks(info, most, rules, network, now) {
          var i :| PickedAt(info, most, rules, network, now, a, i);
          assert PickedAt(info, ids, rules, network, now, a, i);
        } else {
          assert PickedAt(info, ids, rules, network, now, a, last);
        }
      }
      if i :| PickedAt(info, ids, rules, network, now, a, i) {
        assert i != last ==> PickedAt(info, most, rules, network, now, a, i);
      }
    }
  }

  /** Distinct ids of a book give distinct addresses. */
  lemma {:induction false} PicksDistinct(info: map<int, AddrInfo>, addrs: map<Service, int>, ids: seq<int>,
                                         rules: NetRules, network: Wanted, now: int)
    requires Live(info, ids) && AddrsOk(info, addrs) && forall i, j :: 0 <= i < j < |ids| ==> ids[i] != ids[j]
    ensures Distinct(Picks(info, ids, rules, network, now))
  {
    if ids != [] {
      var most, id := ids[..|ids| - 1], ids[|ids| - 1];
      PicksDistinct(info, addrs, most, rules, network, now);
      var r := Picks(info, most, rules, network, now);
      forall i | 0 <= i < |r| ensures r[i].service != info[id].addr {
        PicksFrom(info, most, rules, network, now, r[i]);
        var k :| PickedAt(info, most, rules, network, now, r[i], k);
        assert Indexed(info, addrs, id) && Indexed(info, addrs, ids[k]);
      }
    }
  }

  /** Places in vRandom do not matter for what the ids offer. */
  lemma PicksMean(info: map<int, AddrInfo>, shuffled: map<int, AddrInfo>, addrs: map<Service, int>, random: seq<int>,
                  n: nat,
                  rules: NetRules, network: Wanted, now: int)
    requires AddrsOk(info, addrs) && info.Keys == shuffled.Keys && RandomOk(shuffled, random) && n <= |random|
    requires Live(info, random[..n])
    ensures var r := Picks(info, random[..n], rules, network, now);
            && Distinct(r) && AllOffered(info, rules, network, now, r)
            && (n == |random| ==> Exhausted(info, rules, network, now, r))
  {
    var ids := random[..n];
    forall i, j | 0 <= i < j < n ensures ids[i] != ids[j] {
      assert Listed(shuffled, random, i) && Listed(shuffled, random, j);
    }
    PicksDistinct(info, addrs, ids, rules, network, now);
    var r := Picks(info, ids, rules, network, now);
    forall a | a in r ensures Offered(info, rules, network, now, a) {
      PicksFrom(info, ids, rules, network, now, a);
      var i :| PickedAt(info, ids, rules, network, now, a, i);
      assert ids[i] in info;
    }
    if n == |random| {
      forall a | Offered(info, rules, network, now, a) ensures a in r {
        var id :| id in info && Eligible(info[id], rules, network, now) && AsAddress(info[id]) == a;
        assert Placed(shuffled, random, id);
        assert PickedAt(info, ids, rules, network, now, a, shuffled[id].randomPos);
        PicksFrom(info, ids, rules, network, now, a);
      }
    }
  }

  /** Step i of Add. */
  ghost predicate AddedAt(rules: NetRules, trace: seq<Book>, added: seq<bool>, announced: seq<Address>, source: Source,
                          penalty: int, clock: nat -> (int, int), draws: nat -> nat, i: nat) {
    && i + 1 < |trace| && i < |added| && i < |announced| && Shape(trace[i].newTable, NEW_BUCKETS)
    && AddStep(rules, trace[i], trace[i + 1], announced[i], source, penalty, clock(i).0, clock(i).1, draws(i), added[i])
  }

  lemma AddedOneMore(rules: NetRules, trace: seq<Book>, added: seq<bool>, announced: seq<Address>, source: Source,
                     penalty: int, clock: nat -> (int, int), draws: nat -> nat, s: Book, one: bool)
    requires |trace| == |added| + 1 && |added| < |announced| && Shape(trace[|added|].newTable, NEW_BUCKETS)
    requires forall k {:trigger AddedAt(rules, trace, added, announced, source, penalty, clock, draws, k)} ::
               0 <= k < |added| ==> AddedAt(rules, trace, added, announced, source, penalty, clock, draws, k)
    requires var i := |added|;
             AddStep(rules, trace[i], s, announced[i], source, penalty, clock(i).0, clock(i).1, draws(i), one)
    ensures var trace', added' := trace + [s], added + [one];
            forall k {:trigger AddedAt(rules, trace', added', announced, source, penalty, clock, draws, k)} ::
              0 <= k <= |added| ==> AddedAt(rules, trace', added', announced, source, penalty, clock, draws, k)
  {
    forall k: nat | k <= |added|
      ensures AddedAt(rules, trace + [s], added + [one], announced, source, penalty, clock, draws, k)
    {
      if k < |added| {
        assert AddedAt(rules, trace, added, announced, source, penalty, clock, draws, k);
      }
    }
  }

  ghost predicate Ascending(ids: seq<int>) {
    forall i, j :: 0 <= i < j < |ids| ==> ids[i] < ids[j]
  }

  /** Step i of ResolveCollisions. */
  ghost predicate ResolvedAt(valid: Service -> bool, trace: seq<Book>, ids: seq<int>, clock: int -> int, i: nat) {
    && i + 1 < |trace| && i < |ids|
    && Shape(trace[i].triedTable, TRIED_BUCKETS) && Shape(trace[i].newTable, NEW_BUCKETS)
    && ResolveStep(valid, trace[i], trace[i + 1], ids[i], clock(ids[i]))
  }

  /** The books from s to s', one step for each id. */
  ghost predicate ResolveTrace(valid: Service -> bool, trace: seq<Book>, ids: seq<int>, clock: int -> int, s: Book,
                               s': Book) {
    && |trace| == |ids| + 1 && trace[0] == s && trace[|ids|] == s'
    && forall i: nat {:trigger ResolvedAt(valid, trace, ids, clock, i)} ::
         i < |ids| ==> ResolvedAt(valid, trace, ids, clock, i)
  }

  lemma ResolveOneMore(valid: Service -> bool, trace: seq<Book>, ids: seq<int>, clock: int -> int, s: Book, s': Book,
                       s'': Book, id: int)
    requires ResolveTrace(valid, trace, ids, clock, s, s')
    requires Shape(s'.triedTable, TRIED_BUCKETS) && Shape(s'.newTable, NEW_BUCKETS)
    requires ResolveStep(valid, s', s'', id, clock(id))
    ensures ResolveTrace(valid, trace + [s''], ids + [id], clock, s, s'')
  {
    forall i: nat | i <= |ids| ensures ResolvedAt(valid, trace + [s''], ids + [id], clock, i) {
      if i < |ids| {
        assert ResolvedAt(valid, trace, ids, clock, i);
      }
    }
  }

  /** Some ids of a set, in order, and the larger ones still pending. */
  ghost predicate InOrder(all: set<int>, ids: seq<int>, pending: set<int>) {
    && Ascending(ids) && (forall id :: id in all <==> id in ids || id in pending)
    && forall i, id :: 0 <= i < |ids| && id in pending ==> ids[i] < id
  }

  lemma InOrderStep(all: set<int>, ids: seq<int>, pending: set<int>, id: int)
    requires InOrder(all, ids, pending) && id in pending && forall j :: j in pending ==> id <= j
    ensures InOrder(all, ids + [id], pending - {id})
  {
  }

  /** How many addresses a request may get at most. */
  function Limit(size: nat, maxAddresses: nat, maxPct: nat): nat {
    var share := if maxPct != 0 then maxPct * size / 100 else size;
    if maxAddresses != 0 && maxAddresses < share then maxAddresses else share
  }

  /** Anything the node may ask of its address manager. */
  datatype Operation =
    | Announce(announced: seq<Address>, source: Source, penalty: int, ticks: nat -> (int, int), luck: nat -> nat)
    | Succeed(a: Service, testBeforeEvict: bool, time: int)
    | Try(a: Service, countFailure: bool, time: int)
    | Touch(a: Service, time: int)
    | Serve(a: Service, services: nat)
    | Resolve(clock: int -> int)
    | Select
    | Hand(most: nat, pct: nat, network: Wanted, now: int, draws: nat -> nat)
  {
    /** Clock readings lie after the epoch, where the manager's own check asks for that. */
    ghost predicate Timely() {
      match this
      case Succeed(_, _, t) => t > 0
      case Try(_, _, t) => t >= 0
      case Resolve(c) => forall id :: c(id) > 0
      case _ => true
    }
  }

  class AddrMan {
    const hash: Hash
    const rules: NetRules
    var idCount: int
    var info: map<int, AddrInfo>
    var addrs: map<Service, int>
    var random: seq<int>
    var nNew: int
    var nTried: int
    var newTable: Table
    var triedTable: Table
    var nets: map<nat, Counts>
    var collisions: set<int>
    var lastGood: int

    ghost function State(): Book
      reads this
    {
      Book(hash, idCount, info, addrs, random, nNew, nTried, newTable, triedTable, nets, collisions)
    }

    // ----- Elementary operations -----

    method Find(a: Service) returns (found: bool, id: int)
      requires AddrsOk(info, addrs)
      ensures found <==> exists j :: j in info && info[j].addr == a
      ensures found <==> a in addrs
      ensures found ==> id == addrs[a] && id in info && info[id].addr == a
    {
      found, id := false, EMPTY;
      if a in addrs {
        id := addrs[a];
        assert Resolves(info, addrs, a);
        found := id in info;
      }
      forall j | j in info && info[j].addr == a ensures a in addrs {
        assert Indexed(info, addrs, j);
      }
    }

    method Create(a: Address, source: Source) returns (id: int)
      requires Inv(State(), {}, {}) && a.service !in addrs
      modifies this
      ensures id == old(idCount)
      ensures State() == Created(old(State()), a.service, source, a.time, a.services) && lastGood == old(lastGood)
      ensures Inv(State(), {id}, {}) && Evolves(old(State()), State())
    {
      CreatedKeeps(State(), a.service, source, a.time, a.services);
      id := idCount;
      idCount := idCount + 1;
      info := info[id := AddrInfo(a.service, source, a.time, a.services, 0, 0, 0, 0, 0, false, |random|)];
      addrs := addrs[a.service := id];
      random := random + [id];
      nNew := nNew + 1;
      nets := Bumped(nets, a.service.net, 1, 0);
    }

    method SwapRandom(i: nat, j: nat, ghost limbo: set<int>, ghost uncounted: set<int>)
      requires Inv(State(), limbo, uncounted) && i < |random| && j < |random|
      modifies `info, `random
      ensures old(random[i]) in old(info) && old(random[j]) in old(info)
      ensures State() == Swapped(old(State()), i, j) && lastGood == old(lastGood)
      ensures Inv(State(), limbo, uncounted)
    {
      SwappedKeeps(State(), i, j, limbo, uncounted);
      if i == j {
        return;
      }
      var id1, id2 := random[i], random[j];
      info := info[id1 := info[id1].(randomPos := j)];
      info := info[id2 := info[id2].(randomPos := i)];
      random := random[i := id2];
      random := random[j := id1];
    }

    method Delete(id: int, ghost limbo: set<int>, ghost uncounted: set<int>)
      requires Inv(State(), limbo, uncounted) && id !in uncounted
      requires id in info && !info[id].inTried && info[id].refCount == 0
      modifies this
      ensures State() == old(State()).(info := info, addrs := addrs, random := random, nNew := nNew, nets := nets)
      ensures lastGood == old(lastGood) && Inv(State(), limbo, uncounted)
      ensures info.Keys == old(info.Keys) - {id} && forall j :: j in info ==> SameEntry(old(info)[j], info[j])
    {
      assert Placed(info, random, id);
      SwappedSame(State(), info[id].randomPos, |random| - 1);
      SwapRandom(info[id].randomPos, |random| - 1, limbo, uncounted);
      DropLast(id, limbo, uncounted);
    }

    /** The rest of Delete, once the entry stands last in vRandom. */
    method DropLast(id: int, ghost limbo: set<int>, ghost uncounted: set<int>)
      requires Inv(State(), limbo, uncounted) && id !in uncounted && random != []
      requires id in info && !info[id].inTried && info[id].refCount == 0 && info[id].randomPos == |random| - 1
      modifies this
      ensures State() == DeletedLast(old(State()), id) && lastGood == old(lastGood)
      ensures Inv(State(), limbo, uncounted)
    {
      DeletedLastKeeps(State(), id, limbo, uncounted);
      nets := Bumped(nets, info[id].addr.net, -1, 0);
      random := random[..|random| - 1];
      addrs := addrs - {info[id].addr};
      info := info - {id};
      nNew := nNew - 1;
    }

    /** Empties a slot of the new table; an entry without other slots goes. */
    method ClearNew(b: nat, p: nat, ghost limbo: set<int>, ghost uncounted: set<int>)
      requires Inv(State(), limbo, uncounted) && InTable(b, p, NEW_BUCKETS) && newTable[b][p] !in uncounted
      modifies this
      ensures Inv(State(), limbo, uncounted)
      ensures State() == old(State()).(newTable := newTable, info := info, addrs := addrs, random := random,
                                       nNew := nNew, nets := nets)
      ensures newTable == Put(old(newTable), b, p, EMPTY) && lastGood == old(lastGood)
      ensures info.Keys == old(info.Keys) - Orphan(old(State()), b, p)
      ensures forall j :: j in info ==> if j == old(newTable[b][p])
                then SameEntry(old(info)[j].(refCount := old(info)[j].refCount - 1), info[j])
                else SameEntry(old(info)[j], info[j])
    {
      var id := newTable[b][p];
      if id == EMPTY {
        PutSame(newTable, b, p);
        return;
      }
      UnslottedKeeps(State(), b, p, limbo, uncounted);
      info := info[id := info[id].(refCount := info[id].refCount - 1)];
      newTable := Put(newTable, b, p, EMPTY);
      if info[id].refCount == 0 {
        Delete(id, limbo + {id}, uncounted);
      }
    }

    // ----- Moving an entry into the tried table -----

    /** Removes an entry from one new bucket, if it is there. */
    method UnlistAt(id: int, b: nat, ghost t: Table) returns (found: bool)
      requires Inv(State(), {id}, {}) && id in info && b < NEW_BUCKETS
      requires Shape(t, NEW_BUCKETS) && Emptied(t, newTable, id, NEW_BUCKETS)
      modifies `info, `newTable
      ensures Inv(State(), {id}, {}) && id in info
      ensures info == old(info)[id := old(info)[id].(refCount := info[id].refCount)]
      ensures Emptied(t, newTable, id, NEW_BUCKETS) && Emptied(old(newTable), newTable, id, NEW_BUCKETS)
      ensures b !in Holding(hash, newTable, id, info[id].addr)
    {
      var p := Position(hash, true, b, info[id].addr);
      found := newTable[b][p] == id;
      if found {
        UnslottedKeeps(State(), b, p, {id}, {});
        EmptiedOne(t, newTable, id, b, p);
        newTable := Put(newTable, b, p, EMPTY);
        info := info[id := info[id].(refCount := info[id].refCount - 1)];
        assert {id} + {id} == {id};
      }
    }

    /** Removes an entry from all new buckets, starting from its own. */
    method Unlist(id: int)
      requires Inv(State(), {}, {}) && id in info && !info[id].inTried
      modifies `info, `newTable
      ensures Inv(State(), {id}, {})
      ensures info == old(info)[id := old(info)[id].(refCount := 0)] && newTable == Without(old(newTable), id)
    {
      var a := info[id].addr;
      var start := NewBucket(hash, a, info[id].source);
      var n := 0;
      while n < NEW_BUCKETS
        invariant Inv(State(), {id}, {}) && id in info && 0 <= n <= NEW_BUCKETS
        invariant info == old(info)[id := old(info)[id].(refCount := info[id].refCount)]
        invariant Emptied(old(newTable), newTable, id, NEW_BUCKETS)
        invariant Swept(hash, newTable, id, a, start, n)
      {
        ghost var before := newTable;
        var found := UnlistAt(id, (start + n) % NEW_BUCKETS, old(newTable));
        if found && info[id].refCount == 0 {
          break;
        }
        SweptStep(hash, before, newTable, id, a, start, n);
        n := n + 1;
      }
      UnlistDone(hash, info, old(newTable), newTable, id, start);
    }

    /** Takes the entry in a tried slot out of the tried table. */
    method Demote(b: nat, p: nat, ghost limbo: set<int>, ghost uncounted: set<int>) returns (id: int)
      requires Inv(State(), limbo, uncounted) && InTable(b, p, TRIED_BUCKETS) && triedTable[b][p] != EMPTY
      requires triedTable[b][p] !in uncounted
      modifies `info, `triedTable, `nTried, `nets
      ensures id == old(triedTable[b][p]) && id in old(info) && old(info)[id].refCount == 0
      ensures State() == Demoted(old(State()), b, p) && Inv(State(), limbo + {id}, uncounted + {id})
    {
      DemotedKeeps(State(), b, p, limbo, uncounted);
      id := triedTable[b][p];
      info := info[id := info[id].(inTried := false)];
      triedTable := Put(triedTable, b, p, EMPTY);
      nTried := nTried - 1;
      nets := Bumped(nets, info[id].addr.net, 0, -1);
    }

    /** Enters an unreferenced entry into an empty slot of the new table. */
    method Relist(id: int, b: nat, ghost limbo: set<int>, ghost uncounted: set<int>)
      requires Inv(State(), limbo, uncounted) && b < NEW_BUCKETS && id in info && id in uncounted
      requires !info[id].inTried && info[id].refCount == 0
      requires newTable[b][Position(hash, true, b, info[id].addr)] == EMPTY
      modifies `info, `newTable, `nNew, `nets
      ensures Inv(State(), limbo - {id}, uncounted - {id})
      ensures info == old(info)[id := old(info)[id].(refCount := 1)]
      ensures newTable == Put(old(newTable), b, Position(hash, true, b, info[id].addr), id)
    {
      SlottedKeeps(State(), b, id, limbo, uncounted);
      CountedKeeps(Slotted(State(), b, id), id, limbo - {id}, uncounted);
      info := info[id := info[id].(refCount := 1)];
      newTable := Put(newTable, b, Position(hash, true, b, info[id].addr), id);
      nNew := nNew + 1;
      nets := Bumped(nets, info[id].addr.net, 1, 0);
    }

    /** Puts an evicted entry into its own new bucket, deleting what is there. */
    method Reenter(id: int, ghost other: int)
      requires Inv(State(), {other} + {id}, {other} + {id}) && id != other
      requires id in info && !info[id].inTried && info[id].refCount == 0
      requires other in info && info[other].refCount == 0
      modifies this
      ensures Inv(State(), {other}, {other})
      ensures State() == old(State()).(newTable := newTable, info := info, addrs := addrs, random := random,
                                       nNew := nNew, nets := nets)
      ensures newTable == Reentered(old(newTable), hash, old(info)[id], id) && lastGood == old(lastGood)
      ensures info.Keys <= old(info.Keys) && Kept(old(State()), State(), {})
      ensures other in info && SameEntry(old(info)[other], info[other])
    {
      var b := NewBucket(hash, info[id].addr, info[id].source);
      var p := Position(hash, true, b, info[id].addr);
      NewWithout(hash, info, newTable, id);
      NewWithout(hash, info, newTable, other);
      assert InTable(b, p, NEW_BUCKETS);
      PutTwice(newTable, b, p, EMPTY, id);
      ClearNew(b, p, {other} + {id}, {other} + {id});
      assert {other} + {id} - {id} == {other};
      Relist(id, b, {other} + {id}, {other} + {id});
    }

    /** Moves the entry in a tried slot back to its own new bucket. */
    method Evict(b: nat, p: nat, ghost other: int)
      requires Inv(State(), {other}, {other}) && InTable(b, p, TRIED_BUCKETS) && triedTable[b][p] != EMPTY
      requires other in info && !info[other].inTried && info[other].refCount == 0
      modifies this
      ensures Inv(State(), {other}, {other}) && old(triedTable[b][p]) in old(info)
      ensures triedTable == Put(old(triedTable), b, p, EMPTY)
      ensures newTable == Reentered(old(newTable), hash, old(info)[old(triedTable[b][p])], old(triedTable[b][p]))
      ensures info.Keys <= old(info.Keys) && Kept(old(State()), State(), {})
      ensures other in info && SameEntry(old(info)[other], info[other])
      ensures idCount == old(idCount) && collisions == old(collisions) && lastGood == old(lastGood)
    {
      assert TriedSlotOk(hash, info, triedTable, b, p);
      var id := Demote(b, p, {other}, {other});
      Reenter(id, other);
    }

    /** Takes an entry that lost its new slots out of the counters. */
    method Withdraw(id: int)
      requires Inv(State(), {id}, {}) && id in info && !info[id].inTried
      modifies `nNew, `nets
      ensures Inv(State(), {id}, {id})
    {
      WithdrawnKeeps(State(), id, {id}, {});
      nNew := nNew - 1;
      nets := Bumped(nets, info[id].addr.net, -1, 0);
      assert {} + {id} == {id};
    }

    /** Puts an entry into its free tried slot. */
    method Promote(id: int)
      requires Inv(State(), {id}, {id}) && id in info && !info[id].inTried
      requires info[id].refCount == 0
      requires TriedSlot(hash, triedTable, info[id].addr) == EMPTY
      modifies `triedTable, `nTried, `info, `nets
      ensures Inv(State(), {}, {}) && info == old(info)[id := old(info)[id].(inTried := true)]
      ensures var b := TriedBucket(hash, info[id].addr);
              triedTable == Put(old(triedTable), b, Position(hash, false, b, info[id].addr), id)
    {
      PromotedKeeps(State(), id, {id}, {id});
      assert {id} - {id} == {};
      var b := TriedBucket(hash, info[id].addr);
      triedTable := Put(triedTable, b, Position(hash, false, b, info[id].addr), id);
      nTried := nTried + 1;
      info := info[id := info[id].(inTried := true)];
      nets := Bumped(nets, info[id].addr.net, 0, 1);
    }

    /** Frees the tried slot of an entry on its way there. */
    method MakeRoom(id: int)
      requires Inv(State(), {id}, {id}) && id in info && !info[id].inTried && info[id].refCount == 0
      modifies this
      ensures Inv(State(), {id}, {id}) && id in info && SameEntry(old(info)[id], info[id])
      ensures TriedSlot(hash, triedTable, info[id].addr) == EMPTY
      ensures Tried(State(), id) == Tried(old(State()), id)
      ensures newTable == Reshuffled(old(State()), id, old(newTable))
      ensures info.Keys <= old(info.Keys) && Kept(old(State()), State(), {})
      ensures idCount == old(idCount) && collisions == old(collisions) && lastGood == old(lastGood)
    {
      var b := TriedBucket(hash, info[id].addr);
      var p := Position(hash, false, b, info[id].addr);
      assert InTable(b, p, TRIED_BUCKETS);
      assert TriedSlotOk(hash, info, triedTable, b, p);
      PutTwice(triedTable, b, p, EMPTY, id);
      if triedTable[b][p] != EMPTY {
        Evict(b, p, id);
      }
    }

    /** Takes an entry out of the new table altogether. */
    method LeaveNew(id: int)
      requires Inv(State(), {}, {}) && id in info && !info[id].inTried
      modifies `info, `newTable, `nNew, `nets
      ensures Inv(State(), {id}, {id})
      ensures info == old(info)[id := old(info)[id].(refCount := 0)] && newTable == Without(old(newTable), id)
    {
      Unlist(id);
      Withdraw(id);
    }

    /** Moves an entry to the tried table. The entry in its way goes back to the
        new table, and that may in turn delete the entry in its way. */
    method MakeTried(id: int)
      requires Inv(State(), {}, {}) && id in info && !info[id].inTried
      modifies this
      ensures Inv(State(), {}, {}) && id in info
      ensures triedTable == Tried(old(State()), id)
      ensures newTable == Reshuffled(old(State()), id, Without(old(newTable), id))
      ensures info.Keys <= old(info.Keys) && Kept(old(State()), State(), {})
      ensures idCount == old(idCount) && collisions == old(collisions) && lastGood == old(lastGood)
    {
      NotDisplaced(State(), id);
      LeaveNew(id);
      MakeRoom(id);
      Promote(id);
    }

    // ----- Operations -----

    /** Overwrites the statistics of an entry. */
    method Enter(id: int, e: AddrInfo)
      requires Consistent(State()) && id in info
      requires e == info[id].(time := e.time, services := e.services, lastTry := e.lastTry, lastCount := e.lastCount,
                              lastSuccess := e.lastSuccess, attempts := e.attempts)
      modifies `info
      ensures Consistent(State()) && Evolves(old(State()), State()) && info == old(info)[id := e]
    {
      EnteredKeeps(State(), id, e, {}, {});
      RandomKept(info, random, id, e);
      ghost var s := State();
      info := info[id := e];
      StillFacing(s, State());
    }

    method Attempt(a: Service, countFailure: bool, time: int)
      requires Consistent(State())
      modifies `info
      ensures Consistent(State()) && Evolves(old(State()), State())
      ensures a !in addrs ==> info == old(info)
      ensures a in addrs ==>
                && addrs[a] in old(info)
                && var e := old(info)[addrs[a]];
                var counted := countFailure && e.lastCount < lastGood;
                info == old(info)[addrs[a] := e.(lastTry := time, lastCount := if counted then time else e.lastCount,
                                                 attempts := e.attempts + if counted then 1 else 0)]
      ensures TimesOk(old(info)) ==> (TimesOk(info) <==> a !in addrs || time >= 0)
    {
      var found, id := Find(a);
      if found {
        var e := info[id].(lastTry := time);
        if countFailure && e.lastCount < lastGood {
          e := e.(lastCount := time, attempts := e.attempts + 1);
        }
        Enter(id, e);
      }
    }

    method Connected(a: Service, time: int)
      requires Consistent(State())
      modifies `info
      ensures Consistent(State()) && Evolves(old(State()), State())
      ensures forall id :: id in info <==> id in old(info)
      ensures forall id :: id in info ==>
                info[id] == old(info)[id].(time :=
                  if old(info)[id].addr == a && time - old(info)[id].time > 20 * MINUTE
                  then time else old(info)[id].time)
    {
      var found, id := Find(a);
      assert forall j :: j in info ==> Indexed(info, addrs, j);
      if found && time - info[id].time > 20 * MINUTE {
        Enter(id, info[id].(time := time));
      }
    }

    method SetServices(a: Service, services: nat)
      requires Consistent(State())
      modifies `info
      ensures Consistent(State()) && Evolves(old(State()), State())
      ensures forall id :: id in info <==> id in old(info)
      ensures forall id :: id in info ==>
                info[id] ==
                  old(info)[id].(services := if old(info)[id].addr == a then services else old(info)[id].services)
    {
      var found, id := Find(a);
      assert forall j :: j in info ==> Indexed(info, addrs, j);
      if found {
        Enter(id, info[id].(services := services));
      }
    }

    /** MakeTried between two consistent books. */
    method MoveToTried(id: int)
      requires Consistent(State()) && id in info && !info[id].inTried
      modifies this
      ensures Consistent(State()) && Evolves(old(State()), State()) && id in info
      ensures triedTable == Tried(old(State()), id)
      ensures newTable == Reshuffled(old(State()), id, Without(old(newTable), id))
      ensures Kept(old(State()), State(), {})
      ensures idCount == old(idCount) && collisions == old(collisions) && lastGood == old(lastGood)
    {
      ghost var s := State();
      MakeTried(id);
      StillFacing(s, State());
    }

    /** Remembers that moving an entry to the tried table would evict another. */
    method NoteCollision(id: int)
      requires Consistent(State()) && id in info && TriedSlot(hash, triedTable, info[id].addr) != EMPTY
      modifies `collisions
      ensures Consistent(State()) && Evolves(old(State()), State())
      ensures collisions == if |old(collisions)| < MAX_COLLISIONS then old(collisions) + {id} else old(collisions)
    {
      if |collisions| < MAX_COLLISIONS {
        collisions := collisions + {id};
      }
    }

    /** Whether or not the entry may move to the tried table now. */
    method TryMove(id: int, testBeforeEvict: bool) returns (moved: bool)
      requires Consistent(State()) && id in info
      modifies this
      ensures Consistent(State()) && Evolves(old(State()), State()) && lastGood == old(lastGood)
      ensures GoodDone(old(State()), State(), id, testBeforeEvict, old(info)[id], moved)
    {
      if info[id].inTried {
        return false;
      }
      assert info[id].refCount > 0;
      if testBeforeEvict && TriedSlot(hash, triedTable, info[id].addr) != EMPTY {
        NoteCollision(id);
        moved := false;
      } else {
        MoveToTried(id);
        moved := true;
      }
    }

    /** A successful connection to a known entry. */
    method GoodKnown(id: int, testBeforeEvict: bool, time: int) returns (moved: bool)
      requires Consistent(State()) && id in info
      modifies this
      ensures Consistent(State()) && Evolves(old(State()), State()) && lastGood == old(lastGood)
      ensures GoodDone(old(State()), State(), id, testBeforeEvict, Succeeded(old(info)[id], time), moved)
    {
      if !info[id].inTried {
        NotDisplaced(State(), id);
      }
      Enter(id, Succeeded(info[id], time));
      ghost var s := State();
      moved := TryMove(id, testBeforeEvict);
      EvolvesOn(old(State()), s, State());
      GoodAfter(old(State()), State(), id, testBeforeEvict, Succeeded(old(info)[id], time), moved);
    }

    method Good(a: Service, testBeforeEvict: bool, time: int) returns (moved: bool)
      requires Consistent(State())
      modifies this
      ensures Consistent(State()) && Evolves(old(State()), State()) && lastGood == time
      ensures a !in old(addrs) ==> !moved && State() == old(State())
      ensures a in old(addrs) ==> old(addrs)[a] in old(info)
      ensures a in old(addrs) ==> GoodDone(old(State()), State(), old(addrs)[a], testBeforeEvict,
                                           Succeeded(old(info)[old(addrs)[a]], time), moved)
      ensures a in old(addrs) ==>
                var id := old(addrs)[a];
                && id in info && info[id].lastSuccess == info[id].lastTry == time && info[id].attempts == 0
                && info[id].time == old(info)[id].time && info[id].services == old(info)[id].services
                && info[id].lastCount == old(info)[id].lastCount && info[id].source == old(info)[id].source
      ensures TimesOk(old(info)) ==>
                (TimesOk(info) <==>
                 a !in old(addrs) || time > 0 || (time == 0 && !moved && !old(info)[old(addrs)[a]].inTried))
    {
      lastGood := time;
      var found, id := Find(a);
      if !found {
        return false;
      }
      moved := GoodKnown(id, testBeforeEvict, time);
      if TimesOk(old(info)) {
        GoodTimes(old(State()), State(), id, testBeforeEvict, time, moved);
      }
    }

    // ----- Adding addresses -----

    /** Puts an entry into its free slot of a new bucket. */
    method Fill(id: int, b: nat, ghost limbo: set<int>)
      requires Inv(State(), limbo, {}) && limbo <= {id} && b < NEW_BUCKETS && id in info
      requires !info[id].inTried && info[id].refCount < MAX_REFERENCES
      requires newTable[b][Position(hash, true, b, info[id].addr)] == EMPTY
      modifies `info, `newTable
      ensures Inv(State(), {}, {})
      ensures info == old(info)[id := old(info)[id].(refCount := old(info)[id].refCount + 1)]
      ensures newTable == Put(old(newTable), b, Position(hash, true, b, info[id].addr), id)
    {
      SlottedKeeps(State(), b, id, limbo, {});
      assert limbo - {id} == {};
      newTable := Put(newTable, b, Position(hash, true, b, info[id].addr), id);
      info := info[id := info[id].(refCount := info[id].refCount + 1)];
    }

    /** Puts an entry into its slot of a new bucket, clearing the slot first. */
    method Insert(id: int, b: nat, ghost limbo: set<int>)
      requires Inv(State(), limbo, {}) && limbo <= {id} && b < NEW_BUCKETS && id in info
      requires !info[id].inTried && info[id].refCount < MAX_REFERENCES
      requires newTable[b][Position(hash, true, b, info[id].addr)] != id
      modifies this
      ensures Inv(State(), {}, {}) && id in info
      ensures State() == old(State()).(newTable := newTable, info := info, addrs := addrs, random := random,
                                       nNew := nNew, nets := nets)
      ensures newTable == Put(old(newTable), b, Position(hash, true, b, info[id].addr), id)
      ensures info.Keys <= old(info.Keys) && Kept(old(State()), State(), {}) && lastGood == old(lastGood)
    {
      var p := Position(hash, true, b, info[id].addr);
      PutTwice(newTable, b, p, EMPTY, id);
      ClearNew(b, p, limbo, {});
      Fill(id, b, limbo);
    }

    /** Lists an entry under a source, if its slot there is free or gives way. */
    method Place(id: int, source: Source, now: int, ghost limbo: set<int>) returns (added: bool)
      requires Inv(State(), limbo, {}) && limbo <= {id} && id in info && (info[id].refCount > 0 ==> limbo == {})
      requires !info[id].inTried && info[id].refCount < MAX_REFERENCES
      modifies this
      ensures Inv(State(), {}, {})
      ensures State() == old(State()).(newTable := newTable, info := info, addrs := addrs, random := random,
                                       nNew := nNew, nets := nets)
      ensures added <==> GivesWay(old(State()), id, old(info)[id], source, now)
      ensures newTable == if added then Relisted(old(State()), id, old(info)[id].addr, source) else old(newTable)
      ensures id in info <==> added || old(info)[id].refCount > 0
      ensures info.Keys <= old(info.Keys) && Kept(old(State()), State(), {}) && lastGood == old(lastGood)
    {
      var b := NewBucket(hash, info[id].addr, source);
      var p := Position(hash, true, b, info[id].addr);
      assert InTable(b, p, NEW_BUCKETS);
      assert NewSlotOk(hash, info, newTable, b, p) && NewEntryOk(hash, info, newTable, id);
      added := newTable[b][p] == EMPTY;
      if newTable[b][p] != id {
        if !added {
          var existing := info[newTable[b][p]];
          added := IsTerrible(existing, now) || (existing.refCount > 1 && info[id].refCount == 0);
        }
        if added {
          Insert(id, b, limbo);
        } else if info[id].refCount == 0 {
          Delete(id, limbo, {});
        }
      } else {
        NewUnslotted(hash, info, newTable, b, p);
      }
    }

    /** Lists a known entry under another source. */
    method PlaceKnown(id: int, source: Source, now: int) returns (added: bool)
      requires Consistent(State()) && id in info && !info[id].inTried && info[id].refCount < MAX_REFERENCES
      modifies this
      ensures Consistent(State()) && Evolves(old(State()), State()) && lastGood == old(lastGood)
      ensures AddDone(old(State()), State(), id, old(info)[id], source, now, true, added) && id in info
      ensures idCount == old(idCount)
    {
      ghost var s := State();
      added := Place(id, source, now, {});
      StillFacing(s, State());
    }

    /** An announcement of an address that is already known. */
    method AddKnown(id: int, a: Address, source: Source, penalty: int, now: int, later: int, draw: nat)
      returns (added: bool)
      requires Consistent(State()) && id in info && info[id].addr == a.service
      modifies this
      ensures Consistent(State()) && Evolves(old(State()), State()) && lastGood == old(lastGood)
      ensures var e := Refreshed(old(info)[id], a, penalty, now);
              AddDone(old(State()), State(), id, e, source, later, Admits(e, a, draw), added)
      ensures id in info && idCount == old(idCount)
    {
      ghost var s := State();
      Enter(id, Refreshed(info[id], a, penalty, now));
      ghost var s1 := State();
      assert NewEntryOk(hash, info, newTable, id);
      if !Admits(info[id], a, draw) {
        return false;
      }
      added := PlaceKnown(id, source, later);
      EvolvesOn(s, s1, State());
      AddAfter(s, State(), id, Refreshed(s.info[id], a, penalty, now), source, later, added);
    }

    /** An announcement of an address that is not known yet. */
    method AddUnknown(a: Address, source: Source, penalty: int, later: int) returns (added: bool)
      requires Consistent(State()) && a.service !in addrs
      modifies this
      ensures Consistent(State()) && Evolves(old(State()), State()) && lastGood == old(lastGood)
      ensures AddDone(old(State()), State(), old(idCount), FirstRecord(a, source, penalty), source, later, true, added)
      ensures old(idCount) in info <==> added
      ensures idCount == old(idCount) + 1
    {
      ghost var s := State();
      var id := Create(a.(time := Max(0, a.time - penalty)), source);
      ghost var s1 := State();
      added := Place(id, source, later, {id});
      EvolvesOn(s, s1, State());
      StillFacing(s, State());
      AddFresh(s, s1, State(), a, source, penalty, later, added);
    }

    /** Handles one announced address. */
    method AddSingle(a: Address, source: Source, penalty: int, now: int, later: int, draw: nat) returns (added: bool)
      requires Consistent(State())
      modifies this
      ensures Consistent(State()) && Evolves(old(State()), State()) && lastGood == old(lastGood)
      ensures AddStep(rules, old(State()), State(), a, source, penalty, now, later, draw, added)
    {
      if !rules.routable(a.service) {
        return false;
      }
      var found, id := Find(a.service);
      if found {
        added := AddKnown(id, a, source, Penalty(a, source, penalty), now, later, draw);
      } else {
        added := AddUnknown(a, source, Penalty(a, source, penalty), later);
      }
    }

    /** Handles announced addresses one by one. `trace` holds the books in between, `added`
        whether each address got a slot. */
    method Add(announced: seq<Address>, source: Source, penalty: int, clock: nat -> (int, int), draws: nat -> nat)
      returns (any: bool, ghost trace: seq<Book>, ghost added: seq<bool>)
      requires Consistent(State())
      modifies this
      ensures Consistent(State()) && Evolves(old(State()), State())
      ensures |added| == |announced| && |trace| == |announced| + 1 && trace[0] == old(State())
      ensures trace[|announced|] == State()
      ensures forall i {:trigger AddedAt(rules, trace, added, announced, source, penalty, clock, draws, i)} ::
                0 <= i < |announced| ==> AddedAt(rules, trace, added, announced, source, penalty, clock, draws, i)
      ensures any <==> true in added
      ensures triedTable == old(triedTable) && collisions == old(collisions) && lastGood == old(lastGood)
      ensures !any ==> newTable == old(newTable)
      ensures TimesOk(old(info)) ==> TimesOk(info)
    {
      var count := 0;
      trace, added := [State()], [];
      for i := 0 to |announced|
        invariant Consistent(State()) && Evolves(old(State()), State()) && 0 <= count
        invariant |added| == i && |trace| == i + 1 && trace[0] == old(State()) && trace[i] == State()
        invariant forall k {:trigger AddedAt(rules, trace, added, announced, source, penalty, clock, draws, k)} ::
                    0 <= k < i ==> AddedAt(rules, trace, added, announced, source, penalty, clock, draws, k)
        invariant count > 0 <==> true in added
        invariant triedTable == old(triedTable) && collisions == old(collisions) && lastGood == old(lastGood)
        invariant count == 0 ==> newTable == old(newTable)
        invariant TimesOk(old(info)) ==> TimesOk(info)
      {
        ghost var s := State();
        var one := AddSingle(announced[i], source, penalty, clock(i).0, clock(i).1, draws(i));
        EvolvesOn(old(State()), s, State());
        if TimesOk(s.info) {
          AddTimes(rules, s, State(), announced[i], source, penalty, clock(i).0, clock(i).1, draws(i), one);
        }
        AddedOneMore(rules, trace, added, announced, source, penalty, clock, draws, State(), one);
        trace, added := trace + [State()], added + [one];
        count := count + (if one then 1 else 0);
      }
      any := count > 0;
    }

    // ----- Tried collisions -----

    /** Settles one pending collision; the tried slot is never found empty. */
    method ResolveOne(id: int, now: int)
      requires Consistent(State()) && id in collisions
      modifies this
      ensures Consistent(State()) && Evolves(old(State()), State())
      ensures ResolveStep(rules.valid, old(State()), State(), id, now)
      ensures collisions == old(collisions) || collisions == old(collisions) - {id}
      ensures TimesOk(old(info)) ==>
              (TimesOk(info) <==> Judge(old(State()), rules.valid, id, now) != Replace || now > 0)
    {
      var erase := false;
      var replace := false;
      if id !in info || !rules.valid(info[id].addr) {
        erase := true;
      } else {
        var b := TriedBucket(hash, info[id].addr);
        var p := Position(hash, false, b, info[id].addr);
        assert InTable(b, p, TRIED_BUCKETS) && TriedSlotOk(hash, info, triedTable, b, p);
        if triedTable[b][p] != EMPTY {
          var tested := info[triedTable[b][p]];
          if now - tested.lastSuccess < REPLACEMENT {
            erase := true;
          } else if now - tested.lastTry < REPLACEMENT {
            replace := now - tested.lastTry > 60;
          } else {
            replace := now - info[id].lastSuccess > TEST_WINDOW;
          }
        } else {
          assert false;
        }
      }
      if replace {
        assert Indexed(info, addrs, id);
        var moved := Good(info[id].addr, false, now);
        erase := true;
      }
      if erase {
        collisions := collisions - {id};
      }
    }

    /** Settles the pending collisions in the order of their ids. `trace` holds the books in between. */
    method ResolveCollisions(clock: int -> int) returns (ghost ids: seq<int>, ghost trace: seq<Book>)
      requires Consistent(State())
      modifies this
      ensures Consistent(State()) && Evolves(old(State()), State())
      ensures Ascending(ids) && forall id :: id in ids <==> id in old(collisions)
      ensures ResolveTrace(rules.valid, trace, ids, clock, old(State()), State())
      ensures collisions <= old(collisions)
      ensures forall j {:trigger Recent(old(info), old(collisions), clock, j)} ::
                Recent(old(info), old(collisions), clock, j) ==> j in info && info[j].inTried
      ensures TimesOk(old(info)) && (forall id :: id in old(collisions) ==> clock(id) > 0) ==> TimesOk(info)
    {
      var pending := collisions;
      ids, trace := [], [State()];
      ghost var timely := TimesOk(info) && forall id :: id in pending ==> clock(id) > 0;
      while |pending| > 0
        invariant Consistent(State()) && Evolves(old(State()), State())
        invariant pending <= collisions <= old(collisions) && InOrder(old(collisions), ids, pending)
        invariant ResolveTrace(rules.valid, trace, ids, clock, old(State()), State())
        invariant timely ==> TimesOk(info) && forall id :: id in pending ==> clock(id) > 0
        invariant RecentKept(old(State()), State(), clock)
        decreases |pending|
      {
        var id := LeastOf(pending);
        ghost var s := State();
        ResolveOne(id, clock(id));
        StillRecent(rules.valid, old(State()), s, State(), id, clock);
        EvolvesOn(old(State()), s, State());
        ResolveOneMore(rules.valid, trace, ids, clock, old(State()), s, State(), id);
        InOrderStep(old(collisions), ids, pending, id);
        ids, trace := ids + [id], trace + [State()];
        pending := pending - {id};
      }
    }

    /** Picks any pending collision and looks up the entry it would evict. */
    method SelectTriedCollision() returns (found: bool, id: int, tested: AddrInfo)
      requires Consistent(State())
      modifies `collisions
      ensures Consistent(State()) && Evolves(old(State()), State())
      ensures !found ==>
                || collisions == old(collisions) == {}
                || (id in old(collisions) && id !in info && collisions == old(collisions) - {id})
      ensures found ==> collisions == old(collisions) && id in collisions && id in info
      ensures found ==> var other := TriedSlot(hash, triedTable, info[id].addr);
                        other in info && info[other].inTried && tested == info[other]
    {
      var pending := collisions;
      if |pending| == 0 {
        found, id := false, EMPTY;
        tested := NoInfo();
        return;
      }
      Inhabited(pending);
      id :| id in pending;
      if id !in info {
        collisions := collisions - {id};
        found, tested := false, NoInfo();
        return;
      }
      var b := TriedBucket(hash, info[id].addr);
      var p := Position(hash, false, b, info[id].addr);
      assert InTable(b, p, TRIED_BUCKETS) && TriedSlotOk(hash, info, triedTable, b, p);
      found, tested := true, info[triedTable[b][p]];
    }

    /** Nothing but the order of vRandom has changed. */
    ghost predicate Shuffled(s: Book)
      requires Consistent(s)
      reads this
    {
      && Consistent(State()) && Evolves(s, State()) && |random| == |s.random|
      && State() == s.(info := info, random := random)
      && SameEntries(s.info, info)
    }

    /** One step of shuffling vRandom: everything before `n` stays. */
    method Shuffle(n: nat, draw: nat)
      requires Consistent(State()) && n < |random|
      modifies `info, `random
      ensures Shuffled(old(State())) && random[..n] == old(random)[..n]
    {
      ghost var s := State();
      var j := draw % (|random| - n) + n;
      SwappedSame(s, n, j);
      SwapRandom(n, j, {}, {});
      StillFacing(s, State());
    }

    /** The first `n` places of vRandom are drawn, and `chosen` is what they offer. */
    ghost predicate Drawn(s: Book, n: nat, network: Wanted, now: int, chosen: seq<Address>)
      reads this
    {
      n <= |random| && Live(s.info, random[..n]) && chosen == Picks(s.info, random[..n], rules, network, now)
    }

    method Draw(n: nat, network: Wanted, now: int, draw: nat, chosen: seq<Address>, ghost s: Book)
      returns (longer: seq<Address>)
      requires Consistent(s) && Shuffled(s) && Drawn(s, n, network, now, chosen) && n < |random|
      modifies `info, `random
      ensures Shuffled(s) && Drawn(s, n + 1, network, now, longer) && |longer| <= |chosen| + 1
    {
      ghost var s1 := State();
      Shuffle(n, draw);
      EvolvesOn(s, s1, State());
      assert Listed(info, random, n);
      var id := random[n];
      var e := info[id];
      assert SameEntry(s1.info[id], e) && SameEntry(s.info[id], s1.info[id]);
      PicksStep(s.info, random, n, e, rules, network, now);
      longer := if Eligible(e, rules, network, now) then chosen + [AsAddress(e)] else chosen;
    }

    /** A selection of eligible addresses in random order. */
    method GetAddr(maxAddresses: nat, maxPct: nat, network: Wanted, now: int, draws: nat -> nat)
      returns (chosen: seq<Address>)
      requires Consistent(State())
      modifies `info, `random
      ensures Consistent(State()) && Evolves(old(State()), State())
      ensures SameEntries(old(info), info)
      ensures |chosen| <= Limit(|old(random)|, maxAddresses, maxPct)
      ensures Distinct(chosen) && AllOffered(old(info), rules, network, now, chosen)
      ensures |chosen| < Limit(|old(random)|, maxAddresses, maxPct) ==>
              Exhausted(old(info), rules, network, now, chosen)
    {
      var limit := Limit(|random|, maxAddresses, maxPct);
      chosen := [];
      var n := 0;
      while n < |random|
        invariant Shuffled(old(State())) && Drawn(old(State()), n, network, now, chosen) && |chosen| <= limit
      {
        if |chosen| >= limit {
          break;
        }
        chosen := Draw(n, network, now, draws(n), chosen, old(State()));
        n := n + 1;
      }
      PicksMean(old(info), info, addrs, random, n, rules, network, now);
    }

    // ----- Runs -----

    /** An empty address manager. */
    constructor (hash: Hash, rules: NetRules)
      ensures this.hash == hash && this.rules == rules && State() == Blank(hash) && lastGood == 1
      ensures Consistent(State())
    {
      this.hash, this.rules := hash, rules;
      idCount, info, addrs, random, nNew, nTried := 0, map[], map[], [], 0, 0;
      newTable, triedTable := BlankTable(NEW_BUCKETS), BlankTable(TRIED_BUCKETS);
      nets, collisions, lastGood := map[], {}, 1;
      new;
      assert info - {} == map[];
    }

    method Perform(op: Operation)
      requires Consistent(State())
      modifies this
      ensures Consistent(State()) && Evolves(old(State()), State())
      ensures TimesOk(old(info)) && op.Timely() ==> TimesOk(info)
    {
      match op {
        case Announce(announced, source, penalty, clock, draws) =>
          var _, _, _ := Add(announced, source, penalty, clock, draws);
        case Succeed(a, testBeforeEvict, time) => var _ := Good(a, testBeforeEvict, time);
        case Try(a, countFailure, time) => Attempt(a, countFailure, time);
        case Touch(a, time) => Connected(a, time);
        case Serve(a, services) => SetServices(a, services);
        case Resolve(clock) => var _, _ := ResolveCollisions(clock);
        case Select => var _, _, _ := SelectTriedCollision();
        case Hand(most, pct, network, now, draws) => var _ := GetAddr(most, pct, network, now, draws);
      }
    }

    /** Whatever is asked of the manager in whatever order: the book stays
        consistent, ids are never reused, occupied tried slots stay occupied, and
        every live pending collision faces one. */
    method Run(ops: seq<Operation>)
      requires Consistent(State())
      modifies this
      ensures Consistent(State()) && Evolves(old(State()), State()) && |collisions| <= MAX_COLLISIONS
      ensures TimesOk(old(info)) && (forall i :: 0 <= i < |ops| ==> ops[i].Timely()) ==> TimesOk(info)
    {
      for i := 0 to |ops|
        invariant Consistent(State()) && Evolves(old(State()), State())
        invariant TimesOk(old(info)) && (forall k :: 0 <= k < i ==> ops[k].Timely()) ==> TimesOk(info)
      {
        ghost var s := State();
        Perform(ops[i]);
        EvolvesOn(old(State()), s, State());
      }
    }
  }
}
