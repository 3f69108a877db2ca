/** What the address manager's decisions come to: which entries are of no use, how many are
    handed out, and what an announcement may change. */
module AddrPolicy {
  import opened AddrBook
  import opened AddrMan
  import opened Powers

  // ----- Quality -----

  /** An entry is of use if it was tried in the last minute, or was seen within thirty days, not
      ten minutes ahead of the clock, and has not failed three times without ever a success,
      nor ten times with none for a week. */
  lemma UsefulEntries(e: AddrInfo, now: int)
    ensures !IsTerrible(e, now) <==>
              || now - e.lastTry <= 60
              || (&& now - 2592000 <= e.time <= now + 600
                  && (e.lastSuccess != 0 || e.attempts < 3)
                  && (now - e.lastSuccess <= 604800 || e.attempts < 10))
  {
  }

  // ----- How many addresses are handed out -----

  /** The limit is the largest number within both bounds; zero stands for no bound. */
  lemma LimitIsLargest(size: nat, maxAddresses: nat, maxPct: nat, n: nat)
    ensures n <= Limit(size, maxAddresses, maxPct) <==>
              && (if maxPct != 0 then 100 * n <= maxPct * size else n <= size)
              && (maxAddresses != 0 ==> n <= maxAddresses)
  {
  }

  // ----- Announcements -----

  /** Whether bit k of a number is set. */
  predicate Bit(x: nat, k: nat) {
    x / Pow2(k) % 2 == 1
  }

  lemma {:induction false} BitOfHalf(x: nat, k: nat)
    ensures Bit(x, k + 1) == Bit(x / 2, k)
  {
    DivTwo(x, Pow2(k));
  }

  lemma DivTwo(x: nat, p: nat)
    requires p > 0
    ensures x / (2 * p) == x / 2 / p
  {
    var q, r := x / 2 / p, x / 2 % p;
    DivMod(x / 2, p);
    MulAssoc(q, 2, p);
    MulAssoc(2, q, p);
    DivModUnique(x, 2 * p, q, 2 * r + x % 2);
  }

  lemma OrHalves(x: nat, y: nat)
    ensures BitOr(x, y) % 2 == (if x % 2 == 1 || y % 2 == 1 then 1 else 0) && BitOr(x, y) / 2 == BitOr(x / 2, y / 2)
  {
    var h := BitOr(x / 2, y / 2);
    assert BitOr(x, y) == (if x % 2 == 1 || y % 2 == 1 then 1 else 0) + 2 * h;
  }

  lemma {:induction false} OrBits(x: nat, y: nat, k: nat)
    ensures Bit(BitOr(x, y), k) <==> Bit(x, k) || Bit(y, k)
    decreases k
  {
    var z := BitOr(x, y);
    OrHalves(x, y);
    if k == 0 {
      LastBit(x);
      LastBit(y);
      LastBit(z);
    } else {
      OrBits(x / 2, y / 2, k - 1);
      BitOfHalf(x, k - 1);
      BitOfHalf(y, k - 1);
      BitOfHalf(z, k - 1);
    }
  }

  lemma LastBit(x: nat)
    ensures Bit(x, 0) <==> x % 2 == 1
  {
    assert Pow2(0) == 1;
  }

  /** A known entry hears of more services and never forgets one. Its time changes only when the
      announcement, less its penalty, is newer by more than an hour, or by more than a day if it
      is itself a day old. */
  lemma RefreshedMeans(e: AddrInfo, a: Address, penalty: int, now: int, k: nat)
    ensures var r := Refreshed(e, a, penalty, now);
            && (Bit(r.services, k) <==> Bit(e.services, k) || Bit(a.services, k))
            && r == e.(time := r.time, services := r.services)
            && r.time == (if a.time - penalty - e.time > (if now - a.time < 86400 then 3600 else 86400)
                          then (if a.time >= penalty then a.time - penalty else 0) else e.time)
  {
    OrBits(e.services, a.services, k);
  }

  /** An unknown address is listed exactly if it is routable and the slot it gets is free, or
      held by an entry that is of no use or has another slot. */
  lemma NewcomerListed(rules: NetRules, s: Book, s': Book, a: Address, source: Source, penalty: int, now: int,
                       later: int, draw: nat, added: bool)
    requires Consistent(s) && a.service !in s.addrs
    requires AddStep(rules, s, s', a, source, penalty, now, later, draw, added)
    ensures var other := ListingSlot(s, a.service, source);
            added <==>
              && rules.routable(a.service)
              && (other == EMPTY ||
                  (other in s.info && (IsTerrible(s.info[other], later) || s.info[other].refCount > 1)))
  {
    var b := NewBucket(s.hash, a.service, source);
    var p := Position(s.hash, true, b, a.service);
    assert InTable(b, p, NEW_BUCKETS) && NewSlotOk(s.hash, s.info, s.newTable, b, p);
  }

  /** A known address gets one more slot exactly if it is routable, the announcement is news, it is
      not tried, has fewer than eight slots, one draw in two to their number is lucky, and the slot
      is free or held by another entry that is of no use. */
  lemma KnownListed(rules: NetRules, s: Book, s': Book, a: Address, source: Source, penalty: int, now: int,
                    later: int, draw: nat, added: bool)
    requires Consistent(s) && a.service in s.addrs && s.addrs[a.service] in s.info
    requires AddStep(rules, s, s', a, source, penalty, now, later, draw, added)
    ensures var id, other := s.addrs[a.service], ListingSlot(s, a.service, source);
            var e := s.info[id];
            added <==>
              && rules.routable(a.service) && a.time > Refreshed(e, a, Penalty(a, source, penalty), now).time
              && !e.inTried && e.refCount < 8 && draw % Pow2(e.refCount) == 0
              && (other == EMPTY || (other != id && other in s.info && IsTerrible(s.info[other], later)))
  {
    var id := s.addrs[a.service];
    assert Resolves(s.info, s.addrs, a.service) && NewEntryOk(s.hash, s.info, s.newTable, id);
  }
}
