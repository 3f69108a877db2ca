/** The unspent-output cache: write-back caches of any depth over a backing
    store, with DIRTY and FRESH flags, against a plain map from outpoints to
    unspent coins. */
module Coins {
  import opened Options
  import opened Sums

  datatype OutPoint = OutPoint(hash: nat, n: nat)

  const NULL_VALUE: int := -1
  const OP_RETURN: nat := 0x6a
  const MAX_SCRIPT_SIZE: nat := 10000
  const INLINE_SCRIPT_SIZE: nat := 28

  datatype TxOut = TxOut(value: int, script: seq<nat>)

  datatype Coin = Coin(out: TxOut, coinBase: bool, height: nat, coinStake: bool) {
    predicate IsSpent() {
      out.value == NULL_VALUE
    }

    predicate IsUnspendable() {
      (|out.script| > 0 && out.script[0] == OP_RETURN) || |out.script| > MAX_SCRIPT_SIZE
    }

    /** Heap bytes behind the script: none while it fits inline. */
    function DynamicMemoryUsage(): nat {
      if |out.script| <= INLINE_SCRIPT_SIZE then 0 else (|out.script| + 31) / 16 * 16
    }
  }

  /** A script of more than 28 bytes lies on the heap, in whole units of sixteen bytes with
      at least one unit's worth beside it. */
  lemma MemoryInUnits(coin: Coin)
    ensures |coin.out.script| <= 28 ==> coin.DynamicMemoryUsage() == 0
    ensures |coin.out.script| > 28 ==>
              && coin.DynamicMemoryUsage() % 16 == 0
              && |coin.out.script| + 16 <= coin.DynamicMemoryUsage() < |coin.out.script| + 32
  {
  }

  /** A default-constructed or cleared coin. */
  const EmptyCoin: Coin := Coin(TxOut(NULL_VALUE, []), false, 0, false)

  datatype Entry = Entry(coin: Coin, isDirty: bool, isFresh: bool) {
    function Unspent(): Option<Coin> {
      if coin.IsSpent() then None else Some(coin)
    }
  }

  type Cache = map<OutPoint, Entry>
  type Utxos = map<OutPoint, Coin>

  function Lookup(v: Utxos, o: OutPoint): Option<Coin> {
    if o in v then Some(v[o]) else None
  }

  /** What an entry's flags promise about the parent's view of the outpoint, and
      the three flag combinations that must never occur (the remaining forbidden
      one, FRESH but neither DIRTY nor spent, follows from the first two lines). */
  predicate EntryOk(e: Entry, parent: Option<Coin>) {
    && (!e.isDirty ==> e.Unspent() == parent)
    && (e.isFresh ==> parent.None?)
    && (e.coin.IsSpent() ==> e.isDirty != e.isFresh)
  }

  ghost predicate CacheOk(cache: Cache, parent: Utxos) {
    forall o :: o in cache ==> EntryOk(cache[o], Lookup(parent, o))
  }

  /** What SanityCheck asserts of one entry, on its three attribute bits. */
  predicate SaneAttributes(e: Entry) {
    var attr := (if e.isDirty then 1 else 0) + (if e.isFresh then 2 else 0) + (if e.coin.IsSpent() then 4 else 0);
    attr != 2 && attr != 4 && attr != 7
  }

  ghost function UsageOf(cache: Cache): int {
    Total(cache, (o: OutPoint, e: Entry) => e.coin.DynamicMemoryUsage())
  }

  /** The coins seen through a cache laid over a parent view. */
  ghost function Overlay(cache: Cache, parent: Utxos): (v: Utxos)
    ensures forall o :: Lookup(v, o) == if o in cache then cache[o].Unspent() else Lookup(parent, o)
  {
    map o | o in cache.Keys + parent.Keys && (o in cache ==> !cache[o].coin.IsSpent())
      :: if o in cache then cache[o].coin else parent[o]
  }

  /** A cache with its running totals, against the view directly below. */
  ghost predicate Sound(cache: Cache, usage: int, view: Utxos, parent: Utxos) {
    view == Overlay(cache, parent) && CacheOk(cache, parent) && usage == UsageOf(cache)
  }

  lemma SameView(v: Utxos, w: Utxos)
    requires forall o :: Lookup(v, o) == Lookup(w, o)
    ensures v == w
  {
    forall o ensures o in v <==> o in w {
      assert Lookup(v, o) == Lookup(w, o);
    }
    forall o | o in v ensures v[o] == w[o] {
      assert Lookup(v, o) == Lookup(w, o);
    }
  }

  /** The invariant implies every per-entry assertion of SanityCheck. */
  lemma CacheOkIsSane(cache: Cache, parent: Utxos, o: OutPoint)
    requires CacheOk(cache, parent) && o in cache
    ensures SaneAttributes(cache[o])
  {
    assert EntryOk(cache[o], Lookup(parent, o));
  }

  /** Every entry but those still to do has a possible combination of attributes. */
  ghost predicate AllSane(cache: Cache, todo: set<OutPoint>) {
    forall o :: o in cache && o !in todo ==> SaneAttributes(cache[o])
  }

  /** The three combinations that must not occur. */
  lemma SaneMeans(cache: Cache)
    ensures AllSane(cache, {}) <==>
      forall o :: o in cache ==>
        var e, spent := cache[o], cache[o].coin.IsSpent();
        && !(e.isFresh && !e.isDirty && !spent)
        && !(spent && !e.isDirty && !e.isFresh)
        && !(spent && e.isDirty && e.isFresh)
  {
    forall o | o in cache
      ensures var e, spent := cache[o], cache[o].coin.IsSpent();
              SaneAttributes(e) <==>
                && !(e.isFresh && !e.isDirty && !spent)
                && !(spent && !e.isDirty && !e.isFresh)
                && !(spent && e.isDirty && e.isFresh)
    {
    }
  }

  lemma ValidIsSane(cache: Cache, parent: Utxos)
    requires CacheOk(cache, parent)
    ensures AllSane(cache, {})
  {
    forall o | o in cache ensures SaneAttributes(cache[o]) {
      CacheOkIsSane(cache, parent, o);
    }
  }

  lemma UsageRest(cache: Cache, todo: set<OutPoint>, o: OutPoint)
    requires todo <= cache.Keys
    ensures o in todo ==> UsageOf(cache - (todo - {o})) == UsageOf(cache - todo) + cache[o].coin.DynamicMemoryUsage()
    ensures todo == cache.Keys ==> UsageOf(cache - todo) == 0
    ensures todo == {} ==> cache - todo == cache
  {
    if o in todo {
      TotalAdd(cache - todo, (o: OutPoint, e: Entry) => e.coin.DynamicMemoryUsage(), o, cache[o]);
      assert cache - (todo - {o}) == (cache - todo)[o := cache[o]];
    }
    if todo == cache.Keys {
      assert cache - todo == map[];
    }
  }

  ghost function With(v: Utxos, o: OutPoint, c: Option<Coin>): (w: Utxos)
    ensures forall p :: Lookup(w, p) == if p == o then c else Lookup(v, p)
  {
    match c
    case None => v - {o}
    case Some(coin) => v[o := coin]
  }

  /** Storing an entry changes the view at its outpoint only. */
  lemma Stored(cache: Cache, parent: Utxos, o: OutPoint, e: Entry)
    ensures Overlay(cache[o := e], parent) == With(Overlay(cache, parent), o, e.Unspent())
    ensures CacheOk(cache, parent) ==> (CacheOk(cache[o := e], parent) <==> EntryOk(e, Lookup(parent, o)))
    ensures UsageOf(cache[o := e]) == UsageOf(cache) + e.coin.DynamicMemoryUsage()
                                      - if o in cache then cache[o].coin.DynamicMemoryUsage() else 0
  {
    SameView(Overlay(cache[o := e], parent), With(Overlay(cache, parent), o, e.Unspent()));
    assert CacheOk(cache[o := e], parent) ==> EntryOk(cache[o := e][o], Lookup(parent, o));
    var w := (o: OutPoint, e: Entry) => e.coin.DynamicMemoryUsage();
    if o in cache {
      TotalReplace(cache, w, o, e);
    } else {
      TotalAdd(cache, w, o, e);
    }
  }

  lemma Covered(cache: Cache, parent: Utxos, o: OutPoint)
    ensures o in cache ==> Lookup(Overlay(cache, parent), o) == cache[o].Unspent()
    ensures o !in cache ==> Lookup(Overlay(cache, parent), o) == Lookup(parent, o)
    ensures o in cache && CacheOk(cache, parent) ==> EntryOk(cache[o], Lookup(parent, o))
  {
  }

  /** Erasing an entry uncovers the parent's coin. */
  lemma Erased(cache: Cache, parent: Utxos, o: OutPoint)
    requires o in cache
    ensures Overlay(cache - {o}, parent) == With(Overlay(cache, parent), o, Lookup(parent, o))
    ensures CacheOk(cache, parent) ==> CacheOk(cache - {o}, parent)
    ensures UsageOf(cache - {o}) == UsageOf(cache) - cache[o].coin.DynamicMemoryUsage()
  {
    SameView(Overlay(cache - {o}, parent), With(Overlay(cache, parent), o, Lookup(parent, o)));
    TotalRemove(cache, (o: OutPoint, e: Entry) => e.coin.DynamicMemoryUsage(), o);
  }

  lemma StoredSound(cache: Cache, usage: int, view: Utxos, parent: Utxos, o: OutPoint, e: Entry)
    requires Sound(cache, usage, view, parent)
    ensures
      var usage' :=
        usage - (if o in cache then cache[o].coin.DynamicMemoryUsage() else 0) + e.coin.DynamicMemoryUsage();
      && With(view, o, e.Unspent()) == Overlay(cache[o := e], parent)
      && (Sound(cache[o := e], usage', With(view, o, e.Unspent()), parent) <==> EntryOk(e, Lookup(parent, o)))
  {
    Stored(cache, parent, o, e);
  }

  /** A cache part way through Sync's clean-up: outpoints outside `todo` have lost
      their flags, and their entry altogether if the coin was spent. */
  ghost function Cleaned(cache: Cache, todo: set<OutPoint>): Cache {
    map o | o in cache && (o in todo || !cache[o].coin.IsSpent())
      :: if o in todo then cache[o] else Entry(cache[o].coin, false, false)
  }

  /** Once its entries are in the parent, a cleaned cache shows the same coins. */
  lemma CleanedView(cache: Cache, parent: Utxos)
    requires parent == Overlay(cache, parent)
    ensures Overlay(Cleaned(cache, {}), parent) == parent
    ensures CacheOk(Cleaned(cache, {}), parent)
  {
    forall o ensures Lookup(Overlay(Cleaned(cache, {}), parent), o) == Lookup(parent, o) {
      Covered(cache, parent, o);
    }
    SameView(Overlay(Cleaned(cache, {}), parent), parent);
    forall o | o in Cleaned(cache, {}) ensures EntryOk(Cleaned(cache, {})[o], Lookup(parent, o)) {
      Covered(cache, parent, o);
    }
  }

  lemma OverlayTwice(cache: Cache, parent: Utxos)
    ensures Overlay(cache, Overlay(cache, parent)) == Overlay(cache, parent)
    ensures Overlay(map[], parent) == parent
  {
    SameView(Overlay(cache, Overlay(cache, parent)), Overlay(cache, parent));
    SameView(Overlay(map[], parent), parent);
  }

  lemma CleanedStep(cache: Cache, todo: set<OutPoint>, o: OutPoint)
    requires o in todo && todo <= cache.Keys
    ensures var c, c', e := Cleaned(cache, todo), Cleaned(cache, todo - {o}), cache[o];
            && o in c && c[o] == e
            && c' == (if e.coin.IsSpent() then c - {o} else c[o := Entry(e.coin, false, false)])
            && UsageOf(c') == UsageOf(c) - if e.coin.IsSpent() then e.coin.DynamicMemoryUsage() else 0
  {
    var c, e := Cleaned(cache, todo), cache[o];
    assert Cleaned(cache, todo - {o}) == if e.coin.IsSpent() then c - {o} else c[o := Entry(e.coin, false, false)];
    var w := (o: OutPoint, e: Entry) => e.coin.DynamicMemoryUsage();
    TotalRemove(c, w, o);
    TotalReplace(c, w, o, Entry(e.coin, false, false));
  }

  ghost function Restrict(cache: Cache, keys: set<OutPoint>): Cache {
    map o | o in cache && o in keys :: cache[o]
  }

  /** A view after the DIRTY entries outside `todo` have been written to it. */
  ghost function Written(cache: Cache, todo: set<OutPoint>, v: Utxos): Utxos {
    Overlay(map o | o in cache && o !in todo && cache[o].isDirty :: cache[o], v)
  }

  lemma WrittenStep(cache: Cache, todo: set<OutPoint>, v: Utxos, o: OutPoint)
    requires o in todo && todo <= cache.Keys
    ensures Lookup(Written(cache, todo, v), o) == Lookup(v, o)
    ensures Written(cache, todo - {o}, v) ==
            if cache[o].isDirty then With(Written(cache, todo, v), o, cache[o].Unspent()) else Written(cache, todo, v)
    ensures Restrict(cache, todo - {o}) == Restrict(cache, todo) - {o}
  {
    var w := Written(cache, todo, v);
    SameView(Written(cache, todo - {o}, v), if cache[o].isDirty then With(w, o, cache[o].Unspent()) else w);
  }

  /** Writing the DIRTY entries of a sound cache to its parent gives the cache's own view. */
  lemma WrittenAll(cache: Cache, v: Utxos)
    ensures CacheOk(cache, v) ==> Written(cache, {}, v) == Overlay(cache, v)
    ensures Written(cache, cache.Keys, v) == v
    ensures Restrict(cache, cache.Keys) == cache && Restrict(cache, {}) == map[]
  {
    if CacheOk(cache, v) {
      forall o ensures Lookup(Written(cache, {}, v), o) == Lookup(Overlay(cache, v), o) {
        Covered(cache, v, o);
      }
      SameView(Written(cache, {}, v), Overlay(cache, v));
    }
    SameView(Written(cache, cache.Keys, v), v);
  }

  ghost function UnspentOf(coins: Utxos): (v: Utxos)
    ensures forall o :: Lookup(v, o) == if o in coins && !coins[o].IsSpent() then Some(coins[o]) else None
  {
    map o | o in coins && !coins[o].IsSpent() :: coins[o]
  }

  lemma UnspentStep(coins: Utxos, o: OutPoint, coin: Coin)
    ensures UnspentOf(if coin.IsSpent() then coins - {o} else coins[o := coin]) ==
            With(UnspentOf(coins), o, if coin.IsSpent() then None else Some(coin))
  {
    SameView(UnspentOf(if coin.IsSpent() then coins - {o} else coins[o := coin]),
             With(UnspentOf(coins), o, if coin.IsSpent() then None else Some(coin)));
  }

  /** The view under the whole stack of caches: any store that keeps coins by
      outpoint. As the interface allows, it may still hold spent coins. */
  class CoinsStore {
    var coins: Utxos
    var best: nat

    constructor (coins: Utxos, best: nat)
      ensures this.coins == coins && this.best == best
    {
      this.coins := coins;
      this.best := best;
    }

    ghost function View(): Utxos
      reads this
    {
      UnspentOf(coins)
    }

    method BatchWrite(mapCoins: Cache, hashBlock: nat, erase: bool) returns (left: Cache)
      modifies this
      ensures CacheOk(mapCoins, old(View())) ==> View() == Overlay(mapCoins, old(View()))
      ensures best == hashBlock
      ensures left == if erase then map[] else mapCoins
    {
      left := mapCoins;
      var todo := mapCoins.Keys;
      ghost var v := View();
      WrittenAll(mapCoins, v);
      while todo != {}
        invariant todo <= mapCoins.Keys && View() == Written(mapCoins, todo, v)
        invariant left == if erase then Restrict(mapCoins, todo) else mapCoins
        decreases todo
      {
        var o :| o in todo;
        var e := mapCoins[o];
        WrittenStep(mapCoins, todo, v, o);
        if e.isDirty {
          UnspentStep(coins, o, e.coin);
          coins := if e.coin.IsSpent() then coins - {o} else coins[o := e.coin];
        }
        todo := todo - {o};
        if erase { left := left - {o}; }
      }
      best := hashBlock;
    }
  }

  datatype Base = Store(store: CoinsStore) | Parent(cache: CoinsCache)

  class CoinsCache {
    const base: Base
    var cacheCoins: Cache
    var cachedCoinsUsage: int
    /** The best block as last set here, 0 while unknown. */
    var hashBlock: nat
    /** The coins this cache stands for. */
    ghost var view: Utxos
    /** This cache and everything below it. */
    ghost const Repr: set<object>

    ghost predicate Wired()
      decreases Repr
    {
      && this in Repr
      && match base
         case Store(s) => Repr == {this, s}
         case Parent(c) => c in c.Repr && Repr == {this} + c.Repr && this !in c.Repr && c.Wired()
    }

    /** The coins visible in the view directly below. */
    ghost function BaseView(): Utxos
      requires Wired()
      reads Repr - {this}
    {
      match base
      case Store(s) => s.View()
      case Parent(c) => c.view
    }

    ghost predicate Valid()
      reads Repr
      decreases Repr
    {
      && Wired()
      && (base.Parent? ==> base.cache.Valid())
      && Sound(cacheCoins, cachedCoinsUsage, view, BaseView())
    }

    constructor OverStore(s: CoinsStore)
      ensures Valid() && base == Store(s) && view == s.View() && cacheCoins == map[]
    {
      base := Store(s);
      cacheCoins, cachedCoinsUsage, hashBlock := map[], 0, 0;
      Repr := {this, s};
      view := s.View();
      new;
      SameView(view, Overlay(map[], s.View()));
    }

    constructor OverCache(c: CoinsCache)
      requires c.Valid()
      ensures Valid() && base == Parent(c) && view == c.view && cacheCoins == map[]
    {
      base := Parent(c);
      cacheCoins, cachedCoinsUsage, hashBlock := map[], 0, 0;
      Repr := {this} + c.Repr;
      view := c.view;
      new;
      SameView(view, Overlay(map[], c.view));
    }

    /** Assign an entry, keeping the running memory total in step. */
    method Assign(o: OutPoint, e: Entry)
      requires Wired()
      modifies this`cacheCoins, this`cachedCoinsUsage, this`view
      ensures cacheCoins == old(cacheCoins)[o := e]
      ensures old(Valid()) ==>
          && view == Overlay(cacheCoins, BaseView()) == With(old(view), o, e.Unspent())
          && (Valid() <==> EntryOk(e, Lookup(BaseView(), o)))
    {
      ghost var b := BaseView();
      if Valid() {
        StoredSound(cacheCoins, cachedCoinsUsage, view, b, o, e);
      }
      if o in cacheCoins {
        cachedCoinsUsage := cachedCoinsUsage - cacheCoins[o].coin.DynamicMemoryUsage();
      }
      cacheCoins := cacheCoins[o := e];
      cachedCoinsUsage := cachedCoinsUsage + e.coin.DynamicMemoryUsage();
      view := With(view, o, e.Unspent());
      assert BaseView() == b && (base.Parent? ==> base.cache.Valid() == old(base.cache.Valid()));
    }

    /** Erase an entry, keeping the running memory total in step. */
    method Erase(o: OutPoint)
      requires Wired() && o in cacheCoins
      modifies this`cacheCoins, this`cachedCoinsUsage, this`view
      ensures cacheCoins == old(cacheCoins) - {o}
      ensures old(Valid()) ==> Valid() && view == With(old(view), o, Lookup(BaseView(), o))
    {
      Erased(cacheCoins, BaseView(), o);
      cachedCoinsUsage := cachedCoinsUsage - cacheCoins[o].coin.DynamicMemoryUsage();
      cacheCoins := cacheCoins - {o};
      view := With(view, o, Lookup(BaseView(), o));
    }

    /** Bring an entry into this cache if any view below has one. */
    method FetchCoin(o: OutPoint) returns (found: bool)
      requires Valid()
      modifies Repr
      ensures Valid() && view == old(view) && BaseView() == old(BaseView())
      ensures hashBlock == old(hashBlock) && (base.Store? ==> unchanged(base.store))
      ensures found <==> o in cacheCoins
      ensures found <==> o in old(view) || o in old(cacheCoins) || (base.Store? && o in old(base.store.coins))
      ensures Lookup(view, o) == if found then cacheCoins[o].Unspent() else None
      decreases Repr, 0
    {
      Covered(cacheCoins, BaseView(), o);
      if o in cacheCoins { return true; }
      var tmp := EmptyCoin;
      match base {
        case Store(s) =>
          if o !in s.coins { return false; }
          tmp := s.coins[o];
        case Parent(c) =>
          var ok, coin := c.GetCoin(o);
          if !ok { return false; }
          tmp := coin;
      }
      // The parent only has an empty entry: ours can count as fresh.
      var entry := Entry(tmp, false, tmp.IsSpent());
      SameView(view, With(view, o, entry.Unspent()));
      Assign(o, entry);
      return true;
    }

    method GetCoin(o: OutPoint) returns (ok: bool, coin: Coin)
      requires Valid()
      modifies Repr
      ensures Valid() && view == old(view) && BaseView() == old(BaseView())
      ensures hashBlock == old(hashBlock)
      ensures Lookup(view, o) == if ok then Some(coin) else None
      ensures ok ==> !coin.IsSpent()
      decreases Repr, 1
    {
      var found := FetchCoin(o);
      if found {
        coin := cacheCoins[o].coin;
        ok := !coin.IsSpent();
      } else {
        ok, coin := false, EmptyCoin;
      }
    }

    method HaveCoin(o: OutPoint) returns (have: bool)
      requires Valid()
      modifies Repr
      ensures Valid() && view == old(view)
      ensures have <==> o in view
    {
      var coin;
      have, coin := GetCoin(o);
    }

    /** Adds a coin. `thrown` is the source's logic error on overwriting an
        unspent cached coin. Otherwise the coin becomes visible, and the cache
        stays sound exactly when the caller kept its side of the bargain. */
    method AddCoin(o: OutPoint, coin: Coin, possibleOverwrite: bool) returns (thrown: bool)
      requires Valid() && !coin.IsSpent()
      modifies this`cacheCoins, this`cachedCoinsUsage, this`view
      ensures coin.IsUnspendable() ==> !thrown && Valid() && view == old(view)
      ensures !coin.IsUnspendable() ==>
          (thrown <==> !possibleOverwrite && o in old(cacheCoins) && !old(cacheCoins)[o].coin.IsSpent())
      ensures !thrown && !coin.IsUnspendable() ==>
          && view == Overlay(cacheCoins, BaseView()) == old(view)[o := coin]
          && (Valid() <==> possibleOverwrite || o !in old(view))
      ensures if Spendable(coin.out.script) then !thrown ==> o in view && view[o] == coin
              else !thrown && view == old(view)
    {
      if coin.IsUnspendable() { return false; }
      Covered(cacheCoins, BaseView(), o);
      var inserted := o !in cacheCoins;
      var entry := if inserted then Entry(EmptyCoin, false, false) else cacheCoins[o];
      var isFresh := false;
      if !possibleOverwrite {
        if !entry.coin.IsSpent() { return true; }
        isFresh := !entry.isDirty;
      }
      Assign(o, Entry(coin, true, entry.isFresh || isFresh));
      return false;
    }

    /** Spending takes the coin out of the view, whatever the flags were. The result
        is also true for a spent coin that is still cached or kept by the store. */
    method SpendCoin(o: OutPoint) returns (found: bool, moveout: Coin)
      requires Valid()
      modifies Repr
      ensures Valid() && view == old(view) - {o}
      ensures o in old(view) ==> found && moveout == old(view)[o]
      ensures found <==> o in old(view) || o in old(cacheCoins) || (base.Store? && o in old(base.store.coins))
      ensures found && o !in old(view) ==> moveout.IsSpent()
      ensures BaseView() == old(BaseView()) && (base.Store? ==> unchanged(base.store))
    {
      found := FetchCoin(o);
      if !found {
        assert view - {o} == view;
        return false, EmptyCoin;
      }
      var entry := cacheCoins[o];
      moveout := entry.coin;
      Covered(cacheCoins, BaseView(), o);
      if entry.isFresh {
        Erase(o);
      } else {
        Assign(o, Entry(EmptyCoin, true, false));
      }
    }

    /** The body of BatchWrite's loop for one DIRTY entry of the child. */
    method WriteEntry(o: OutPoint, theirs: Entry) returns (thrown: bool)
      requires Wired() && theirs.isDirty
      modifies this`cacheCoins, this`cachedCoinsUsage, this`view
      ensures old(Valid()) && EntryOk(theirs, Lookup(old(view), o)) ==>
          !thrown && Valid() && view == With(old(view), o, theirs.Unspent())
    {
      Covered(cacheCoins, BaseView(), o);
      if o !in cacheCoins {
        // A coin both spent and FRESH in the child can be ignored.
        if !(theirs.isFresh && theirs.coin.IsSpent()) {
          Assign(o, Entry(theirs.coin, true, theirs.isFresh));
        }
      } else {
        var ours := cacheCoins[o];
        if theirs.isFresh && !ours.coin.IsSpent() {
          return true;
        }
        if ours.isFresh && theirs.coin.IsSpent() {
          Erase(o);
        } else {
          Assign(o, Entry(theirs.coin, true, ours.isFresh));
        }
      }
      return false;
    }

    /** Applies a child's entries. `thrown` is the source's logic error for a
        FRESH flag on a coin that exists here; it cannot happen when the child's
        flags are sound. */
    method BatchWrite(mapCoins: Cache, hashBlockIn: nat, erase: bool) returns (left: Cache, thrown: bool)
      requires Valid()
      modifies this
      ensures CacheOk(mapCoins, old(view)) ==>
          && !thrown && Valid()
          && view == Overlay(mapCoins, old(view))
          && hashBlock == hashBlockIn
          && left == if erase then map[] else mapCoins
    {
      left, thrown := mapCoins, false;
      var todo := mapCoins.Keys;
      ghost var ok, v := CacheOk(mapCoins, view), view;
      WrittenAll(mapCoins, v);
      while todo != {}
        invariant todo <= mapCoins.Keys
        invariant ok ==> Valid() && view == Written(mapCoins, todo, v)
        invariant left == if erase then Restrict(mapCoins, todo) else mapCoins
        decreases todo
      {
        var o :| o in todo;
        WrittenStep(mapCoins, todo, v, o);
        if mapCoins[o].isDirty {
          thrown := WriteEntry(o, mapCoins[o]);
          if thrown { return; }
        }
        todo := todo - {o};
        if erase { left := left - {o}; }
      }
      hashBlock := hashBlockIn;
    }

    /** Hands the entries to the base. */
    method WriteToBase(erase: bool) returns (left: Cache, thrown: bool)
      requires Valid()
      modifies Repr - {this}
      ensures !thrown && left == if erase then map[] else cacheCoins
      ensures BaseView() == view
      ensures base.Parent? ==> base.cache.Valid()
    {
      match base {
        case Store(s) =>
          left := s.BatchWrite(cacheCoins, hashBlock, erase);
          thrown := false;
        case Parent(c) =>
          left, thrown := c.BatchWrite(cacheCoins, hashBlock, erase);
      }
    }

    /** Empties this cache into its base without changing what it shows. */
    method Flush() returns (thrown: bool)
      requires Valid()
      modifies Repr
      ensures !thrown && Valid() && view == old(view)
      ensures cacheCoins == map[] && BaseView() == view
    {
      cacheCoins, thrown := WriteToBase(true);
      // Any entry left over is a logic error in the source.
      thrown := thrown || cacheCoins != map[];
      cachedCoinsUsage := 0;
      OverlayTwice(map[], BaseView());
    }

    /** Sync's second half: no flags, no spent coins. */
    method ClearFlags()
      requires cachedCoinsUsage == UsageOf(cacheCoins)
      modifies this`cacheCoins, this`cachedCoinsUsage
      ensures cacheCoins == Cleaned(old(cacheCoins), {})
      ensures cachedCoinsUsage == UsageOf(cacheCoins)
    {
      ghost var cache := cacheCoins;
      var todo := cacheCoins.Keys;
      assert cache == Cleaned(cache, todo);
      while todo != {}
        invariant todo <= cache.Keys && cacheCoins == Cleaned(cache, todo)
        invariant cachedCoinsUsage == UsageOf(cacheCoins)
        decreases todo
      {
        var o :| o in todo;
        CleanedStep(cache, todo, o);
        var e := cacheCoins[o];
        if e.coin.IsSpent() {
          cachedCoinsUsage := cachedCoinsUsage - e.coin.DynamicMemoryUsage();
          cacheCoins := cacheCoins - {o};
        } else {
          cacheCoins := cacheCoins[o := Entry(e.coin, false, false)];
        }
        todo := todo - {o};
      }
    }

    /** Writes everything to the base and keeps the unspent entries, unflagged. */
    method Sync() returns (thrown: bool)
      requires Valid()
      modifies Repr
      ensures !thrown && Valid() && view == old(view) && BaseView() == view
      ensures cacheCoins == Cleaned(old(cacheCoins), {})
    {
      ghost var v := view;
      OverlayTwice(cacheCoins, BaseView());
      var left;
      left, thrown := WriteToBase(false);
      CleanedView(cacheCoins, v);
      ClearFlags();
      assert BaseView() == v;
    }

    /** Drops an unmodified entry. */
    method Uncache(o: OutPoint)
      requires Valid()
      modifies this
      ensures Valid() && view == old(view)
      ensures cacheCoins == if o in old(cacheCoins) && !old(cacheCoins)[o].isDirty && !old(cacheCoins)[o].isFresh
                            then old(cacheCoins) - {o} else old(cacheCoins)
    {
      if o in cacheCoins && !cacheCoins[o].isDirty && !cacheCoins[o].isFresh {
        Covered(cacheCoins, BaseView(), o);
        SameView(view, With(view, o, Lookup(BaseView(), o)));
        Erase(o);
      }
    }

    /** Recomputes what the flags and the usage should be; a valid cache never fails. */
    method SanityCheck() returns (ok: bool)
      ensures ok <==>
        && cachedCoinsUsage == UsageOf(cacheCoins)
        && forall o :: o in cacheCoins ==>
             var e, spent := cacheCoins[o], cacheCoins[o].coin.IsSpent();
             && !(e.isFresh && !e.isDirty && !spent)
             && !(spent && !e.isDirty && !e.isFresh)
             && !(spent && e.isDirty && e.isFresh)
      ensures Valid() ==> ok
    {
      SaneMeans(cacheCoins);
      if Valid() {
        ValidIsSane(cacheCoins, BaseView());
      }
      var recomputed, todo := 0, cacheCoins.Keys;
      UsageRest(cacheCoins, todo, OutPoint(0, 0));
      while todo != {}
        invariant todo <= cacheCoins.Keys && AllSane(cacheCoins, todo) && recomputed == UsageOf(cacheCoins - todo)
        decreases |todo|
      {
        var o :| o in todo;
        if !SaneAttributes(cacheCoins[o]) {
          assert !AllSane(cacheCoins, {});
          return false;
        }
        UsageRest(cacheCoins, todo, o);
        recomputed := recomputed + cacheCoins[o].coin.DynamicMemoryUsage();
        todo := todo - {o};
      }
      UsageRest(cacheCoins, todo, OutPoint(0, 0));
      ok := recomputed == cachedCoinsUsage;
    }

    /** Adds every spendable output of a transaction. Without the overwrite check
        only a coinbase may bring an output that is already there. */
    method AddCoins(txid: nat, vout: seq<TxOut>, height: nat, coinBase: bool, coinStake: bool, check: bool)
      returns (thrown: bool)
      requires Valid()
      requires forall out :: out in vout ==> out.value != NULL_VALUE
      requires check || coinBase || forall i :: 0 <= i < |vout| ==> OutPoint(txid, i) !in view
      modifies Repr
      ensures !thrown && Valid()
      ensures view == WithOutputs(old(view), txid, CoinsOf(vout, height, coinBase, coinStake))
      ensures forall o: OutPoint ::
                Lookup(view, o) ==
                if o.hash == txid && o.n < |vout| && Spendable(vout[o.n].script)
                then Some(Coin(vout[o.n], coinBase, height, coinStake)) else Lookup(old(view), o)
    {
      ghost var v := view;
      ghost var coins := CoinsOf(vout, height, coinBase, coinStake);
      assert coins[..0] == [];
      for i := 0 to |vout|
        invariant Valid() && view == WithOutputs(v, txid, coins[..i])
      {
        var o := OutPoint(txid, i);
        var overwrite := coinBase;
        if check {
          overwrite := HaveCoin(o);
        }
        WithOutputsAt(v, txid, coins[..i], o);
        assert vout[i] in vout;
        var coin := Coin(vout[i], coinBase, height, coinStake);
        assert coins[..i + 1] == coins[..i] + [coin];
        thrown := AddCoin(o, coin, overwrite);
        if thrown { return; }
      }
      assert coins[..|vout|] == coins;
      thrown := false;
      forall o: OutPoint
        ensures Lookup(view, o) ==
                if o.hash == txid && o.n < |vout| && Spendable(vout[o.n].script)
                then Some(Coin(vout[o.n], coinBase, height, coinStake)) else Lookup(v, o)
      {
        OutputsMean(v, txid, coins, o);
      }
    }

    /** One step of a run: the top cache may change the view, lower caches may
        only do housekeeping. Levels under the lowest cache do nothing. */
    method Housekeep(level: nat, h: Housekeeping) returns (thrown: bool)
      requires Valid()
      modifies Repr
      ensures !thrown && Valid() && view == old(view)
      decreases level
    {
      thrown := false;
      if level == 0 {
        match h
        case Fetch(o) => var _ := FetchCoin(o);
        case Uncache(o) => Uncache(o);
        case Flush => thrown := Flush();
        case Sync => thrown := Sync();
      } else if base.Parent? {
        thrown := base.cache.Housekeep(level - 1, h);
      }
    }

    /** Over every run, at every depth, the caches stand for the plain map, and
        neither logic error of the source can be raised. */
    method Run(ops: seq<Op>) returns (thrown: bool)
      requires Valid() && LegalRun(view, ops)
      modifies Repr
      ensures !thrown && Valid() && view == RunPlain(old(view), ops)
    {
      thrown := false;
      for i := 0 to |ops|
        invariant !thrown && Valid()
        invariant LegalRun(view, ops[i..]) && RunPlain(view, ops[i..]) == RunPlain(old(view), ops)
      {
        assert ops[i..][0] == ops[i] && ops[i..][1..] == ops[i + 1..];
        match ops[i]
        case Add(o, coin, overwrite) => thrown := AddCoin(o, coin, overwrite);
        case Spend(o) => var _, _ := SpendCoin(o);
        case Keep(level, h) => thrown := Housekeep(level, h);
      }
    }
  }

  /** A stored coin can be spent twice: the second time nothing is there any more,
      and the answer is still true. */
  method SpendAgain(o: OutPoint, coin: Coin) returns (found: bool, moveout: Coin)
    requires !coin.IsSpent()
    ensures found && moveout.IsSpent()
  {
    var store := new CoinsStore(map[o := coin], 0);
    var cache := new CoinsCache.OverStore(store);
    found, moveout := cache.SpendCoin(o);
    found, moveout := cache.SpendCoin(o);
  }

  /** A coin added over a stored one, with no overwrite allowed and nothing cached,
      is taken for FRESH. */
  method AddOverStored(o: OutPoint, stored: Coin, coin: Coin) returns (thrown: bool, cache: CoinsCache)
    requires !stored.IsSpent() && !coin.IsSpent() && !coin.IsUnspendable()
    ensures !thrown && !cache.Valid()
  {
    var store := new CoinsStore(map[o := stored], 0);
    cache := new CoinsCache.OverStore(store);
    assert Lookup(cache.view, o) == Some(stored);
    thrown := cache.AddCoin(o, coin, false);
  }

  function CoinsOf(vout: seq<TxOut>, height: nat, coinBase: bool, coinStake: bool): (coins: seq<Coin>)
    ensures |coins| == |vout|
  {
    seq(|vout|, i requires 0 <= i < |vout| => Coin(vout[i], coinBase, height, coinStake))
  }

  /** A plain map after a transaction's outputs are added to it. */
  ghost function WithOutputs(v: Utxos, txid: nat, coins: seq<Coin>): Utxos {
    if coins == [] then v
    else
      var n := |coins| - 1;
      var w := WithOutputs(v, txid, coins[..n]);
      if coins[n].IsUnspendable() then w else w[OutPoint(txid, n) := coins[n]]
  }

  /** A script that can be met: it does not begin with OP_RETURN and is not too long. */
  predicate Spendable(script: seq<nat>) {
    |script| <= 10000 && (script == [] || script[0] != 0x6a)
  }

  lemma {:induction false} OutputsMean(v: Utxos, txid: nat, coins: seq<Coin>, o: OutPoint)
    ensures Lookup(WithOutputs(v, txid, coins), o) ==
            if o.hash == txid && o.n < |coins| && Spendable(coins[o.n].out.script) then Some(coins[o.n])
              else Lookup(v, o)
  {
    if coins != [] {
      OutputsMean(v, txid, coins[..|coins| - 1], o);
    }
  }

  lemma WithOutputsAt(v: Utxos, txid: nat, coins: seq<Coin>, o: OutPoint)
    requires o.n >= |coins|
    ensures Lookup(WithOutputs(v, txid, coins), o) == Lookup(v, o)
  {
  }

  datatype Housekeeping = Fetch(o: OutPoint) | Uncache(o: OutPoint) | Flush | Sync

  datatype Op =
    | Add(o: OutPoint, coin: Coin, possibleOverwrite: bool)
    | Spend(o: OutPoint)
    | Keep(level: nat, h: Housekeeping)

  /** The plain map's own version of each step. */
  function Plain(v: Utxos, op: Op): Utxos {
    match op
    case Add(o, coin, _) => if coin.IsUnspendable() then v else v[o := coin]
    case Spend(o) => v - {o}
    case Keep(_, _) => v
  }

  /** What the source asks of a caller. */
  predicate Legal(v: Utxos, op: Op) {
    op.Add? ==> !op.coin.IsSpent() && (op.possibleOverwrite || op.coin.IsUnspendable() || op.o !in v)
  }

  ghost function RunPlain(v: Utxos, ops: seq<Op>): Utxos
    decreases ops
  {
    if ops == [] then v else RunPlain(Plain(v, ops[0]), ops[1..])
  }

  ghost predicate LegalRun(v: Utxos, ops: seq<Op>)
    decreases ops
  {
    ops == [] || (Legal(v, ops[0]) && LegalRun(Plain(v, ops[0]), ops[1..]))
  }
}
