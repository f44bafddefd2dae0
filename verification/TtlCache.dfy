/** The in-process cache whose entries expire ttl seconds after they are written.  Expired entries are
    removed only when a lookup or a size count comes across them. */
module TtlCache {
  import opened Common

  datatype Entry<V> = Entry(value: V, expiresAt: real)

  type Store<V> = map<string, Entry<V>>

  // ---------------------------------------------------------------- the operations, as functions

  predicate Expired<V>(e: Entry<V>, now: real) {
    now > e.expiresAt
  }

  function Cached<V>(store: Store<V>, key: string, now: real): Option<V> {
    if key in store && !Expired(store[key], now) then Some(store[key].value) else None
  }

  function AfterLookup<V>(store: Store<V>, key: string, now: real): Store<V> {
    if key in store && Expired(store[key], now) then store - {key} else store
  }

  function Put<V>(store: Store<V>, key: string, value: V, now: real, ttl: nat): Store<V> {
    store[key := Entry(value, now + ttl as real)]
  }

  function KeysUnder<V>(store: Store<V>, prefix: string): set<string> {
    set k | k in store && prefix <= k
  }

  /** Everything still alive at `now`. */
  function Purge<V>(store: Store<V>, now: real): Store<V> {
    map k | k in store && !Expired(store[k], now) :: store[k]
  }

  /** A value is served up to and including the end of its ttl and never after; other keys are not
      affected, an invalidation takes away exactly the keys under its prefix, and a purge keeps exactly what
      is served. */
  lemma WhatIsServed<V>(store: Store<V>, key: string, value: V, written: real, ttl: nat, other: string, prefix: string,
    now: real)
    ensures Cached(Put(store, key, value, written, ttl), key, now) ==
      (if now - written <= ttl as real then Some(value) else None)
    ensures other != key ==> Cached(Put(store, key, value, written, ttl), other, now) == Cached(store, other, now)
    ensures Cached(store - KeysUnder(store, prefix), other, now) ==
      (if prefix <= other then None else Cached(store, other, now))
    ensures Cached(AfterLookup(store, key, now), other, now) == Cached(store, other, now)
    ensures Cached(Purge(store, now), other, now) == Cached(store, other, now)
    ensures other in Purge(store, now) <==> Cached(store, other, now).Some?
  {
  }

  // ---------------------------------------------------------------- the cache object

  class TTLCache<V> {
    const ttl: nat
    var store: Store<V>

    constructor (ttl: nat)
      ensures this.ttl == ttl && store == map[]
    {
      this.ttl := ttl;
      store := map[];
    }

    method Get(key: string, now: real) returns (value: Option<V>)
      modifies this
      ensures value == Cached(old(store), key, now)
      ensures store == AfterLookup(old(store), key, now)
    {
      if key !in store {
        return None;
      }
      var entry := store[key];
      if now > entry.expiresAt {
        store := store - {key};
        return None;
      }
      return Some(entry.value);
    }

    method Set(key: string, value: V, now: real)
      modifies this
      ensures store == Put(old(store), key, value, now, ttl)
    {
      store := store[key := Entry(value, now + ttl as real)];
    }

    method InvalidatePrefix(prefix: string) returns (removed: nat)
      modifies this
      ensures store == old(store) - KeysUnder(old(store), prefix)
      ensures removed == |KeysUnder(old(store), prefix)|
    {
      var toRemove := set k | k in store && prefix <= k;
      removed := |toRemove|;
      DeleteAll(toRemove);
    }

    method Clear()
      modifies this
      ensures store == map[]
    {
      store := map[];
    }

    method Size(now: real) returns (size: nat)
      modifies this
      ensures store == Purge(old(store), now)
      ensures size == |Purge(old(store), now)|
    {
      var expired := set k | k in store && now > store[k].expiresAt;
      DeleteAll(expired);
      size := |store|;
    }

    method DeleteAll(keys: set<string>)
      modifies this
      ensures store == old(store) - keys
    {
      var rest := keys;
      while rest != {}
        invariant rest <= keys && store == old(store) - (keys - rest)
        decreases rest
      {
        var k :| k in rest;
        store := store - {k};
        rest := rest - {k};
      }
    }
  }

  // ---------------------------------------------------------------- whole runs

  datatype Request<V> = Get(key: string) | Set(key: string, value: V) | Invalidate(prefix: string) | Clear | Size

  datatype Reply<V> = Found(value: Option<V>) | Number(count: nat) | Done

  datatype Timed<V> = At(now: real, request: Request<V>)

  function Serve<V>(ttl: nat, store: Store<V>, t: Timed<V>): Store<V> {
    match t.request
    case Get(key) => AfterLookup(store, key, t.now)
    case Set(key, value) => Put(store, key, value, t.now, ttl)
    case Invalidate(prefix) => store - KeysUnder(store, prefix)
    case Clear => map[]
    case Size => Purge(store, t.now)
  }

  function Response<V>(store: Store<V>, t: Timed<V>): Reply<V> {
    match t.request
    case Get(key) => Found(Cached(store, key, t.now))
    case Set(_, _) => Done
    case Invalidate(prefix) => Number(|KeysUnder(store, prefix)|)
    case Clear => Done
    case Size => Number(|Purge(store, t.now)|)
  }

  /** The store as the code leaves it. */
  function Lazy<V>(ttl: nat, run: History<Timed<V>>): Store<V> {
    match run
    case Start => map[]
    case Then(past, t) => Serve(ttl, Lazy(ttl, past), t)
  }

  /** A cache that has dropped every expired entry before each request is served. */
  function Eager<V>(ttl: nat, run: History<Timed<V>>): Store<V> {
    match run
    case Start => map[]
    case Then(past, t) => Serve(ttl, Purge(Eager(ttl, past), t.now), t)
  }

  ghost predicate ClockAdvances<V>(run: History<Timed<V>>) {
    match run
    case Start => true
    case Then(past, t) => ClockAdvances(past) && forall u :: u in Items(past) ==> u.now <= t.now
  }

  lemma ServeRespectsPurge<V>(ttl: nat, lazy: Store<V>, eager: Store<V>, t: Timed<V>, later: real)
    requires Purge(lazy, t.now) == Purge(eager, t.now) && t.now <= later
    ensures Purge(Serve(ttl, lazy, t), later) == Purge(Serve(ttl, Purge(eager, t.now), t), later)
  {
    var a, b := Purge(Serve(ttl, lazy, t), later), Purge(Serve(ttl, Purge(eager, t.now), t), later);
    forall k
      ensures k in a <==> k in b
      ensures k in a && k in b ==> a[k] == b[k]
    {
      assert k in Purge(lazy, t.now) <==> k in Purge(eager, t.now);
      assert k in Purge(lazy, t.now) ==> Purge(lazy, t.now)[k] == Purge(eager, t.now)[k];
    }
  }

  lemma {:induction false} SameLiveEntries<V>(ttl: nat, run: History<Timed<V>>, now: real)
    requires ClockAdvances(run) && forall u :: u in Items(run) ==> u.now <= now
    ensures Purge(Lazy(ttl, run), now) == Purge(Eager(ttl, run), now)
  {
    match run
    case Start =>
    case Then(past, t) =>
      SameLiveEntries(ttl, past, t.now);
      ServeRespectsPurge(ttl, Lazy(ttl, past), Eager(ttl, past), t, now);
  }

  /** Lazy removal cannot be observed through lookups and sizes, whatever the run; the number a prefix
      invalidation reports is the same exactly when no expired entry under the prefix is left over. */
  lemma LazyRemovalIsUnobservable<V>(ttl: nat, past: History<Timed<V>>, t: Timed<V>)
    requires ClockAdvances(Then(past, t))
    ensures var lazy := Lazy(ttl, past);
      var eager := Purge(Eager(ttl, past), t.now);
      (Response(lazy, t) == Response(eager, t)) <==>
        (t.request.Invalidate? ==> forall k :: k in lazy && t.request.prefix <= k ==> !Expired(lazy[k], t.now))
  {
    SameLiveEntries(ttl, past, t.now);
    var lazy, eager := Lazy(ttl, past), Purge(Eager(ttl, past), t.now);
    assert Purge(lazy, t.now) == eager;
    assert Purge(eager, t.now) == eager;
    if t.request.Invalidate? {
      var p := t.request.prefix;
      assert KeysUnder(eager, p) <= KeysUnder(lazy, p);
      if k :| k in lazy && p <= k && Expired(lazy[k], t.now) {
        assert k in KeysUnder(lazy, p) && k !in KeysUnder(eager, p);
        SmallerSubset(KeysUnder(eager, p), KeysUnder(lazy, p), k);
      } else {
        assert KeysUnder(eager, p) == KeysUnder(lazy, p);
      }
    }
  }

  lemma SmallerSubset(a: set<string>, b: set<string>, k: string)
    requires a <= b && k in b && k !in a
    ensures |a| < |b|
  {
    SubsetSize(a, b - {k});
  }

  lemma {:induction false} SubsetSize(a: set<string>, b: set<string>)
    requires a <= b
    ensures |a| <= |b|
    decreases a
  {
    if k :| k in a {
      SubsetSize(a - {k}, b - {k});
    }
  }
}
