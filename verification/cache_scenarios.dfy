/** The engine's own test scenarios, stated for every key, every value,
    every hash function and every choice of times: a fresh dictionary origin,
    an engine with no persisted state, no default ttl and synchronous
    validation. */
module CacheScenarios {
  import opened Values
  import opened Origin
  import opened Engine
  import opened EngineProperties

  /** A value read from the origin is cached; a value set under another key
      with ttl 5 is served before it expires; both keys are then held. */
  method GetAndSetRoundTrip(user1: string, user2: string, alice: Value, bob: Value, hash: Hasher,
                            t1: real, t2: real, t3: real)
    returns (first: Value, second: Value, ks: set<string>)
    requires user1 != user2 && alice != Null
    requires t2 <= t3 < t2 + 5.0
    ensures first == alice && second == bob
    ensures ks == {user1, user2}
  {
    var origin := new DictOrigin(Some(map[user1 := alice]), hash);
    var cfg := Config(None, false, hash);
    var cache := new Cache(map[], cfg);
    var view := origin.AsStore();
    assert view.fetchHash(user2).None?;
    first := cache.Get(user1, None, t1, view);
    ghost var s1 := cache.store;
    cache.Set(user2, bob, Some(5.0), t2);
    SetThenGet(s1, user2, bob, Some(5.0), t2, None, t3, view, cfg);
    second := cache.Get(user2, None, t3, view);
    ks := cache.Keys();
  }

  /** Before its ttl runs out the entry is served; once it has, `get` goes
      back to the origin and returns the origin's new value. */
  method TtlExpiration(session: string, token: Value, refetched: Value, hash: Hasher, t0: real, t1: real, t2: real)
    returns (before: Value, after: Value)
    requires t0 <= t1 < t0 + 0.05 <= t2
    ensures before == token && after == refetched
  {
    var origin := new DictOrigin(Some(map[session := token]), hash);
    var cfg := Config(None, false, hash);
    var cache := new Cache(map[], cfg);
    cache.Set(session, token, Some(0.05), t0);
    var view := origin.AsStore();
    assert view.fetchHash(session) == if token == Null then None else Some(hash(token));
    SetThenGet(map[], session, token, Some(0.05), t0, None, t1, view, cfg);
    before := cache.Get(session, None, t1, view);
    origin.Update(session, refetched);
    view := origin.AsStore();
    MissFetchesFromOrigin(cache.store, session, None, t2, view, cfg);
    after := cache.Get(session, None, t2, view);
  }

  /** After the origin's value changes to one with a different hash, the
      next `get` already returns the new value and so does the one after. */
  method HashMismatchTriggersRefresh(user1: string, alice: Value, bob: Value, hash: Hasher, t1: real, t2: real, t3: real)
    returns (first: Value, second: Value, third: Value)
    requires alice != Null && bob != Null && hash(alice) != hash(bob)
    ensures first == alice && second == bob && third == bob
  {
    var origin := new DictOrigin(Some(map[user1 := alice]), hash);
    var cfg := Config(None, false, hash);
    var cache := new Cache(map[], cfg);
    var view := origin.AsStore();
    MissFetchesFromOrigin(cache.store, user1, None, t1, view, cfg);
    first := cache.Get(user1, None, t1, view);
    origin.Update(user1, bob);
    view := origin.AsStore();
    origin.AsStoreCoherent();
    SyncGetSettles(cache.store, user1, None, t2, view, cfg);
    second := cache.Get(user1, None, t2, view);
    SyncGetSettles(cache.store, user1, None, t3, view, cfg);
    third := cache.Get(user1, None, t3, view);
  }
}
