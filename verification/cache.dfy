/** The in-memory LRU + TTL cache of src/js/cache-manager.js. A cache is a
    record updated by transition functions; the clock `Date.now()` is the
    parameter `now`, in milliseconds. */
module CacheManager {
  import opened Wrappers
  import Helpers

  /** 5 minutes, in milliseconds. */
  const DefaultTtl := 300000
  const DefaultMaxSize := 100

  datatype Entry<V> = Entry(value: V, expiresAt: int)

  datatype Stats = Stats(hits: nat, misses: nat, sets: nat, evictions: nat)

  /** `data` is the Map of entries; `accessOrder` lists its keys from least
      to most recently used. */
  datatype Cache<V> = Cache(
    name: string,
    maxSize: int,
    defaultTtl: int,
    data: map<string, Entry<V>>,
    accessOrder: seq<string>,
    stats: Stats)

  /** The constructor's options; `""` and `0` are the falsy values that fall
      back to the defaults. `name` is `None` when the options carry none. */
  datatype Options = Options(name: Option<string>, maxSize: int, ttl: int)

  const NoOptions := Options(None, 0, 0)

  /** `new Cache(options)`. */
  function NewCache<V>(name: string, maxSize: int, ttl: int): (c: Cache<V>)
    ensures Valid(c) && |c.data| == 0
    ensures c.maxSize != 0 && c.defaultTtl != 0
  {
    Cache(if name == "" then "default" else name,
          if maxSize == 0 then DefaultMaxSize else maxSize,
          if ttl == 0 then DefaultTtl else ttl,
          map[], [], Stats(0, 0, 0, 0))
  }

  /** The bookkeeping every operation keeps: `accessOrder` holds exactly the
      keys of `data`, each once. */
  predicate Valid<V>(c: Cache<V>) {
    && (forall k :: k in c.data ==> k in c.accessOrder)
    && (forall k :: k in c.accessOrder ==> k in c.data)
    && Helpers.Distinct(c.accessOrder)
  }

  /** `accessOrder.filter(k => k !== key)`. */
  function Without(s: seq<string>, key: string): (r: seq<string>)
    ensures forall x :: x in r <==> x in s && x != key
    ensures Helpers.Distinct(s) ==> Helpers.Distinct(r)
    ensures key !in s ==> r == s
    decreases |s|
  {
    if |s| == 0 then []
    else if s[0] == key then Without(s[1..], key)
    else
      var rest := Without(s[1..], key);
      assert forall x :: x in s <==> x == s[0] || x in s[1..];
      if Helpers.Distinct(s) then
        Helpers.DistinctTail(s);
        Helpers.DistinctCons(s[0], rest);
        [s[0]] + rest
      else [s[0]] + rest
  }

  /** The cardinality of a valid cache equals the length of its access list. */
  lemma {:induction false} DistinctSize(s: seq<string>)
    requires Helpers.Distinct(s)
    ensures |set x | x in s| == |s|
    decreases |s|
  {
    if |s| > 0 {
      var n := |s| - 1;
      assert Helpers.Distinct(s[..n]);
      DistinctSize(s[..n]);
      assert (set x | x in s) == (set x | x in s[..n]) + {s[n]};
      assert s[n] !in s[..n];
    }
  }

  lemma SizeOfValid<V>(c: Cache<V>)
    requires Valid(c)
    ensures |c.data| == |c.accessOrder|
  {
    DistinctSize(c.accessOrder);
    assert c.data.Keys == set x | x in c.accessOrder;
  }

  // ---------------------------------------------------------------------------
  // set
  // ---------------------------------------------------------------------------

  /** Whether `set(key, ...)` evicts: the cache is full and the key is new. */
  predicate Evicts<V>(c: Cache<V>, key: string) {
    |c.data| >= c.maxSize && key !in c.data
  }

  /** `Valid` but for `key`, which may be in `data` and is not in
      `accessOrder`. */
  predicate ValidExcept<V>(c: Cache<V>, key: string) {
    && (forall k :: k in c.data && k != key ==> k in c.accessOrder)
    && (forall k :: k in c.accessOrder ==> k in c.data && k != key)
    && Helpers.Distinct(c.accessOrder)
  }

  /** The first half of `set`: the key's old place in `accessOrder` dropped,
      then, when the cache is full and the key new, the front of
      `accessOrder` shifted off and its entry deleted. An empty
      `accessOrder` shifts off `undefined`, which deletes nothing. */
  function MakeRoom<V>(c: Cache<V>, key: string): (r: Cache<V>)
    ensures Valid(c) ==> ValidExcept(r, key)
    ensures r.stats == c.stats && r.name == c.name && r.maxSize == c.maxSize && r.defaultTtl == c.defaultTtl
    ensures !Evicts(c, key) ==> r.data == c.data
    ensures Valid(c) && Evicts(c, key) && |c.accessOrder| > 0 ==> r.data == c.data - {c.accessOrder[0]}
    ensures forall k :: k in r.data ==> k in c.data && r.data[k] == c.data[k]
  {
    var order := if key in c.data then Without(c.accessOrder, key) else c.accessOrder;
    if Evicts(c, key) && |order| > 0 then
      var r := c.(data := c.data - {order[0]}, accessOrder := order[1..]);
      if Valid(c) then
        Helpers.DistinctTail(order);
        assert forall x :: x in order <==> x == order[0] || x in order[1..];
        r
      else r
    else c.(accessOrder := order)
  }

  /** `cache.set(key, value, ttl)` at time `now`; a `ttl` of 0 is the falsy
      one and uses the cache's default. */
  function Set<V>(c: Cache<V>, key: string, value: V, ttl: int, now: int): (r: Cache<V>)
    ensures key in r.data && r.data[key] == Entry(value, now + (if ttl == 0 then c.defaultTtl else ttl))
    ensures |r.accessOrder| > 0 && r.accessOrder[|r.accessOrder| - 1] == key
    ensures r.stats == c.stats.(sets := c.stats.sets + 1,
                                evictions := c.stats.evictions + (if Evicts(c, key) then 1 else 0))
    ensures r.name == c.name && r.maxSize == c.maxSize && r.defaultTtl == c.defaultTtl
  {
    var expiresAt := now + (if ttl == 0 then c.defaultTtl else ttl);
    var room := MakeRoom(c, key);
    var stats := c.stats.(sets := c.stats.sets + 1, evictions := c.stats.evictions + (if Evicts(c, key) then 1 else 0));
    Store(room, key, Entry(value, expiresAt), stats)
  }

  /** `set` keeps the cache consistent. */
  lemma SetKeepsValid<V>(c: Cache<V>, key: string, value: V, ttl: int, now: int)
    requires Valid(c)
    ensures Valid(Set(c, key, value, ttl, now))
  {
    var e := Entry(value, now + (if ttl == 0 then c.defaultTtl else ttl));
    var stats := c.stats.(sets := c.stats.sets + 1, evictions := c.stats.evictions + (if Evicts(c, key) then 1 else 0));
    StoreKeepsValid(MakeRoom(c, key), key, e, stats);
  }

  /** The second half of `set`: the entry stored, the key appended to
      `accessOrder`, the counters replaced. */
  function Store<V>(room: Cache<V>, key: string, e: Entry<V>, stats: Stats): (r: Cache<V>)
    ensures r.name == room.name && r.maxSize == room.maxSize && r.defaultTtl == room.defaultTtl
    ensures r.data == room.data[key := e] && r.accessOrder == room.accessOrder + [key] && r.stats == stats
  {
    Cache(room.name, room.maxSize, room.defaultTtl, room.data[key := e], room.accessOrder + [key], stats)
  }

  /** Storing `key` and appending it to `accessOrder` completes a cache
      that was valid but for `key`. */
  lemma StoreKeepsValid<V>(room: Cache<V>, key: string, e: Entry<V>, stats: Stats)
    requires ValidExcept(room, key)
    ensures Valid(Store(room, key, e, stats))
  {
    var order := room.accessOrder + [key];
    Helpers.DistinctCons(key, room.accessOrder);
    assert forall k :: k in order <==> k in room.accessOrder || k == key;
  }

  /** `set` touches no other entry: every other key it keeps holds the
      entry it held before. */
  lemma SetKeepsOthers<V>(c: Cache<V>, key: string, value: V, ttl: int, now: int, k: string)
    requires k in Set(c, key, value, ttl, now).data && k != key
    ensures k in c.data && Set(c, key, value, ttl, now).data[k] == c.data[k]
  {
    var room := MakeRoom(c, key);
    assert Set(c, key, value, ttl, now).data[k] == room.data[k];
  }

  /** Which keys `set` leaves: the old ones plus `key`, less the least
      recently used one when it evicts. */
  lemma SetKeys<V>(c: Cache<V>, key: string, value: V, ttl: int, now: int)
    ensures !Evicts(c, key) ==> Set(c, key, value, ttl, now).data.Keys == c.data.Keys + {key}
    ensures Valid(c) && Evicts(c, key) && |c.accessOrder| > 0 ==>
              Set(c, key, value, ttl, now).data.Keys == c.data.Keys - {c.accessOrder[0]} + {key}
  {
    var room := MakeRoom(c, key);
    assert Set(c, key, value, ttl, now).data.Keys == room.data.Keys + {key};
  }

  /** With room for at least one entry, `set` never grows a cache past
      `maxSize`: a new key arriving at a full cache pushes the least
      recently used one out. */
  lemma SetKeepsCapacity<V>(c: Cache<V>, key: string, value: V, ttl: int, now: int)
    requires Valid(c) && 1 <= c.maxSize && |c.data| <= c.maxSize
    ensures |Set(c, key, value, ttl, now).data| <= c.maxSize
  {
    var r := Set(c, key, value, ttl, now);
    SizeOfValid(c);
    SetKeys(c, key, value, ttl, now);
    if Evicts(c, key) {
      assert c.accessOrder[0] in c.data.Keys;
      assert r.data.Keys == c.data.Keys - {c.accessOrder[0]} + {key};
      assert |r.data.Keys| <= |c.data.Keys| - 1 + 1;
    } else {
      assert r.data.Keys == c.data.Keys + {key};
      if key !in c.data {
        assert |c.data| < c.maxSize;
      }
    }
  }

  // ---------------------------------------------------------------------------
  // get, delete, clear, cleanup
  // ---------------------------------------------------------------------------

  /** `cache.delete(key)`. */
  function Delete<V>(c: Cache<V>, key: string): (r: Cache<V>)
    ensures Valid(c) ==> Valid(r)
    ensures key !in r.data && r.data.Keys == c.data.Keys - {key}
    ensures forall k :: k in r.data ==> r.data[k] == c.data[k]
    ensures key !in r.accessOrder && forall k :: k != key ==> (k in r.accessOrder <==> k in c.accessOrder)
    ensures r.stats == c.stats && r.name == c.name && r.maxSize == c.maxSize && r.defaultTtl == c.defaultTtl
  {
    c.(data := c.data - {key}, accessOrder := Without(c.accessOrder, key))
  }

  /** An entry is stale once the clock has passed its expiry; at the expiry
      instant itself it is still served. */
  predicate Expired<V>(c: Cache<V>, key: string, now: int)
    requires key in c.data
  {
    now > c.data[key].expiresAt
  }

  /** `cache.get(key)` at time `now`: the value (`None` is `undefined`) and the
      cache afterwards. */
  function Get<V>(c: Cache<V>, key: string, now: int): (res: (Option<V>, Cache<V>))
    ensures Valid(c) ==> Valid(res.1)
    ensures key !in c.data ==> res == (None, c.(stats := c.stats.(misses := c.stats.misses + 1)))
    ensures key in c.data && Expired(c, key, now) ==>
              res.0 == None && res.1.data.Keys == c.data.Keys - {key}
              && res.1.stats == c.stats.(misses := c.stats.misses + 1)
    ensures key in c.data && !Expired(c, key, now) ==>
              && res.0 == Some(c.data[key].value)
              && res.1.data == c.data
              && |res.1.accessOrder| > 0 && res.1.accessOrder[|res.1.accessOrder| - 1] == key
              && res.1.stats == c.stats.(hits := c.stats.hits + 1)
  {
    if key !in c.data then (None, c.(stats := c.stats.(misses := c.stats.misses + 1)))
    else if now > c.data[key].expiresAt then
      var d := Delete(c, key);
      (None, d.(stats := d.stats.(misses := d.stats.misses + 1)))
    else
      var order := Without(c.accessOrder, key) + [key];
      assert Helpers.Distinct(c.accessOrder) ==> Helpers.Distinct(order) by {
        if Helpers.Distinct(c.accessOrder) {
          Helpers.DistinctCons(key, Without(c.accessOrder, key));
        }
      }
      (Some(c.data[key].value), c.(accessOrder := order, stats := c.stats.(hits := c.stats.hits + 1)))
  }

  /** A value that was just set is served until its expiry, inclusive. */
  lemma SetThenGet<V>(c: Cache<V>, key: string, value: V, ttl: int, now: int, later: int)
    requires later <= now + (if ttl == 0 then c.defaultTtl else ttl)
    ensures Get(Set(c, key, value, ttl, now), key, later).0 == Some(value)
  {
  }

  /** `cache.clear()`: both structures emptied, counters kept. */
  function Clear<V>(c: Cache<V>): (r: Cache<V>)
    ensures Valid(r) && |r.data| == 0
    ensures r.stats == c.stats && r.name == c.name && r.maxSize == c.maxSize && r.defaultTtl == c.defaultTtl
  {
    c.(data := map[], accessOrder := [])
  }

  /** The `for ... of data.entries()` loop of `cleanup`, visiting `keys` in
      order and deleting each one that has expired. */
  function Sweep<V>(c: Cache<V>, now: int, keys: seq<string>): (r: Cache<V>)
    ensures Valid(c) ==> Valid(r)
    ensures r.stats == c.stats && r.name == c.name && r.maxSize == c.maxSize && r.defaultTtl == c.defaultTtl
    ensures forall k :: k in r.data ==> k in c.data && r.data[k] == c.data[k]
    decreases |keys|
  {
    if |keys| == 0 then c
    else
      var k := keys[0];
      var next := if k in c.data && now > c.data[k].expiresAt then Delete(c, k) else c;
      Sweep(next, now, keys[1..])
  }

  /** Whatever order the keys are visited in, the sweep keeps exactly the
      entries that were not visited or have not expired. */
  lemma {:induction false} SweepKeeps<V>(c: Cache<V>, now: int, keys: seq<string>, k: string)
    ensures k in Sweep(c, now, keys).data <==> k in c.data && (k !in keys || !Expired(c, k, now))
    decreases |keys|
  {
    if |keys| > 0 {
      var x := keys[0];
      var next := if x in c.data && now > c.data[x].expiresAt then Delete(c, x) else c;
      SweepKeeps(next, now, keys[1..], k);
      assert k in keys <==> k == x || k in keys[1..];
    }
  }

  /** `cache.cleanup()` at time `now`; the loop visits every key. */
  function Cleanup<V>(c: Cache<V>, now: int): (r: Cache<V>)
    ensures Valid(c) ==> Valid(r)
    ensures r.stats == c.stats
    ensures forall k :: k in r.data ==> k in c.data && r.data[k] == c.data[k]
  {
    Sweep(c, now, c.accessOrder)
  }

  /** Cleanup removes exactly the expired entries and nothing else. */
  lemma CleanupRemovesExactlyExpired<V>(c: Cache<V>, now: int, k: string)
    requires Valid(c)
    ensures k in Cleanup(c, now).data <==> k in c.data && !Expired(c, k, now)
  {
    SweepKeeps(c, now, c.accessOrder, k);
  }

  // ---------------------------------------------------------------------------
  // The registry of named caches
  // ---------------------------------------------------------------------------

  /** `getCache(name, options)`: the named cache, created from `{ name,
      ...options }` on first use (a `name` in the options wins over the
      argument); the registry afterwards. */
  function GetCache<V>(registry: map<string, Cache<V>>, name: string, options: Options): (res: (Cache<V>, map<string, Cache<V>>))
    ensures name in res.1 && res.0 == res.1[name]
    ensures name in registry ==> res == (registry[name], registry)
    ensures name !in registry ==> res.1 == registry[name := res.0] && Valid(res.0) && |res.0.data| == 0
    ensures name !in registry ==>
              res.0.name == (var given := options.name.GetOr(name); if given == "" then "default" else given)
  {
    if name in registry then (registry[name], registry)
    else
      var c := NewCache(options.name.GetOr(name), options.maxSize, options.ttl);
      (c, registry[name := c])
  }

  /** The same name yields the same cache, whatever options a later call
      passes. */
  lemma GetCacheIsStable<V>(registry: map<string, Cache<V>>, name: string, first: Options, second: Options)
    ensures var (c, reg) := GetCache(registry, name, first);
            GetCache(reg, name, second) == (c, reg)
  {
  }

  /** `clearAll()`: every registered cache cleared. */
  function ClearAll<V>(registry: map<string, Cache<V>>): (r: map<string, Cache<V>>)
    ensures r.Keys == registry.Keys
    ensures forall n :: n in r ==> |r[n].data| == 0 && r[n].stats == registry[n].stats
  {
    map n | n in registry :: Clear(registry[n])
  }

  /** The three caches the page sets up, `ttl` 5, 2 and 10 minutes. */
  lemma PageCaches()
    ensures var (d, r1) := GetCache<int>(map[], "default", NoOptions);
            var (a, r2) := GetCache(r1, "api", Options(None, 0, 2 * 60 * 1000));
            var (p, r3) := GetCache(r2, "compute", Options(None, 0, 10 * 60 * 1000));
            && d.defaultTtl == 300000 && a.defaultTtl == 120000 && p.defaultTtl == 600000
            && d.maxSize == 100 && r3.Keys == {"default", "api", "compute"}
            && r3["default"] == d
  {
  }
}
