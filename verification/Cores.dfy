/**
 * One shard as a value: engine, cache and segment size together, and what each operation does to
 * them and to the map they stand for.
 */
module Cores {
  import opened Base
  import opened Bytes
  import opened IndexLog
  import opened Storage
  import opened ShardEngine
  import opened Lru

  /** What a shard holds. */
  datatype Core = Core(engine: Engine, cache: Cache, segSize: U64)

  /** `Shard::get` from cache to index to segment, without other readers in between. */
  function GetOne(c: Core, k: Key): (Core, Option<Value>) {
    var hit := c.(cache := GetStep(c.cache, k));
    if k in c.cache.entries then (hit, Some(c.cache.entries[k].value))
    else if k !in TableOf(c.engine) then (hit, None)
    else
      var loc := TableOf(c.engine)[k];
      var value := ReadAt(c.engine.store.segs, loc);
      if value == "" then (hit, None) else (hit.(cache := PutStep(hit.cache, k, CacheEntry(loc, value))), Some(value))
  }

  function SetOne(c: Core, k: Key, v: Value): Core {
    var (e, ok) := SetStep(c.engine, k, v, c.segSize);
    if ok && k in TableOf(e) then Core(e, PutStep(c.cache, k, CacheEntry(TableOf(e)[k], v)), c.segSize)
    else c.(engine := e)
  }

  function SetMany(c: Core, keys: seq<Key>, v: Value): Core {
    if keys == [] then c else SetOne(SetMany(c, keys[..|keys| - 1], v), keys[|keys| - 1], v)
  }

  function DelOne(c: Core, k: Key): Core {
    c.(engine := DelStep(c.engine, k).0, cache := RemoveStep(c.cache, k))
  }

  function DelMany(c: Core, keys: seq<Key>): Core {
    if keys == [] then c else DelOne(DelMany(c, keys[..|keys| - 1]), keys[|keys| - 1])
  }

  /** A cached value is the stored one. The cached location may be stale: compaction moves values. */
  ghost predicate CacheAgrees(c: Cache, m: map<Key, Value>) {
    forall k :: k in c.entries ==> k in m && c.entries[k].value == m[k]
  }

  lemma PutAgrees(c: Cache, m: map<Key, Value>, k: Key, e: CacheEntry)
    requires Lru.Valid(c) && forall x :: x in c.entries && x != k ==> x in m && c.entries[x].value == m[x]
    requires k in m && m[k] == e.value
    requires c.capacity == 0 ==> c.entries == map[]
    ensures CacheAgrees(PutStep(c, k, e), m)
  {
    PutValid(c, k, e);
  }

  lemma EmptyCache(c: Cache)
    requires Lru.Valid(c)
    ensures c.capacity == 0 ==> c.entries == map[]
  {
    if c.entries != map[] {
      var k :| k in c.entries;
      assert k in c.order;
    }
  }

  /** The shard stands for the map, and so does what is cached. */
  ghost predicate CoreInv(c: Core, m: KeyValues) {
    Sound(c.engine) && Lru.Valid(c.cache) && View(c.engine) == m && CacheAgrees(c.cache, m)
  }

  lemma SetOneInv(c: Core, m: KeyValues, k: Key, v: Value)
    requires CoreInv(c, m) && v != ""
    ensures CoreInv(SetOne(c, k, v), if Refused(c.engine.store, v, c.segSize) then m else m[k := v])
    ensures SetOne(c, k, v).engine == SetStep(c.engine, k, v, c.segSize).0
    ensures SetOne(c, k, v).segSize == c.segSize && (SetStep(c.engine, k, v, c.segSize).1 <==> !Refused(c.engine.store, v, c.segSize))
  {
    hide SetStep, Sound, PutStep, Refused;
    SetSpec(c.engine, k, v, c.segSize);
    var (e, ok) := SetStep(c.engine, k, v, c.segSize);
    ViewKeys(e);
    if ok {
      var entry := CacheEntry(TableOf(e)[k], v);
      PutValid(c.cache, k, entry);
      EmptyCache(c.cache);
      PutAgrees(c.cache, m[k := v], k, entry);
    }
  }

  lemma {:induction false} SetManyInv(c: Core, m: KeyValues, keys: seq<Key>, v: Value)
    requires CoreInv(c, m) && v != ""
    ensures CoreInv(SetMany(c, keys, v), AllSet(m, Accepted(c.engine, keys, v, c.segSize), v))
    ensures SetMany(c, keys, v).segSize == c.segSize
    ensures (SetMany(c, keys, v).engine, |Accepted(c.engine, keys, v, c.segSize)|) == SetAll(c.engine, keys, v, c.segSize)
  {
    hide CoreInv, SetOne, AllSet, Refused, SetStep;
    if keys == [] {
      AllSetEmpty(m, v);
    } else {
      var front, k := keys[..|keys| - 1], keys[|keys| - 1];
      SetManyInv(c, m, front, v);
      var done := Accepted(c.engine, front, v, c.segSize);
      SetOneInv(SetMany(c, front, v), AllSet(m, done, v), k, v);
      AllSetMore(m, done, k, v);
    }
  }

  lemma {:induction false} DelOneInv(c: Core, m: KeyValues, k: Key)
    requires CoreInv(c, m)
    ensures CoreInv(DelOne(c, k), m - {k}) && DelOne(c, k).segSize == c.segSize
    ensures DelOne(c, k).engine == DelStep(c.engine, k).0 && (DelStep(c.engine, k).1 <==> k in m)
  {
    hide DelStep, Sound;
    DelSpec(c.engine, k);
    TouchEnumerates(c.cache, k);
  }

  lemma {:induction false} DelManyInv(c: Core, m: KeyValues, keys: seq<Key>)
    requires CoreInv(c, m)
    requires (forall k :: k in keys ==> k in m) && forall i, j :: 0 <= i < j < |keys| ==> keys[i] != keys[j]
    ensures CoreInv(DelMany(c, keys), m - KeySet(keys)) && DelMany(c, keys).segSize == c.segSize
    ensures (DelMany(c, keys).engine, |keys|) == DelAll(c.engine, keys)
  {
    hide CoreInv, DelOne, DelStep;
    if keys == [] {
      AllSetEmpty(m, "");
    } else {
      var front, k := keys[..|keys| - 1], keys[|keys| - 1];
      DelManyInv(c, m, front);
      assert k !in front && k in keys;
      DelOneInv(DelMany(c, front), m - KeySet(front), k);
      AllSetStep(m, keys, "");
      assert m - KeySet(front) - {k} == m - KeySet(keys);
    }
  }

  lemma HitInv(c: Core, m: KeyValues, k: Key)
    requires CoreInv(c, m)
    ensures CoreInv(c.(cache := GetStep(c.cache, k)), m)
  {
    hide Sound, View;
    TouchEnumerates(c.cache, k);
    if k in c.cache.entries {
      assert c.cache.entries.Keys + {k} == c.cache.entries.Keys;
    }
  }

  lemma PutInv(c: Core, m: KeyValues, k: Key, loc: Location, value: Value)
    requires CoreInv(c, m) && Lookup(m, k) == Some(value)
    ensures CoreInv(c.(cache := PutStep(c.cache, k, CacheEntry(loc, value))), m)
  {
    hide Sound, View, PutStep;
    var entry := CacheEntry(loc, value);
    PutValid(c.cache, k, entry);
    EmptyCache(c.cache);
    PutAgrees(c.cache, m, k, entry);
  }

  /** A stored value is there and not empty. */
  lemma StoredValue(e: Engine, k: Key)
    requires Sound(e) && k in TableOf(e)
    ensures k in View(e) && View(e)[k] == ReadAt(e.store.segs, TableOf(e)[k]) != ""
  {
  }

  /** A `get` answers as the map. What it read from a segment is cached; a cached key becomes the newest. */
  lemma GetOneInv(c: Core, m: KeyValues, k: Key)
    requires CoreInv(c, m)
    ensures var (c', r) := GetOne(c, k);
            && CoreInv(c', m) && c'.segSize == c.segSize && c'.engine == c.engine && r == Lookup(m, k)
            && c'.cache == if k in c.cache.entries || k !in m then GetStep(c.cache, k)
                           else PutStep(c.cache, k, CacheEntry(TableOf(c.engine)[k], m[k]))
  {
    UncachedStays(c.cache, k);
    HitInv(c, m, k);
    ViewKeys(c.engine);
    if k !in c.cache.entries && k in TableOf(c.engine) {
      StoredValue(c.engine, k);
      PutInv(c.(cache := GetStep(c.cache, k)), m, k, TableOf(c.engine)[k], m[k]);
    }
    hide GetStep, PutStep, Sound, Lru.Valid;
  }

  lemma UncachedStays(c: Cache, k: Key)
    ensures k !in c.entries ==> GetStep(c, k) == c
  {
  }

  /** Only a resize changes the capacity. */
  lemma {:induction false} CapacityStays(c: Core, keys: seq<Key>, v: Value)
    ensures SetMany(c, keys, v).cache.capacity == DelMany(c, keys).cache.capacity == c.cache.capacity
    ensures SetMany(c, keys, v).segSize == DelMany(c, keys).segSize == c.segSize
  {
    if keys != [] {
      CapacityStays(c, keys[..|keys| - 1], v);
      hide SetStep, DelStep;
    }
  }
}
