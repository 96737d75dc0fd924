/**
 * One shard under its reader-writer lock. Readers share the lock, so the steps of several reads
 * (cache, index, segment, cache again) interleave; a writer, the compactor and a resize run
 * alone. Every answer is that of a plain map, in every interleaving.
 */
module Readers {
  import opened Base
  import opened Bytes
  import opened IndexLog
  import opened Storage
  import opened ShardEngine
  import opened Lru
  import opened Compaction
  import opened Shards
  import opened Cores
  import Commands

  /** Where a thread that holds the lock is in its read. */
  datatype Reader =
    | Started(k: Key)
    | Missed(k: Key)
    | Located(k: Key, loc: Location)
    | Loaded(k: Key, loc: Location, value: Value)
    | Answered(k: Key, reply: Reply)
    | Scanning(matches: Key -> bool, todo: seq<(Key, Location)>, rows: seq<(Key, Value)>)

  /** The shard, the threads holding the lock for reading, and the map the shard should be. */
  datatype State = State(core: Core, readers: map<nat, Reader>, spec: KeyValues)

  // ------------------------------------------------------------------ writers

  datatype Write =
    | Set(k: Key, v: Value)
    | Del(k: Key)
    | SetBy(matches: Key -> bool, keys: seq<Key>, v: Value)
    | DelBy(matches: Key -> bool, keys: seq<Key>)
    | Compacting(order: seq<Key>)
    | Resize(capacity: nat, segSize: U64)

  ghost predicate WriteEnabled(c: Core, w: Write) {
    match w
    case Set(_, v) => v != ""
    case SetBy(p, keys, v) => v != "" && Enumerates(keys, set k | k in TableOf(c.engine) && p(k))
    case DelBy(p, keys) => Enumerates(keys, set k | k in TableOf(c.engine) && p(k))
    case Compacting(order) => Enumerates(order, TableOf(c.engine).Keys)
    case _ => true
  }

  /** What a write does to the shard; the compactor does not touch the cache. */
  ghost function WriteCore(c: Core, w: Write): Core
    requires WriteEnabled(c, w)
  {
    match w
    case Set(k, v) => SetOne(c, k, v)
    case Del(k) => DelOne(c, k)
    case SetBy(_, keys, v) => SetMany(c, keys, v)
    case DelBy(_, keys) => DelMany(c, keys)
    case Compacting(order) => c.(engine := Compact(c.engine, order, c.segSize))
    case Resize(capacity, segSize) => c.(cache := ResizeStep(c.cache, capacity), segSize := segSize)
  }

  /** What a write does to the map; a refused append leaves it alone. */
  ghost function WriteSpec(m: KeyValues, w: Write, c: Core): KeyValues {
    match w
    case Set(k, v) => if Refused(c.engine.store, v, c.segSize) then m else m[k := v]
    case Del(k) => m - {k}
    case SetBy(p, keys, v) => AllSet(m, Accepted(c.engine, keys, v, c.segSize), v)
    case DelBy(p, _) => map k | k in m && !p(k) :: m[k]
    case Compacting(_) => m
    case Resize(_, _) => m
  }

  // ------------------------------------------------------------------ readers

  /** The next step of a read; a scan ends by itself when nothing is left. */
  ghost predicate ReadStep(c: Core, r: Reader, c': Core, r': Reader) {
    match r
    case Started(k) =>
      && c' == c.(cache := GetStep(c.cache, k))
      && r' == if k in c.cache.entries then Answered(k, Found(c.cache.entries[k].value)) else Missed(k)
    case Missed(k) =>
      c' == c && r' == if k in TableOf(c.engine) then Located(k, TableOf(c.engine)[k]) else Answered(k, KeyNotFound)
    case Located(k, loc) =>
      var value := ReadAt(c.engine.store.segs, loc);
      c' == c && r' == if value == "" then Answered(k, ReadFailed) else Loaded(k, loc, value)
    case Loaded(k, loc, value) =>
      c' == c.(cache := PutStep(c.cache, k, CacheEntry(loc, value))) && r' == Answered(k, Found(value))
    case Answered(_, _) => false
    case Scanning(p, todo, rows) =>
      && c' == c && todo != []
      && var value := ReadAt(c.engine.store.segs, todo[0].1);
         r' == Scanning(p, todo[1..], if value == "" then rows else rows + [(todo[0].0, value)])
  }

  ghost predicate Finished(r: Reader) {
    r.Answered? || (r.Scanning? && r.todo == [])
  }

  /** The entries `findMatching` returns: all matching ones in table order. */
  ghost predicate Matching(t: Table, p: Key -> bool, todo: seq<(Key, Location)>) {
    && Enumerates(seq(|todo|, i requires 0 <= i < |todo| => todo[i].0), set k | k in t && p(k))
    && forall i :: 0 <= i < |todo| ==> todo[i].0 in t && todo[i].1 == t[todo[i].0]
  }

  ghost predicate BeginGet(s: State, s': State, t: nat, k: Key) {
    t !in s.readers && s' == s.(readers := s.readers[t := Started(k)])
  }

  ghost predicate BeginScan(s: State, s': State, t: nat, p: Key -> bool, todo: seq<(Key, Location)>) {
    && t !in s.readers && Matching(TableOf(s.core.engine), p, todo)
    && s' == s.(readers := s.readers[t := Scanning(p, todo, [])])
  }

  ghost predicate Advance(s: State, s': State, t: nat, r': Reader) {
    && t in s.readers && ReadStep(s.core, s.readers[t], s'.core, r')
    && s' == State(s'.core, s.readers[t := r'], s.spec)
  }

  ghost predicate Release(s: State, s': State, t: nat) {
    t in s.readers && Finished(s.readers[t]) && s' == s.(readers := s.readers - {t})
  }

  /** A writer waits until no thread reads. */
  ghost predicate WriteAlone(s: State, s': State, w: Write) {
    && s.readers == map[] && WriteEnabled(s.core, w)
    && s' == State(WriteCore(s.core, w), map[], WriteSpec(s.spec, w, s.core))
  }

  ghost predicate Next(s: State, s': State) {
    || (exists t, k :: BeginGet(s, s', t, k))
    || (exists t, p, todo :: BeginScan(s, s', t, p, todo))
    || (exists t, r' :: Advance(s, s', t, r'))
    || (exists t :: Release(s, s', t))
    || (exists w :: WriteAlone(s, s', w))
  }

  /** A run starts from any shard that stands for its map, as a booted one does. */
  ghost predicate IsRun(run: seq<State>) {
    && run != []
    && run[0].readers == map[] && CoreInv(run[0].core, run[0].spec)
    && forall i :: 0 <= i < |run| - 1 ==> Next(run[i], run[i + 1])
  }

  // -------------------------------------------------------------- invariant

  /** Of all matching entries the first ones are listed and the others are to do. */
  ghost predicate Halfway(t: Table, m: KeyValues, p: Key -> bool, todo: seq<(Key, Location)>, rows: seq<(Key, Value)>,
                          all: seq<(Key, Location)>) {
    && Matching(t, p, all) && |rows| + |todo| == |all| && todo == all[|rows|..]
    && forall i :: 0 <= i < |rows| ==> all[i].0 in m && rows[i] == (all[i].0, m[all[i].0])
  }

  /** What a thread knows, whatever the other readers do to the cache. */
  ghost predicate ReaderInv(e: Engine, m: KeyValues, r: Reader) {
    match r
    case Started(_) => true
    case Missed(_) => true
    case Located(k, loc) => k in TableOf(e) && TableOf(e)[k] == loc
    case Loaded(k, loc, value) => k in TableOf(e) && TableOf(e)[k] == loc && Lookup(m, k) == Some(value)
    case Answered(k, reply) => reply == if k in m then Found(m[k]) else KeyNotFound
    case Scanning(p, todo, rows) =>
      exists all :: Halfway(TableOf(e), m, p, todo, rows, all)
  }

  ghost predicate Inv(s: State) {
    && CoreInv(s.core, s.spec)
    && forall t :: t in s.readers ==> ReaderInv(s.core.engine, s.spec, s.readers[t])
  }

  // ------------------------------------------------------ writers keep it

  /** A write does to the shard what it does to the map. */
  lemma WriteInv(c: Core, m: KeyValues, w: Write)
    requires CoreInv(c, m) && WriteEnabled(c, w)
    ensures CoreInv(WriteCore(c, w), WriteSpec(m, w, c))
  {
    hide SetOne, SetMany, DelOne, DelMany, Compact, Sound, ResizeStep, Replay, AllSet, KeySet;
    ViewKeys(c.engine);
    match w
    case Set(k, v) => SetOneInv(c, m, k, v);
    case Del(k) => DelOneInv(c, m, k);
    case SetBy(p, keys, v) => SetManyInv(c, m, keys, v);
    case DelBy(p, keys) =>
      DelManyInv(c, m, keys);
      DelByView(m, keys, p);
    case Compacting(order) => CompactPreserves(c.engine, order, c.segSize);
    case Resize(capacity, _) => ResizeValid(c.cache, capacity);
  }

  /**
   * While an append is refused for its size only, writers do what the commands of the whole
   * database do, unlimited, and all or nothing; compaction and a resize change nothing.
   */
  lemma WritesAreCommands(c: Core, m: KeyValues, w: Write)
    requires CoreInv(c, m) && WriteEnabled(c, w) && c.segSize < MAX_U64
    ensures WriteSpec(m, w, c) ==
            match w
            case Set(k, v) => if |v| <= c.segSize then Commands.Apply(Commands.Set(k, v), m) else m
            case Del(k) => Commands.Apply(Commands.Del(k), m)
            case SetBy(p, _, v) => if |v| <= c.segSize then Commands.Apply(Commands.SetBy(p, v, None), m) else m
            case DelBy(p, _) => Commands.Apply(Commands.DelBy(p, None), m)
            case Compacting(_) => m
            case Resize(_, _) => m
  {
    ViewKeys(c.engine);
    if w.SetBy? {
      AcceptedAll(c.engine, w.keys, w.v, c.segSize);
      AllSetEmpty(m, w.v);
    }
    hide Accepted, Sound, CacheAgrees, Lru.Valid, TableOf;
  }

  /** A compaction leaves exactly the segments that the index names, and the cache as it was. */
  lemma CompactingTrims(c: Core, m: KeyValues, order: seq<Key>)
    requires CoreInv(c, m) && WriteEnabled(c, Compacting(order))
    ensures var c' := WriteCore(c, Compacting(order));
            && c'.engine.store.segs.Keys == Referenced(TableOf(c'.engine)) && c'.cache == c.cache
  {
    CompactPreserves(c.engine, order, c.segSize);
    hide Compact, Replay, Sound;
  }

  /** Capacity and segment size are those of the last resize. */
  lemma ResizeTakes(c: Core, w: Write)
    requires WriteEnabled(c, w)
    ensures var c' := WriteCore(c, w);
            if w.Resize? then c'.cache.capacity == w.capacity && c'.segSize == w.segSize && c'.engine == c.engine
            else c'.cache.capacity == c.cache.capacity && c'.segSize == c.segSize
  {
    match w
    case Set(k, v) => CapacityStays(c, [k], v);
    case Del(k) => CapacityStays(c, [k], "");
    case SetBy(_, keys, v) => CapacityStays(c, keys, v);
    case DelBy(_, keys) => CapacityStays(c, keys, "");
    case _ =>
  }

  // ------------------------------------------------------ readers keep it

  lemma ScanInv(c: Core, m: KeyValues, r: Reader, r': Reader)
    requires CoreInv(c, m) && r.Scanning? && ReaderInv(c.engine, m, r) && ReadStep(c, r, c, r')
    ensures ReaderInv(c.engine, m, r')
  {
    hide Sound, View, Lru.Valid, CacheAgrees, ReadAt, Replay;
    var all: seq<(Key, Location)> :| Halfway(TableOf(c.engine), m, r.matches, r.todo, r.rows, all);
    var n := |r.rows|;
    assert r.todo[0] == all[n];
    StoredValue(c.engine, all[n].0);
    assert r'.rows == r.rows + [(all[n].0, m[all[n].0])];
    assert Halfway(TableOf(c.engine), m, r.matches, r'.todo, r'.rows, all);
  }

  lemma {:induction false} ReadInv(c: Core, m: KeyValues, r: Reader, c': Core, r': Reader)
    requires CoreInv(c, m) && ReaderInv(c.engine, m, r) && ReadStep(c, r, c', r')
    ensures CoreInv(c', m) && c'.engine == c.engine && ReaderInv(c.engine, m, r')
  {
    hide Sound, View, GetStep, PutStep, ReadAt, Replay, Matching;
    ViewKeys(c.engine);
    match r
    case Started(k) => HitInv(c, m, k);
    case Missed(k) =>
    case Located(k, loc) => StoredValue(c.engine, k);
    case Loaded(k, loc, value) => PutInv(c, m, k, loc, value);
    case Answered(_, _) =>
    case Scanning(p, todo, rows) => ScanInv(c, m, r, r');
  }

  /** `n` steps of one read while nobody else reads. */
  ghost predicate Reads(c: Core, r: Reader, c': Core, r': Reader, n: nat)
    decreases n
  {
    if n == 0 then c' == c && r' == r
    else exists c1, r1 :: ReadStep(c, r, c1, r1) && Reads(c1, r1, c', r', n - 1)
  }

  /** Taken alone, the steps of a read are `get`: the same answer and the same cache. */
  lemma ReadsAsGet(c: Core, m: KeyValues, k: Key) returns (n: nat)
    requires CoreInv(c, m)
    ensures var (c', found) := GetOne(c, k);
            Reads(c, Started(k), c', Answered(k, if found.Some? then Found(found.value) else KeyNotFound), n)
  {
    ViewKeys(c.engine);
    UncachedStays(c.cache, k);
    var (c', found) := GetOne(c, k);
    var end := Answered(k, if found.Some? then Found(found.value) else KeyNotFound);
    hide Reads, Sound, CacheAgrees, Replay;
    ReadsNone(c', end);
    if k in c.cache.entries {
      ReadsOne(c, Started(k), c', end, c', end, 0);
      return 1;
    }
    if k !in TableOf(c.engine) {
      ReadsOne(c, Missed(k), c', end, c', end, 0);
      ReadsOne(c, Started(k), c, Missed(k), c', end, 1);
      return 2;
    }
    StoredValue(c.engine, k);
    var loc := TableOf(c.engine)[k];
    ReadsOne(c, Loaded(k, loc, m[k]), c', end, c', end, 0);
    ReadsOne(c, Located(k, loc), c, Loaded(k, loc, m[k]), c', end, 1);
    ReadsOne(c, Missed(k), c, Located(k, loc), c', end, 2);
    ReadsOne(c, Started(k), c, Missed(k), c', end, 3);
    return 4;
  }

  lemma ReadsNone(c: Core, r: Reader)
    ensures Reads(c, r, c, r, 0)
  {
  }

  lemma ReadsOne(c: Core, r: Reader, c1: Core, r1: Reader, c': Core, r': Reader, n: nat)
    requires ReadStep(c, r, c1, r1) && Reads(c1, r1, c', r', n)
    ensures Reads(c, r, c', r', n + 1)
  {
    hide ReadStep;
  }

  lemma {:induction false} NextInv(s: State, s': State)
    requires Inv(s) && Next(s, s')
    ensures Inv(s')
  {
    hide CoreInv, ReadStep, WriteEnabled, WriteCore, WriteSpec, TableOf;
    if t, r' :| Advance(s, s', t, r') {
      ReadInv(s.core, s.spec, s.readers[t], s'.core, r');
    } else if w :| WriteAlone(s, s', w) {
      WriteInv(s.core, s.spec, w);
    } else if t, p, todo :| BeginScan(s, s', t, p, todo) {
      assert Halfway(TableOf(s.core.engine), s.spec, p, todo, [], todo);
    }
  }

  lemma {:induction false} RunInv(run: seq<State>, i: nat)
    requires IsRun(run) && i < |run|
    ensures Inv(run[i])
  {
    if i > 0 {
      RunInv(run, i - 1);
      NextInv(run[i - 1], run[i]);
    }
  }

  /**
   * In every run, at every moment, every answered `get` holds what the map holds under that key,
   * and every finished scan has listed each matching pair of the map exactly once.
   */
  lemma {:induction false} AnswersAreTheMaps(run: seq<State>, i: nat, t: nat)
    requires IsRun(run) && i < |run| && t in run[i].readers
    ensures var m := run[i].spec; var r := run[i].readers[t];
            && (r.Answered? ==> r.reply == if r.k in m then Found(m[r.k]) else KeyNotFound)
            && (r.Scanning? && r.todo == [] ==>
                  Enumerates(r.rows, set k | k in m && r.matches(k) :: (k, m[k])))
  {
    RunInv(run, i);
    var s, r := run[i], run[i].readers[t];
    hide IsRun, Next, CacheAgrees, Lru.Valid, Sound;
    ViewKeys(s.core.engine);
    if r.Scanning? && r.todo == [] {
      ScanComplete(s.core.engine, s.spec, r);
    }
  }

  lemma {:induction false} ScanComplete(e: Engine, m: KeyValues, r: Reader)
    requires r.Scanning? && r.todo == [] && ReaderInv(e, m, r) && m.Keys == TableOf(e).Keys
    ensures Enumerates(r.rows, set k | k in m && r.matches(k) :: (k, m[k]))
  {
    hide Replay;
    var all: seq<(Key, Location)> :| Halfway(TableOf(e), m, r.matches, r.todo, r.rows, all);
    var keys := seq(|all|, i requires 0 <= i < |all| => all[i].0);
    assert (set k | k in TableOf(e) && r.matches(k)) == set k | k in m && r.matches(k);
    var found := set k | k in m && r.matches(k);
    RowsEnumerate(r.rows, keys, m, found);
    assert (set k | k in found :: (k, m[k])) == set k | k in m && r.matches(k) :: (k, m[k]);
  }
}
