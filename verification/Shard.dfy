/**
 * The `Shard` object: index, segments and cache acting together as one map. Every method is
 * proved against the plain map the shard stores, `Contents()`.
 */
module Shards {
  import opened Base
  import opened Bytes
  import opened IndexLog
  import opened Storage
  import opened ShardEngine
  import opened Lru
  import opened Compaction
  import opened Cores
  import Selection
  import opened DiskMarks
  import opened Durability

  datatype Reply = Found(value: Value) | Done(rows: nat) | KeyNotFound | ReadFailed | SegmentFull

  lemma {:induction false} ReplaySizes(log: seq<Record>)
    requires forall r :: r in log && !r.tombstone ==> r.loc.size > 0
    ensures forall k :: k in Replay(log) ==> Replay(log)[k].size > 0
  {
    forall k | k in Replay(log)
      ensures Replay(log)[k].size > 0
    {
      ReplaySource(log, k);
    }
  }

  lemma VerifiedBacked(t: Table, files: Segments, segs: Segments)
    requires forall k :: k in t ==> t[k].size > 0
    requires segs == if files == map[] then map[1 := ""] else files
    ensures Verified(t, segs) == Verified(t, files) && Backed(Verified(t, segs), segs)
  {
  }

  lemma CompactedOrder(log: seq<Record>, t: Table) returns (order: seq<Key>)
    requires Compacted(log, t)
    ensures Enumerates(order, t.Keys) && (forall k :: k in order ==> k in t) && log == Entries(t, order)
  {
    order :| Enumerates(order, t.Keys) && log == Entries(t, order);
  }

  lemma AbstractValid(nodes: seq<Node>, table: NodeTable, nextId: nat, capacity: nat)
    requires Linked(nodes, table, nextId) && |nodes| <= capacity
    ensures Lru.Valid(Cache(capacity, KeysOf(nodes), EntriesOf(table)))
  {
  }

  /** The table after the first `n` entries in `order` were verified. */
  function VerifiedUpTo(loaded: Table, segs: Segments, order: seq<Key>, n: nat): Table
    requires n <= |order|
  {
    map k | k in loaded && (k in order[..n] ==> Contained(segs, loaded[k])) :: loaded[k]
  }

  lemma VerifiedNone(loaded: Table, segs: Segments, order: seq<Key>)
    ensures VerifiedUpTo(loaded, segs, order, 0) == loaded
  {
  }

  lemma VerifyOne(loaded: Table, segs: Segments, order: seq<Key>, i: nat)
    requires i < |order| && Enumerates(order, loaded.Keys)
    ensures var k := order[i]; var before := VerifiedUpTo(loaded, segs, order, i);
            && k in loaded && k in before && before[k] == loaded[k]
            && VerifiedUpTo(loaded, segs, order, i + 1) == if Contained(segs, loaded[k]) then before else before - {k}
  {
    var k := order[i];
    assert order[..i + 1] == order[..i] + [k];
    assert k in order && k !in order[..i];
    hide Contained;
  }

  lemma VerifiedAll(loaded: Table, segs: Segments, order: seq<Key>)
    requires Enumerates(order, loaded.Keys)
    ensures VerifiedUpTo(loaded, segs, order, |order|) == Verified(loaded, segs)
  {
    assert order[..|order|] == order;
  }

  class Shard {
    const index: IndexManager
    const storage: StorageManager
    const cache: LRUCache
    var segSize: U64

    ghost function State(): Engine
      reads this, index, storage
    {
      Engine(index.log, storage.Abstract())
    }

    /** All of it as a value. */
    ghost function AsCore(): Core
      reads this, index, storage, cache
    {
      Core(State(), cache.Abstract(), segSize)
    }

    ghost function Contents(): map<Key, Value>
      reads this, index, storage
    {
      View(State())
    }

    ghost predicate Valid()
      reads this, index, storage, cache
    {
      && index.Valid() && storage.Valid() && cache.Valid()
      && Sound(State())
      && CacheAgrees(cache.Abstract(), Contents())
    }

    ghost function OnDisk(): Files
      reads this, index, storage
    {
      Files(State(), index.synced, storage.synced)
    }

    lemma CoreIs()
      ensures AsCore() == Core(State(), cache.Abstract(), segSize)
    {
    }

    /** The shard as a value stands for its map. */
    lemma CoreStands()
      requires Valid()
      ensures CoreInv(AsCore(), Contents())
    {
      CacheIs();
      hide Backs, Marks, Linked, Replay, SerializeAll, Sound, ReadAt, CacheAgrees, Lru.Valid;
    }

    lemma Known()
      requires Valid()
      ensures index.Valid() && storage.Valid() && Sound(State()) && Contents() == View(State())
      ensures State().store == storage.Abstract() && index.memoryTree.Keys == Contents().Keys
      ensures cache.Valid() && CacheAgrees(cache.Abstract(), Contents()) && index.memoryTree == TableOf(State())
    {
      hide Backs, Marks, Linked, Replay, SerializeAll, Sound, ReadAt;
    }

    /**
     * Boots from the files found on disk: the INDEX bytes and the segment files. Entries whose
     * bytes are missing are dropped with a tombstone, then the cache is filled.
     */
    constructor (indexFile: string, segmentFiles: Segments, cacheSize: nat, size: U64)
      requires forall r :: r in Parse(indexFile) && !r.tombstone ==> r.loc.size > 0
      ensures Valid() && segSize == size
      ensures exists d :: Booted(Image(indexFile, segmentFiles), d) && DiskMarks.Tracks(d, OnDisk())
      ensures TableOf(State()) == Verified(Replay(Parse(indexFile)), segmentFiles)
      ensures storage.segs == if segmentFiles == map[] then map[1 := ""] else segmentFiles
      ensures cache.Abstract().capacity == cacheSize && |cache.Abstract().entries| == Min(cacheSize, |Contents()|)
    {
      hide *;
      ReplaySizes(Parse(indexFile));
      segSize := size;
      index := new IndexManager(indexFile);
      storage := new StorageManager(segmentFiles);
      cache := new LRUCache(cacheSize);
      new;
      ghost var base := Boot(Replay(Parse(indexFile)), segmentFiles);
      BootedFrom(Image(indexFile, segmentFiles), base);
    }

    lemma BootedFrom(img: Image, base: seq<Record>)
      requires BootLog(Replay(Parse(img.index)), storage.segs, base, index.log) && index.synced == |SerializeAll(base)|
      requires storage.segs == (if img.segs == map[] then map[1 := ""] else img.segs) && IsLargest(storage.latest, storage.segs.Keys)
      requires storage.synced == map id | id in storage.segs :: |storage.segs[id]|
      ensures exists d :: Booted(img, d) && DiskMarks.Tracks(d, OnDisk())
    {
      hide Booted, DiskMarks.Tracks, BootLog, SerializeAll, Replay, Parse;
      assert Sizes(storage.segs) == storage.synced;
      DiskMarks.BootTracks(img, OnDisk(), base);
    }

    /** Verification of the loaded index against the segments, then cache warm-up. */
    method Boot(ghost loaded: Table, ghost segmentFiles: Segments) returns (ghost base: seq<Record>)
      requires index.Valid() && storage.Valid() && cache.Valid() && cache.Abstract().entries == map[]
      requires index.memoryTree == loaded && Compacted(index.log, loaded) && index.synced == |SerializeAll(index.log)|
      requires forall k :: k in loaded ==> loaded[k].size > 0
      requires storage.segs == if segmentFiles == map[] then map[1 := ""] else segmentFiles
      modifies index, cache, storage`files
      ensures Valid() && storage.Abstract() == old(storage.Abstract())
      ensures BootLog(loaded, storage.segs, base, index.log) && index.synced == |SerializeAll(base)|
      ensures TableOf(State()) == Verified(loaded, segmentFiles)
      ensures cache.Abstract().capacity == old(cache.Abstract()).capacity
      ensures |cache.Abstract().entries| == Min(cache.Abstract().capacity, |Contents()|)
    {
      hide Backs, Marks, Replay, SerializeAll, Linked, Contained, Compacted, Verified, ReadAt, BootLog, KeysOf, EntriesOf, IdsBounded;
      base := index.log;
      VerifyIndexEntries();
      VerifiedBacked(loaded, segmentFiles, storage.segs);
      FillCache();
    }

    method VerifyIndexEntries()
      requires storage.Valid() && index.Valid() && Compacted(index.log, index.memoryTree)
      modifies index
      ensures index.Valid() && index.memoryTree == Verified(old(index.memoryTree), storage.segs)
      ensures BootLog(old(index.memoryTree), storage.segs, old(index.log), index.log) && index.synced == old(index.synced)
    {
      hide Backs, Marks, SerializeAll, Replay, Contained, Compacted, Verified, VerifiedUpTo, Tombstones, IdsBounded, Enumerates;
      ghost var loaded, segs, base := index.memoryTree, storage.segs, index.log;
      var order := KeysInTableOrder(index.memoryTree);
      VerifiedNone(loaded, segs, order);
      NoTombstones(loaded, segs, base);
      for i := 0 to |order|
        invariant index.Valid() && storage.Valid() && storage.segs == segs && index.synced == old(index.synced)
        invariant Tombstones(loaded, segs, base, index.log)
        invariant index.memoryTree == VerifiedUpTo(loaded, segs, order, i)
      {
        var k := order[i];
        VerifyOne(loaded, segs, order, i);
        var loc := index.Search(k);
        var there := storage.Contains(loc.value);
        if !there {
          TombstonesGrow(loaded, segs, base, index.log, k);
          index.Update(k, Record(k, loc.value, true));
        }
      }
      VerifiedAll(loaded, segs, order);
    }

    /** Warms the cache with the first entries of the table: all of them, or as many as it has room for. */
    method FillCache()
      requires Valid()
      modifies cache, storage`files
      ensures Valid() && State() == old(State()) && Contents() == old(Contents())
      ensures var c, c' := old(cache.Abstract()), cache.Abstract();
              c.entries == map[] ==> c'.capacity == c.capacity && |c'.entries| == Min(c.capacity, |Contents()|)
    {
      hide *;
      Known();
      ghost var c0, m := cache.Abstract(), Contents();
      ghost var table := index.memoryTree;
      var order := KeysInTableOrder(index.memoryTree);
      Listed(order, table.Keys);
      CacheIs();
      NothingFilled(c0, order);
      var limit := if cache.capacity < |order| then cache.capacity else |order|;
      for i := 0 to limit
        invariant Valid() && State() == old(State()) && index.memoryTree == table && Contents() == m
        invariant c0.entries == map[] ==> Filled(c0.capacity, cache.Abstract(), order, i)
      {
        ghost var c := cache.Abstract();
        ghost var entry := Warm(order[i]);
        FillOne(c0.capacity, c, order, i, entry);
      }
      FilledSize(c0.capacity, cache.Abstract(), order, limit);
      Least(limit, c0.capacity, |order|);
      SameSize(m, table);
    }

    /** Caches one stored entry. */
    method Warm(key: Key) returns (ghost entry: CacheEntry)
      requires Valid() && key in Contents()
      modifies cache, storage`files
      ensures Valid() && State() == old(State()) && Contents() == old(Contents()) && index.memoryTree == old(index.memoryTree)
      ensures cache.Abstract() == PutStep(old(cache.Abstract()), key, entry)
    {
      hide *;
      Known();
      ghost var m := Contents();
      var loc := index.memoryTree[key];
      var value := ReadStored(key);
      Known();
      StoredNotEmpty(State(), key);
      entry := CacheEntry(loc, value);
      if value != "" {
        OthersAgree(cache.Abstract(), m, key);
        Cache(key, CacheEntry(loc, value), m);
        Standing(m);
      }
    }

    lemma CacheIs()
      requires cache.Valid()
      ensures Lru.Valid(cache.Abstract()) && cache.Abstract().capacity == cache.capacity
    {
      AbstractValid(cache.lruList, cache.table, cache.nextId, cache.capacity);
      hide Linked;
    }

    method Get(key: Key) returns (reply: Reply)
      requires Valid()
      modifies cache, storage`files
      ensures Valid() && State() == old(State())
      ensures AsCore() == GetOne(old(AsCore()), key).0
      ensures reply == if key in Contents() then Found(Contents()[key]) else KeyNotFound
      ensures var before := old(cache.Abstract());
              cache.Abstract() == if key in before.entries || key !in Contents() then GetStep(before, key)
                                  else PutStep(before, key, CacheEntry(index.memoryTree[key], Contents()[key]))
    {
      hide *;
      Known();
      CoreIs();
      CoreStands();
      GetOneInv(AsCore(), Contents(), key);
      reply := Answer(key);
      Known();
      CoreIs();
    }

    /** From cache to index to segment. */
    method Answer(key: Key) returns (reply: Reply)
      requires Valid()
      modifies cache, storage`files
      ensures Valid() && State() == old(State()) && index.memoryTree == old(index.memoryTree)
      ensures reply == if key in Contents() then Found(Contents()[key]) else KeyNotFound
      ensures var before := old(cache.Abstract());
              cache.Abstract() == if key in before.entries || key !in Contents() then GetStep(before, key)
                                  else PutStep(before, key, CacheEntry(index.memoryTree[key], Contents()[key]))
    {
      hide Backs, Marks, Linked, SerializeAll, Replay;
      var cached := cache.Get(key);
      if cached.Some? {
        return Found(cached.value.value);
      }
      var loc := index.Search(key);
      if loc == None {
        return KeyNotFound;
      }
      var value := storage.Read(loc.value);
      if value == "" {
        return ReadFailed;
      }
      Cache(key, CacheEntry(loc.value, value), Contents());
      return Found(value);
    }

    /** Stores an entry in the cache; every other cached value must already agree with `m`. */
    method Cache(key: Key, entry: CacheEntry, ghost m: map<Key, Value>)
      requires cache.Valid() && key in m && m[key] == entry.value
      requires var c := cache.Abstract(); forall x :: x in c.entries && x != key ==> x in m && c.entries[x].value == m[x]
      modifies cache
      ensures cache.Valid() && CacheAgrees(cache.Abstract(), m)
      ensures cache.Abstract() == PutStep(old(cache.Abstract()), key, entry)
    {
      hide Backs, Marks, Linked, PutStep;
      AbstractValid(cache.lruList, cache.table, cache.nextId, cache.capacity);
      EmptyCache(cache.Abstract());
      PutAgrees(cache.Abstract(), m, key, entry);
      cache.Put(key, entry);
    }

    /** Append, then index, then cache; shared by `set` and `setBy`. */
    lemma Stored(c: Core, key: Key, value: Value, ok: bool)
      requires Valid() && c.segSize == segSize && (State(), ok) == SetStep(c.engine, key, value, segSize)
      requires ok ==> key in index.memoryTree
      requires cache.Abstract() == if ok then PutStep(c.cache, key, CacheEntry(index.memoryTree[key], value)) else c.cache
      ensures AsCore() == SetOne(c, key, value)
    {
      Known();
      hide Valid, SetStep, PutStep, State, Replay, Contents;
    }

    method Store(key: Key, value: Value) returns (ok: bool)
      requires Valid() && value != ""
      modifies index, storage, cache
      ensures Valid()
      ensures (State(), ok) == SetStep(old(State()), key, value, segSize)
      ensures ok <==> !Refused(old(storage.Abstract()), value, segSize)
      ensures Contents() == if ok then old(Contents())[key := value] else old(Contents())
      ensures index.synced == old(index.synced) && OpenedSince(old(storage.synced), storage.synced, storage.segs)
      ensures ok ==> key in index.memoryTree
      ensures cache.Abstract() == if ok then PutStep(old(cache.Abstract()), key, CacheEntry(index.memoryTree[key], value)) else old(cache.Abstract())
    {
      hide PutStep;
      hide Backs, Marks, Sound, View, AppendStep, SerializeAll, Replay, Linked, EntriesOf, KeysOf, IdsBounded;
      SetSpec(State(), key, value, segSize);
      var loc := storage.Append(value, segSize);
      if loc == None {
        return false;
      }
      index.Insert(key, loc.value);
      Cache(key, CacheEntry(loc.value, value), Contents());
      return true;
    }

    method Set(key: Key, value: Value) returns (reply: Reply)
      requires Valid() && value != ""
      modifies index, storage, cache
      ensures Valid() && AsCore() == SetOne(old(AsCore()), key, value)
      ensures reply == if Refused(old(storage.Abstract()), value, segSize) then SegmentFull else Done(1)
      ensures Contents() == if reply == SegmentFull then old(Contents()) else old(Contents())[key := value]
      ensures reply != SegmentFull ==>
                key in index.memoryTree && cache.Abstract() == PutStep(old(cache.Abstract()), key, CacheEntry(index.memoryTree[key], value))
      ensures Appends(old(OnDisk()), OnDisk())
    {
      hide *;
      ghost var f := OnDisk();
      OnDiskIs();
      CoreIs();
      ghost var c := AsCore();
      var ok := Store(key, value);
      Stored(c, key, value, ok);
      SetGrows(f.engine, key, value, segSize);
      Appended(f);
      return if ok then Done(1) else SegmentFull;
    }

    /** Since `f`, the shard has only appended. */
    lemma Appended(f: Files)
      requires f.engine.log <= State().log && index.synced == f.indexSynced && OpenedSince(f.synced, storage.synced, storage.segs)
      ensures Appends(f, OnDisk())
    {
      hide Appends, OpenedSince;
      DiskMarks.AppendTracks(f, OnDisk());
    }

    lemma OnDiskIs()
      ensures OnDisk() == Files(State(), index.synced, storage.synced)
    {
    }

    method Del(key: Key) returns (reply: Reply)
      requires Valid()
      modifies index, cache
      ensures Valid() && storage.Abstract() == old(storage.Abstract())
      ensures reply == if key in old(Contents()) then Done(1) else KeyNotFound
      ensures State() == DelStep(old(State()), key).0 && index.synced == old(index.synced)
      ensures Contents() == old(Contents()) - {key} && cache.Abstract() == RemoveStep(old(cache.Abstract()), key)
      ensures AsCore() == DelOne(old(AsCore()), key)
      ensures Appends(old(OnDisk()), OnDisk())
    {
      hide *;
      ghost var f := OnDisk();
      OnDiskIs();
      Known();
      Unopened();
      reply := Delete(key);
      DelGrows(f.engine, key);
      Appended(f);
    }

    lemma Unopened()
      requires storage.Valid()
      ensures OpenedSince(storage.synced, storage.synced, storage.segs) && storage.latest == State().store.latest
    {
      OpenedNone(storage.synced, storage.dirty, storage.segs);
      hide Backs, IdsBounded, Linked, Replay, SerializeAll, OpenedSince, Marks;
    }

    method Delete(key: Key) returns (reply: Reply)
      requires Valid()
      modifies index, cache
      ensures Valid() && storage.Abstract() == old(storage.Abstract())
      ensures reply == if key in old(Contents()) then Done(1) else KeyNotFound
      ensures State() == DelStep(old(State()), key).0 && index.synced == old(index.synced)
      ensures Contents() == old(Contents()) - {key} && cache.Abstract() == RemoveStep(old(cache.Abstract()), key)
      ensures AsCore() == DelOne(old(AsCore()), key)
    {
      hide *;
      Known();
      CoreIs();
      ghost var e, c, m := State(), cache.Abstract(), Contents();
      DelOneIs(AsCore(), key);
      StateIs();
      DelSpec(e, key);
      RemoveTwice(c, key);
      RemoveAgrees(c, m, key);
      cache.Remove(key);
      var loc := index.Search(key);
      DelStepIs(e, key, loc);
      if loc == None {
        reply := KeyNotFound;
      } else {
        index.Update(key, Record(key, loc.value, true));
        cache.Remove(key);
        reply := Done(1);
      }
      StateIs();
      CoreIs();
      Standing(m - {key});
    }

    lemma StateIs()
      ensures State() == Engine(index.log, storage.Abstract())
    {
    }

    method ReadStored(key: Key) returns (value: Value)
      requires Valid() && key in Contents()
      modifies storage`files
      ensures Valid() && State() == old(State()) && Contents() == old(Contents()) && value == Contents()[key]
    {
      hide Backs, Marks, Linked, Replay, SerializeAll, Sound, ReadAt;
      var loc := index.Search(key);
      value := storage.Read(loc.value);
    }

    /**
     * Matching pairs, no pair twice: all of them, or as many as the limit leaves when `taken` of
     * it is used up. The counter grows by their number. (Module `LimitCounter` has the counter
     * shared with workers of other shards.)
     */
    method GetBy(matches: Key -> bool, limit: Option<nat>, taken: nat) returns (rows: seq<(Key, Value)>, taken': nat)
      requires Valid() && (limit.Some? ==> taken <= limit.value)
      modifies storage`files
      ensures Valid() && State() == old(State())
      ensures var found := set k | k in Contents() && matches(k);
              && taken' == taken + |rows|
              && |rows| == (if limit.None? then |found| else Min(limit.value - taken, |found|))
              && exists some :: some <= found && Enumerates(rows, set k | k in some :: (k, Contents()[k]))
    {
      hide *;
      Known();
      var keys := index.FindMatching(matches);
      ghost var m := Contents();
      FoundKeys(keys, index.memoryTree, m, matches);
      EnumeratesSize(keys, set k | k in m && matches(k));
      rows, taken' := [], taken;
      var i := 0;
      while i < |keys| && (limit.None? || taken' < limit.value)
        invariant Valid() && State() == old(State()) && Contents() == m
        invariant |rows| == i <= |keys| && taken' == taken + i && (limit.Some? ==> taken' <= limit.value)
        invariant forall j :: 0 <= j < i ==> keys[j] in m && rows[j] == (keys[j], m[keys[j]])
        decreases |keys| - i
      {
        var value := ReadStored(keys[i]);
        rows, taken', i := rows + [(keys[i], value)], taken' + 1, i + 1;
      }
      RowCount(i, |keys|, limit, taken);
      RowsEnumerate(rows, keys, m, set k | k in m && matches(k));
    }

    method SetBy(matches: Key -> bool, value: Value) returns (rows: nat)
      requires Valid() && value != ""
      modifies index, storage, cache
      ensures Valid()
      ensures exists keys :: Enumerates(keys, set k | k in old(Contents()) && matches(k))
                && (State(), rows) == SetAll(old(State()), keys, value, segSize)
                && AsCore() == SetMany(old(AsCore()), keys, value)
                && rows == |Accepted(old(State()), keys, value, segSize)|
                && Contents() == AllSet(old(Contents()), Accepted(old(State()), keys, value, segSize), value)
      ensures segSize < MAX_U64 ==>
                && rows == (if |value| <= segSize then |set k | k in old(Contents()) && matches(k)| else 0)
                && Contents() == map k | k in old(Contents()) ::
                                   if matches(k) && |value| <= segSize then value else old(Contents())[k]
      ensures Appends(old(OnDisk()), OnDisk())
    {
      hide *;
      ghost var e0, f := State(), OnDisk();
      OnDiskIs();
      Known();
      ghost var m := Contents();
      var keys := index.FindMatching(matches);
      FoundKeys(keys, index.memoryTree, m, matches);
      rows := SetKeys(keys, value);
      Known();
      SetAllSpec(e0, keys, value, segSize);
      SetByAll(e0, keys, matches, value, segSize);
      SetAllGrows(e0, keys, value, segSize);
      Appended(f);
    }

    /** The loop of `setBy`. */
    method SetKeys(keys: seq<Key>, value: Value) returns (rows: nat)
      requires Valid() && value != ""
      modifies index, storage, cache
      ensures Valid() && (State(), rows) == SetAll(old(State()), keys, value, segSize)
      ensures AsCore() == SetMany(old(AsCore()), keys, value)
      ensures index.synced == old(index.synced) && OpenedSince(old(storage.synced), storage.synced, storage.segs)
    {
      hide *;
      Known();
      Unopened();
      ghost var e0 := State();
      rows := 0;
      SetAllNone(e0, keys, value, segSize);
      CoreIs();
      ghost var c0 := AsCore();
      ManyNone(c0, keys, value);
      for i := 0 to |keys|
        invariant Valid() && (State(), rows) == SetAll(e0, keys[..i], value, segSize)
        invariant AsCore() == SetMany(c0, keys[..i], value)
        invariant index.synced == old(index.synced) && OpenedSince(old(storage.synced), storage.synced, storage.segs)
      {
        SetAllNext(e0, keys, i, value, segSize);
        CoreIs();
        ManyNext(c0, keys, i, value);
        ghost var c := AsCore();
        ghost var before, segs := storage.synced, storage.segs;
        var ok := Store(keys[i], value);
        Stored(c, keys[i], value, ok);
        OpenedThen(old(storage.synced), before, storage.synced, segs, storage.segs);
        if ok {
          rows := rows + 1;
        }
      }
      assert keys[..|keys|] == keys;
    }

    method DelBy(matches: Key -> bool) returns (rows: nat)
      requires Valid()
      modifies index, cache
      ensures Valid() && storage.Abstract() == old(storage.Abstract())
      ensures Contents() == map k | k in old(Contents()) && !matches(k) :: old(Contents())[k]
      ensures rows == |set k | k in old(Contents()) && matches(k)|
      ensures exists keys :: Enumerates(keys, set k | k in old(Contents()) && matches(k))
                             && (State(), rows) == DelAll(old(State()), keys) && AsCore() == DelMany(old(AsCore()), keys)
      ensures Appends(old(OnDisk()), OnDisk())
    {
      hide *;
      ghost var f := OnDisk();
      OnDiskIs();
      Known();
      Unopened();
      var keys := index.FindMatching(matches);
      ghost var e0 := State();
      FoundKeys(keys, index.memoryTree, View(e0), matches);
      DelAllSpec(e0, keys);
      rows := DelKeys(keys);
      Known();
      DelAllGrows(e0, keys);
      Appended(f);
      DelByView(View(e0), keys, matches);
    }

    /** The loop of `delBy`. */
    method DelKeys(keys: seq<Key>) returns (rows: nat)
      requires Valid() && forall k :: k in keys ==> k in Contents()
      requires forall i, j :: 0 <= i < j < |keys| ==> keys[i] != keys[j]
      modifies index, cache
      ensures Valid() && storage.Abstract() == old(storage.Abstract()) && index.synced == old(index.synced)
      ensures (State(), rows) == DelAll(old(State()), keys) && AsCore() == DelMany(old(AsCore()), keys)
    {
      hide *;
      Known();
      ghost var e0 := State();
      rows := 0;
      DelAllNone(e0, keys);
      ghost var c0 := AsCore();
      ManyNone(c0, keys, "");
      for i := 0 to |keys|
        invariant Valid() && (State(), rows) == DelAll(e0, keys[..i]) && AsCore() == DelMany(c0, keys[..i])
        invariant storage.Abstract() == e0.store && index.synced == old(index.synced)
      {
        DelAllPrefix(e0, keys, i);
        ManyNext(c0, keys, i, "");
        var reply := Delete(keys[i]);
        rows := rows + 1;
      }
      assert keys[..|keys|] == keys;
    }

    method MatchingKeys(matches: Key -> bool, limit: nat) returns (keys: seq<Key>)
      requires Valid()
      ensures Selection.IsSmallest(Selection.SetOf(keys), (set k | k in Contents() && matches(k)), limit)
    {
      var all := index.FindMatching(matches);
      keys := Selection.MatchingKeys(all, limit);
      assert Selection.SetOf(all) == set k | k in Contents() && matches(k);
    }

    /**
     * One run of the compactor thread: no value changes, exactly the referenced segments remain,
     * they obey the space bound, and everything that moved is on disk before a segment goes.
     */
    method CompactSegments() returns (ghost order: seq<Key>)
      requires Valid()
      modifies index, storage
      ensures Valid() && Contents() == old(Contents())
      ensures storage.segs.Keys == Referenced(index.memoryTree)
      ensures Enumerates(order, old(index.memoryTree).Keys) && (forall k :: k in order ==> k in TableOf(old(State())))
      ensures State() == Compact(old(State()), order, segSize)
      ensures segSize < MAX_U64 ==> (|storage.segs| - 2) * segSize <= 2 * LiveBytes(old(Contents()), order)
      ensures Compacts(old(OnDisk()), OnDisk(), order, segSize)
      ensures index.synced == |index.index|
    {
      hide *;
      ghost var e, f, m := State(), OnDisk(), Contents();
      OnDiskIs();
      Known();
      order := RewriteFiles();
      CompactPreserves(e, order, segSize);
      if segSize < MAX_U64 {
        CompactSpaceBound(e, order, segSize);
      }
      Standing(m);
      OnDiskIs();
      CompactTracks(f, OnDisk(), order, segSize);
    }

    lemma Standing(m: map<Key, Value>)
      requires index.Valid() && storage.Valid() && cache.Valid() && Sound(State()) && View(State()) == m && CacheAgrees(cache.Abstract(), m)
      ensures Valid() && Contents() == m && index.log == State().log && storage.segs == State().store.segs
      ensures TableOf(State()) == index.memoryTree && |SerializeAll(index.log)| == |index.index|
    {
      hide Backs, Marks, Linked, Replay, SerializeAll, Sound, ReadAt;
    }

    method RewriteFiles() returns (ghost order: seq<Key>)
      requires index.Valid() && storage.Valid()
      modifies index, storage
      ensures index.Valid() && storage.Valid() && index.synced == |index.index|
      ensures Enumerates(order, old(index.memoryTree).Keys) && (forall k :: k in order ==> k in old(index.memoryTree))
      ensures State() == Compact(old(State()), order, segSize)
      ensures MarksAfter(old(OnDisk()), OnDisk(), order, segSize)
    {
      ghost var f := OnDisk();
      hide Backs, Marks, Replay, SerializeAll, IdsBounded, Relocate, Enumerates, AppendStep, Total, BytesIn, Entries, Compact, CompactPass, Compacted,
           SegsOf, Contained, View, Contents, Linked, OpenedSince, Only, Sizes, MarksAfter;
      var entries := index.Compact();
      order := CompactedOrder(entries, index.memoryTree);
      PassIs(f.engine, order, entries, segSize);
      var work, moved := RelocateAndSync(entries);
      ghost var segs, synced := storage.segs, storage.synced;
      storage.RemoveUnusedSegments(SegsOf(work));
      RemovalMarks(f, OnDisk(), order, segSize, segs, synced, SegsOf(work));
    }

    /** What was relocated is on disk before anything is deleted. */
    method RelocateAndSync(entries: seq<Record>) returns (work: seq<Record>, moved: bool)
      requires index.Valid() && storage.Valid() && index.log == entries && index.synced == |index.index|
      modifies index, storage
      ensures index.Valid() && storage.Valid() && index.synced == |index.index|
      ensures Pass(State(), work, moved) == Relocate(old(State()), entries, |entries|, segSize)
      ensures if moved then storage.synced == Sizes(storage.segs) else OpenedSince(old(storage.synced), storage.synced, storage.segs)
    {
      hide Backs, Marks, Replay, SerializeAll, IdsBounded, Relocate, OpenedSince;
      work, moved := RelocateSparse(entries);
      if moved {
        storage.Flush();
        index.Flush();
      }
    }

    method RelocateSparse(entries: seq<Record>) returns (work: seq<Record>, moved: bool)
      requires index.Valid() && storage.Valid() && index.log == entries && index.synced == |index.index|
      modifies index, storage
      ensures index.Valid() && storage.Valid()
      ensures Pass(State(), work, moved) == Relocate(old(State()), entries, |entries|, segSize)
      ensures !moved ==> index.synced == |index.index|
      ensures OpenedSince(old(storage.synced), storage.synced, storage.segs)
    {
      hide *;
      ghost var e0 := State();
      Unopened();
      RelocateNone(e0, entries, segSize);
      var live := LiveBytesOf(entries);
      var current := storage.latest;
      work, moved := entries, false;
      for i := 0 to |entries|
        invariant index.Valid() && storage.Valid() && |work| == |entries|
        invariant Pass(State(), work, moved) == Relocate(e0, entries, i, segSize)
        invariant !moved ==> index.synced == |index.index|
        invariant OpenedSince(old(storage.synced), storage.synced, storage.segs)
      {
        var entry := entries[i];
        ghost var before, segs := storage.synced, storage.segs;
        RelocateNext(e0, entries, i, segSize);
        KeptIs(entries, entry, current, segSize, live);
        if !(entry.loc.seg == current || live[entry.loc.seg] * 2 >= segSize) {
          var loc := Move(entry);
          OpenedThen(old(storage.synced), before, storage.synced, segs, storage.segs);
          if loc.Some? {
            work, moved := work[i := Record(entry.key, loc.value, false)], true;
          }
        }
      }
    }

    /** Appends the value of one entry again, and records where. */
    method Move(entry: Record) returns (loc: Option<Location>)
      requires index.Valid() && storage.Valid()
      modifies index, storage
      ensures index.Valid() && storage.Valid() && index.synced == old(index.synced)
      ensures OpenedSince(old(storage.synced), storage.synced, storage.segs)
      ensures var e, v := old(State()), ReadAt(old(State()).store.segs, entry.loc);
              if v == "" then loc == None && State() == e && index.index == old(index.index)
              else
                var (store, l) := AppendStep(e.store, v, segSize);
                && loc == l && (l.None? ==> index.index == old(index.index))
                && State() == if l.None? then e.(store := store) else Engine(e.log + [Record(entry.key, l.value, false)], store)
    {
      hide *;
      Unopened();
      StateIs();
      storage.Known();
      var value := storage.Read(entry.loc);
      StateIs();
      storage.Known();
      if value == "" {
        return None;
      }
      loc := storage.Append(value, segSize);
      if loc.Some? {
        index.Insert(entry.key, loc.value);
      }
      StateIs();
      storage.Known();
    }

    /** Segments first, then the index that names them. */
    method FlushData()
      requires Valid()
      modifies index, storage`synced, storage`dirty
      ensures Valid() && State() == old(State())
      ensures index.synced == |index.index|
      ensures storage.synced == map id | id in storage.segs :: |storage.segs[id]|
      ensures Flushes(old(OnDisk()), OnDisk())
    {
      ghost var f := OnDisk();
      hide Backs, Marks, Linked, SerializeAll, Replay, Flushes;
      storage.Flush();
      index.Flush();
      assert storage.synced == Sizes(storage.segs);
      FlushTracks(f, OnDisk());
    }

    method ReloadSettings(size: U64, cacheSize: nat)
      requires Valid()
      modifies this`segSize, cache
      ensures Valid() && State() == old(State()) && segSize == size
      ensures cache.Abstract() == ResizeStep(old(cache.Abstract()), cacheSize) && cache.capacity == cacheSize
    {
      segSize := size;
      cache.Resize(cacheSize);
    }
  }

  lemma RelocateNone(e: Engine, entries: seq<Record>, segSize: U64)
    ensures Relocate(e, entries, 0, segSize) == Pass(e, entries, false)
  {
  }

  /** One more round of the relocation. */
  lemma RelocateNext(e: Engine, entries: seq<Record>, i: nat, segSize: U64)
    requires i < |entries|
    ensures var p, p', r := Relocate(e, entries, i, segSize), Relocate(e, entries, i + 1, segSize), entries[i];
            var v := ReadAt(p.engine.store.segs, r.loc); var (store, loc) := AppendStep(p.engine.store, v, segSize);
            p' == if Kept(entries, r, e.store.latest, segSize) || v == "" then p
                  else if loc.None? then p.(engine := p.engine.(store := store))
                  else
                    var r' := Record(r.key, loc.value, false);
                    Pass(Engine(p.engine.log + [r'], store), p.entries[i := r'], true)
  {
    hide AppendStep, Kept, ReadAt;
  }

  lemma KeptIs(entries: seq<Record>, r: Record, current: nat, segSize: U64, live: map<nat, nat>)
    requires r.loc.seg in live && live[r.loc.seg] == BytesIn(entries, {r.loc.seg})
    ensures Kept(entries, r, current, segSize) <==> r.loc.seg == current || live[r.loc.seg] * 2 >= segSize
  {
  }

  lemma PassIs(e: Engine, order: seq<Key>, entries: seq<Record>, segSize: U64)
    requires (forall k :: k in order ==> k in TableOf(e)) && entries == Entries(TableOf(e), order)
    ensures var p := Relocate(e.(log := entries), entries, |entries|, segSize);
            && CompactPass(e, order, segSize) == p
            && Compact(e, order, segSize) == p.engine.(store := RemoveUnused(p.engine.store, SegsOf(p.entries)))
  {
  }

  /** The `liveBytes` table of the compactor. */
  method LiveBytesOf(entries: seq<Record>) returns (live: map<nat, nat>)
    ensures forall i :: 0 <= i < |entries| ==> entries[i].loc.seg in live
    ensures forall s :: s in live ==> live[s] == BytesIn(entries, {s})
  {
    live := map[];
    for i := 0 to |entries|
      invariant forall j :: 0 <= j < i ==> entries[j].loc.seg in live
      invariant forall s :: (if s in live then live[s] else 0) == BytesIn(entries[..i], {s})
    {
      assert entries[..i + 1][..i] == entries[..i];
      var s, size := entries[i].loc.seg, entries[i].loc.size;
      live := live[s := (if s in live then live[s] else 0) + size];
    }
    assert entries[..|entries|] == entries;
  }

  /** Rows for the first of the listed keys, each with the key's own value. */
  lemma RowsEnumerate(rows: seq<(Key, Value)>, keys: seq<Key>, m: map<Key, Value>, found: set<Key>)
    requires |rows| <= |keys| && Enumerates(keys, found) && found <= m.Keys
    requires forall j :: 0 <= j < |rows| ==> rows[j] == (keys[j], m[keys[j]])
    ensures exists some :: some <= found && Enumerates(rows, set k | k in some :: (k, m[k]))
    ensures |rows| == |keys| ==> Enumerates(rows, set k | k in found :: (k, m[k]))
  {
    var some := set j | 0 <= j < |rows| :: keys[j];
    var pairs := set k | k in some :: (k, m[k]);
    forall j | 0 <= j < |rows|
      ensures rows[j] in pairs
    {
      assert keys[j] in some;
    }
    forall r | r in pairs
      ensures r in rows
    {
      var j :| 0 <= j < |rows| && keys[j] == r.0;
      assert rows[j] == r;
    }
    assert some <= found by {
      forall j | 0 <= j < |rows| ensures keys[j] in found {
        assert keys[j] in keys;
      }
    }
    assert Enumerates(rows, pairs);
    if |rows| == |keys| {
      assert some == found;
    }
  }

  lemma SetByAll(e: Engine, keys: seq<Key>, matches: Key -> bool, v: Value, segSize: U64)
    requires Enumerates(keys, set k | k in View(e) && matches(k))
    ensures segSize < MAX_U64 ==> var done := Accepted(e, keys, v, segSize);
              && |done| == (if |v| <= segSize then |set k | k in View(e) && matches(k)| else 0)
              && AllSet(View(e), done, v) == map k | k in View(e) :: if matches(k) && |v| <= segSize then v else View(e)[k]
  {
    hide View, Accepted;
    if segSize < MAX_U64 {
      AcceptedAll(e, keys, v, segSize);
      SetByView(View(e), keys, matches, v);
      AllSetEmpty(View(e), v);
      hide AllSet;
    }
  }

  lemma SetByView(m: map<Key, Value>, keys: seq<Key>, matches: Key -> bool, v: Value)
    requires Enumerates(keys, set k | k in m && matches(k))
    ensures AllSet(m, keys, v) == map k | k in m :: if matches(k) then v else m[k]
    ensures |keys| == |set k | k in m && matches(k)|
  {
    EnumeratesSize(keys, set k | k in m && matches(k));
  }

  lemma DelGrows(e: Engine, k: Key)
    ensures e.log <= DelStep(e, k).0.log
  {
    hide Replay;
  }

  lemma {:induction false} DelAllGrows(e: Engine, keys: seq<Key>)
    ensures e.log <= DelAll(e, keys).0.log
  {
    if keys != [] {
      DelAllGrows(e, keys[..|keys| - 1]);
      DelGrows(DelAll(e, keys[..|keys| - 1]).0, keys[|keys| - 1]);
      hide DelStep;
    }
  }

  lemma SetAllNone(e: Engine, keys: seq<Key>, v: Value, segSize: U64)
    ensures SetAll(e, keys[..0], v, segSize) == (e, 0)
  {
  }

  lemma ManyNone(c: Core, keys: seq<Key>, v: Value)
    ensures SetMany(c, keys[..0], v) == DelMany(c, keys[..0]) == c
  {
  }

  lemma ManyNext(c: Core, keys: seq<Key>, i: nat, v: Value)
    requires i < |keys|
    ensures SetMany(c, keys[..i + 1], v) == SetOne(SetMany(c, keys[..i], v), keys[i], v)
    ensures DelMany(c, keys[..i + 1]) == DelOne(DelMany(c, keys[..i]), keys[i])
  {
    hide SetOne, DelOne;
    assert keys[..i + 1][..i] == keys[..i];
  }

  lemma SetAllNext(e: Engine, keys: seq<Key>, i: nat, v: Value, segSize: U64)
    requires i < |keys|
    ensures var (e1, n) := SetAll(e, keys[..i], v, segSize); var (e2, ok) := SetStep(e1, keys[i], v, segSize);
            SetAll(e, keys[..i + 1], v, segSize) == (e2, if ok then n + 1 else n)
  {
    hide SetStep;
    assert keys[..i + 1][..i] == keys[..i];
  }

  lemma {:induction false} SetAllGrows(e: Engine, keys: seq<Key>, v: Value, segSize: U64)
    ensures e.log <= SetAll(e, keys, v, segSize).0.log
  {
    if keys != [] {
      var front := keys[..|keys| - 1];
      SetAllGrows(e, front, v, segSize);
      SetGrows(SetAll(e, front, v, segSize).0, keys[|keys| - 1], v, segSize);
      hide SetStep;
    }
  }

  lemma DelOneIs(c: Core, k: Key)
    ensures DelOne(c, k) == Core(DelStep(c.engine, k).0, RemoveStep(c.cache, k), c.segSize)
  {
    hide DelStep, RemoveStep;
  }

  lemma DelStepIs(e: Engine, k: Key, loc: Option<Location>)
    requires loc == Lookup(Replay(e.log), k)
    ensures DelStep(e, k) == if loc.None? then (e, false) else (Engine(e.log + [Record(k, loc.value, true)], e.store), true)
    ensures k in TableOf(e) <==> loc.Some?
  {
    hide Replay;
  }

  lemma RemoveAgrees(c: Cache, m: map<Key, Value>, k: Key)
    requires CacheAgrees(c, m)
    ensures CacheAgrees(RemoveStep(c, k), m - {k})
  {
  }

  /** The cache holds the first `n` keys of the list. */
  ghost predicate Filled(capacity: nat, c: Cache, order: seq<Key>, n: nat) {
    n <= |order| && Lru.Valid(c) && c.capacity == capacity && c.entries.Keys == set k | k in order[..n]
  }

  lemma NothingFilled(c: Cache, order: seq<Key>)
    requires Lru.Valid(c)
    ensures c.entries == map[] ==> Filled(c.capacity, c, order, 0)
  {
  }

  lemma Listed(order: seq<Key>, keys: set<Key>)
    requires Enumerates(order, keys)
    ensures |order| == |keys| && (forall i :: 0 <= i < |order| ==> order[i] in keys)
    ensures forall i, j :: 0 <= i < j < |order| ==> order[i] != order[j]
  {
    EnumeratesSize(order, keys);
  }

  lemma FillOne(capacity: nat, c: Cache, order: seq<Key>, i: nat, entry: CacheEntry)
    requires i < |order| && i < capacity && forall i, j :: 0 <= i < j < |order| ==> order[i] != order[j]
    ensures Filled(capacity, c, order, i) ==> Filled(capacity, PutStep(c, order[i], entry), order, i + 1)
  {
    if Filled(capacity, c, order, i) {
      assert order[..i + 1] == order[..i] + [order[i]];
      FilledSize(capacity, c, order, i);
      EnumeratesSize(c.order, c.entries.Keys);
      PutValid(c, order[i], entry);
    }
  }

  lemma FilledSize(capacity: nat, c: Cache, order: seq<Key>, n: nat)
    requires forall i, j :: 0 <= i < j < |order| ==> order[i] != order[j]
    ensures Filled(capacity, c, order, n) ==> |c.entries| == n && c.capacity == capacity
  {
    if Filled(capacity, c, order, n) {
      EnumeratesSize(order[..n], c.entries.Keys);
    }
  }

  lemma SameSize(m: map<Key, Value>, t: Table)
    requires m.Keys == t.Keys
    ensures |m| == |t.Keys|
  {
    assert |m| == |m.Keys|;
  }

  lemma Least(n: nat, a: nat, b: nat)
    requires n == if a < b then a else b
    ensures n == Min(a, b)
  {
  }

  lemma StoredNotEmpty(e: Engine, k: Key)
    requires Sound(e) && k in View(e)
    ensures View(e)[k] != ""
  {
  }

  lemma OthersAgree(c: Cache, m: map<Key, Value>, k: Key)
    requires CacheAgrees(c, m)
    ensures forall x :: x in c.entries && x != k ==> x in m && c.entries[x].value == m[x]
  {
  }

  lemma RemoveTwice(c: Cache, k: Key)
    ensures RemoveStep(RemoveStep(c, k), k) == RemoveStep(c, k)
  {
    WithoutMembers(c.order, k);
    WithoutMembers(Without(c.order, k), k);
    hide Without;
  }

  lemma SetGrows(e: Engine, k: Key, v: Value, segSize: U64)
    ensures e.log <= SetStep(e, k, v, segSize).0.log
  {
    hide AppendStep;
  }

  lemma RowCount(n: nat, all: nat, limit: Option<nat>, taken: nat)
    requires n <= all && (limit.Some? ==> taken + n <= limit.value)
    requires n == all || (limit.Some? && taken + n >= limit.value)
    ensures n == if limit.None? then all else Min(limit.value - taken, all)
  {
  }

  lemma FoundKeys(keys: seq<Key>, t: Table, m: map<Key, Value>, matches: Key -> bool)
    requires t.Keys == m.Keys && Enumerates(keys, set k | k in t && matches(k))
    ensures Enumerates(keys, set k | k in m && matches(k))
    ensures (forall k :: k in keys ==> k in m) && forall i, j :: 0 <= i < j < |keys| ==> keys[i] != keys[j]
    ensures forall i :: 0 <= i < |keys| ==> keys[i] in m
  {
    assert (set k | k in m && matches(k)) == set k | k in t && matches(k);
    assert forall i :: 0 <= i < |keys| ==> keys[i] in keys;
  }

  lemma DelByView(m: map<Key, Value>, keys: seq<Key>, matches: Key -> bool)
    requires Enumerates(keys, set k | k in m && matches(k))
    ensures m - KeySet(keys) == map k | k in m && !matches(k) :: m[k]
    ensures |keys| == |set k | k in m && matches(k)|
  {
    EnumeratesSize(keys, set k | k in m && matches(k));
  }

  lemma DelAllNone(e: Engine, keys: seq<Key>)
    ensures DelAll(e, keys[..0]) == (e, 0)
  {
  }

  /** While deleting distinct keys one by one, the next one is still stored. */
  lemma DelAllPrefix(e: Engine, keys: seq<Key>, i: nat)
    requires Sound(e) && i < |keys|
    requires forall i, j :: 0 <= i < j < |keys| ==> keys[i] != keys[j]
    requires forall k :: k in keys ==> k in View(e)
    ensures var (e1, n) := DelAll(e, keys[..i]);
            n == i && DelAll(e, keys[..i + 1]) == (DelStep(e1, keys[i]).0, i + 1)
  {
    hide *;
    var front, k := keys[..i], keys[i];
    assert keys[..i + 1][..i] == front && keys[..i + 1][i] == k;
    DelAllFront(e, keys, i);
    DelAllUnfold(e, keys[..i + 1]);
    DelSpec(DelAll(e, front).0, k);
  }

  lemma DelAllFront(e: Engine, keys: seq<Key>, i: nat)
    requires Sound(e) && i < |keys|
    requires forall i, j :: 0 <= i < j < |keys| ==> keys[i] != keys[j]
    requires forall k :: k in keys ==> k in View(e)
    ensures var (e1, n) := DelAll(e, keys[..i]); Sound(e1) && n == i && keys[i] in View(e1)
  {
    var front, k := keys[..i], keys[i];
    assert k in keys && k !in KeySet(front);
    assert forall x :: x in front ==> x in keys;
    hide *;
    DelAllSpec(e, front);
  }

  lemma DelAllUnfold(e: Engine, keys: seq<Key>)
    requires keys != []
    ensures var (e1, n) := DelAll(e, keys[..|keys| - 1]); var (e2, ok) := DelStep(e1, keys[|keys| - 1]);
            DelAll(e, keys) == (e2, if ok then n + 1 else n)
  {
  }
}
