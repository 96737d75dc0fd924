/**
 * `ShardManager`: routing by hash, pattern commands over all shards, and the merge of the
 * shards' JSON answers. The shards are those of module `Cores`, each with its index, segments and
 * cache; together they answer as one map.
 */
module Sharding {
  import opened Base
  import opened Bytes
  import opened Selection
  import opened Commands
  import opened Cores
  import Storage
  import ShardEngine
  import Lru

  /** Every key lives in the shard its hash selects. */
  ghost predicate Routed(shards: seq<KeyValues>, hash: Key -> nat) {
    && |shards| > 0
    && forall s, k :: 0 <= s < |shards| && k in shards[s] ==> hash(k) % |shards| == s
  }

  /** All pairs of all shards. */
  function Merge(shards: seq<KeyValues>): KeyValues {
    if shards == [] then map[] else Merge(shards[..|shards| - 1]) + shards[|shards| - 1]
  }

  lemma {:induction false} MergeMembers(shards: seq<KeyValues>, k: Key)
    ensures k in Merge(shards) <==> exists s :: 0 <= s < |shards| && k in shards[s]
    ensures forall s | 0 <= s < |shards| && k in shards[s]
              && (forall t :: 0 <= t < |shards| && t != s ==> k !in shards[t])
              :: k in Merge(shards) && Merge(shards)[k] == shards[s][k]
  {
    if shards != [] {
      MergeMembers(shards[..|shards| - 1], k);
    }
  }

  /** The shards are disjoint, and a key is looked up in one of them only. */
  lemma LookupRouted(shards: seq<KeyValues>, hash: Key -> nat, k: Key)
    requires Routed(shards, hash)
    ensures Lookup(Merge(shards), k) == Lookup(shards[hash(k) % |shards|], k)
    ensures forall s :: 0 <= s < |shards| && k in shards[s] ==> s == hash(k) % |shards|
  {
    MergeMembers(shards, k);
  }

  /** A command does to the merged map what it does, shard by shard, to the parts. */
  lemma {:induction false} PointwiseMerge(shards: seq<KeyValues>, shards': seq<KeyValues>, hash: Key -> nat, m': KeyValues)
    requires Routed(shards, hash) && Routed(shards', hash) && |shards| == |shards'|
    requires forall k :: Lookup(m', k) == Lookup(shards'[hash(k) % |shards|], k)
    ensures Merge(shards') == m'
  {
    forall k
      ensures Lookup(Merge(shards'), k) == Lookup(m', k)
    {
      LookupRouted(shards', hash, k);
    }
    LookupExtensional(Merge(shards'), m');
  }

  // ------------------------------------------------------------ JSON answers

  function Join(rows: seq<string>): string {
    if rows == [] then "" else if |rows| == 1 then rows[0] else rows[0] + "," + Join(rows[1..])
  }

  /** `json::dump` of an array whose elements dump to `rows`. */
  function Dump(rows: seq<string>): string {
    "[" + Join(rows) + "]"
  }

  /** The text of an array grows by its next element. */
  lemma DumpMore(rows: seq<string>, row: string)
    ensures Dump([]) == "[]" && Dump([row]) == "[" + row + "]"
    ensures rows != [] ==> Dump(rows + [row]) == Dump(rows)[..|Dump(rows)| - 1] + "," + row + "]"
  {
    assert [row][1..] == [];
    if rows != [] {
      JoinConcat(rows, [row]);
      assert Dump(rows)[..|Dump(rows)| - 1] == "[" + Join(rows);
    }
  }

  function Flatten(parts: seq<seq<string>>): seq<string> {
    if parts == [] then [] else Flatten(parts[..|parts| - 1]) + parts[|parts| - 1]
  }

  lemma {:induction false} JoinConcat(a: seq<string>, b: seq<string>)
    requires a != [] && b != []
    ensures Join(a + b) == Join(a) + "," + Join(b)
  {
    if |a| == 1 {
      assert (a + b)[1..] == b;
    } else {
      JoinConcat(a[1..], b);
      assert (a + b)[1..] == a[1..] + b;
      assert Join(a + b) == a[0] + "," + (Join(a[1..]) + "," + Join(b));
    }
  }

  lemma JoinNonEmpty(rows: seq<string>)
    requires forall r :: r in rows ==> r != ""
    ensures Join(rows) == "" <==> rows == []
  {
    if rows != [] {
      assert rows[0] in rows;
    }
  }

  /**
   * Splicing the bodies of the shards' arrays gives the array of all rows. A row is the dump of
   * an object, hence not empty; an empty array is recognised by its length 2.
   */
  method MergeResponses(rows: seq<seq<string>>) returns (merged: string)
    requires forall s, r :: 0 <= s < |rows| && r in rows[s] ==> r != ""
    ensures merged == Dump(Flatten(rows))
  {
    merged := "[";
    for s := 0 to |rows|
      invariant merged == "[" + Join(Flatten(rows[..s]))
      invariant forall r :: r in Flatten(rows[..s]) ==> r != ""
    {
      var response := Dump(rows[s]);
      JoinNonEmpty(rows[s]);
      JoinNonEmpty(Flatten(rows[..s]));
      assert rows[..s + 1][..s] == rows[..s];
      ghost var before := Flatten(rows[..s]);
      if |response| > 2 {
        if before != [] {
          JoinConcat(before, rows[s]);
        } else {
          assert before + rows[s] == rows[s];
        }
        if |merged| > 1 {
          merged := merged + ",";
        }
        assert response[1..1 + (|response| - 2)] == Join(rows[s]);
        merged := merged + response[1..1 + (|response| - 2)];
      } else {
        assert before + rows[s] == before;
      }
    }
    assert rows[..|rows|] == rows;
    merged := merged + "]";
  }

  // ------------------------------------------------------------ the object

  /** Every shard stands for its map. */
  ghost predicate Stand(cores: seq<Core>, shards: seq<KeyValues>, segSize: U64) {
    && |cores| == |shards|
    && forall i :: 0 <= i < |cores| ==> CoreInv(cores[i], shards[i]) && cores[i].segSize == segSize
  }

  class ShardManager {
    var cores: seq<Core>
    const segSize: U64
    const hash: Key -> nat
    /** The map of each shard. */
    ghost var shards: seq<KeyValues>

    ghost predicate Valid()
      reads this
    {
      Routed(shards, hash) && Stand(cores, shards, segSize)
    }

    ghost function Contents(): KeyValues
      reads this
    {
      Merge(shards)
    }

    lemma Known()
      requires Valid()
      ensures Routed(shards, hash) && |cores| == |shards| && Contents() == Merge(shards)
    {
      hide Routed, Merge;
    }

    constructor (n: nat, h: Key -> nat, size: U64, cacheSize: nat)
      requires n > 0
      ensures Valid() && Contents() == map[] && |cores| == n && hash == h && segSize == size
    {
      var empty := Core(ShardEngine.Engine([], Storage.Store(map[1 := ""], 1)), Lru.Cache(cacheSize, [], map[]), size);
      cores, segSize, hash := seq(n, _ => empty), size, h;
      shards := seq(n, _ => map[]);
      new;
      EmptyCore(empty);
      PointwiseMerge(shards, shards, hash, map[]);
    }

    function GetShardId(key: Key): (s: nat)
      requires Valid()
      reads this
      ensures s < |cores| == |shards| && s == hash(key) % |shards|
      ensures Lookup(shards[s], key) == Lookup(Contents(), key)
    {
      LookupRouted(shards, hash, key);
      hash(key) % |cores|
    }

    method Get(key: Key) returns (r: Option<Value>)
      requires Valid()
      modifies this`cores
      ensures Valid() && r == Lookup(Contents(), key)
      ensures var s := old(GetShardId(key)); cores == old(cores)[s := GetOne(old(cores)[s], key).0]
    {
      hide Merge, Routed, CoreInv;
      var s := GetShardId(key);
      GetOneInv(cores[s], shards[s], key);
      var (c, found) := GetOne(cores[s], key);
      cores, r := cores[s := c], found;
    }

    /** Stores the pair, unless the key's own shard refuses the value. */
    method Set(key: Key, value: Value) returns (ok: bool)
      requires Valid() && value != ""
      modifies this
      ensures Valid() && |cores| == |old(cores)|
      ensures ok <==> !Storage.Refused(old(cores[GetShardId(key)]).engine.store, value, segSize)
      ensures Contents() == if ok then Apply(Command.Set(key, value), old(Contents())) else old(Contents())
      ensures segSize < MAX_U64 ==> (ok <==> |value| <= segSize)
      ensures var s := old(GetShardId(key)); cores == old(cores)[s := SetOne(old(cores)[s], key, value)]
    {
      hide Merge, CoreInv;
      var s := GetShardId(key);
      SetOneInv(cores[s], shards[s], key, value);
      ok := ShardEngine.SetStep(cores[s].engine, key, value, segSize).1;
      if ok {
        UpdateRouted(shards, hash, s, shards[s][key := value], Contents()[key := value], key);
        shards := shards[s := shards[s][key := value]];
      }
      cores := cores[s := SetOne(cores[s], key, value)];
    }

    method Del(key: Key) returns (found: bool)
      requires Valid()
      modifies this
      ensures Valid() && |cores| == |old(cores)|
      ensures found <==> key in old(Contents())
      ensures Contents() == Apply(Command.Del(key), old(Contents()))
      ensures var s := old(GetShardId(key)); cores == old(cores)[s := DelOne(old(cores)[s], key)]
    {
      hide Merge, CoreInv;
      var s := GetShardId(key);
      DelOneInv(cores[s], shards[s], key);
      found := ShardEngine.DelStep(cores[s].engine, key).1;
      UpdateRouted(shards, hash, s, shards[s] - {key}, Contents() - {key}, key);
      shards := shards[s := shards[s] - {key}];
      cores := cores[s := DelOne(cores[s], key)];
    }

    /** The matching keys of one shard in table order. */
    method MatchingIn(s: nat, matches: Key -> bool) returns (keys: seq<Key>)
      requires Valid() && s < |cores|
      ensures Enumerates(keys, Matching(shards[s], matches))
    {
      hide Merge, Routed, CoreInv;
      CoreKeys(cores[s], shards[s]);
      var table := ShardEngine.TableOf(cores[s].engine);
      var all := set k | k in table && matches(k);
      assert all == Matching(shards[s], matches);
      var left := all;
      keys := [];
      while left != {}
        invariant left <= all
        invariant Enumerates(keys, all - left)
        decreases left
      {
        var k :| k in left;
        keys, left := keys + [k], left - {k};
      }
      assert all - left == all;
    }

    /**
     * `getby`: the answer is an array of matching pairs, none twice, and the reported number is
     * how many it holds: all of them, or as many as the limit allows. (Module `LimitCounter` has
     * the shards at work at the same time.)
     */
    method GetBy(matches: Key -> bool, limit: Option<nat>, row: (Key, Value) -> string)
      returns (json: string, total: nat, ghost pairs: seq<(Key, Value)>)
      requires Valid() && forall k, v :: row(k, v) != ""
      ensures exists some :: some <= Matching(Contents(), matches) && Enumerates(Firsts(pairs), some)
      ensures DrawnFrom(pairs, Contents())
      ensures json == Dump(Rows(pairs, row))
      ensures total == |pairs| == Limited(|Matching(Contents(), matches)|, limit)
    {
      hide Merge, Routed, Stand, CountedUpTo, Enumerates, Dump, Matching, Limited, DrawnFrom, Rows, Flatten, Firsts, CoreInv,
           Storage.ReadAt, ShardEngine.TableOf, Join;
      var rows: seq<seq<string>> := [];
      RowsNone(row);
      ghost var some: set<Key> := {};
      pairs, total := [], 0;
      CountAll(shards, hash, matches);
      NothingEnumerated();
      PairsNone(Contents());
      NothingTaken(limit);
      Known();
      for s := 0 to |cores|
        invariant |rows| == s && total == |pairs| == |some| == Limited(|CountedUpTo(shards, hash, s, matches)|, limit)
        invariant some <= CountedUpTo(shards, hash, s, matches) && Enumerates(Firsts(pairs), some)
        invariant DrawnFrom(pairs, Contents())
        invariant forall t, r :: 0 <= t < s && r in rows[t] ==> r != ""
        invariant Flatten(rows) == Rows(pairs, row)
      {
        var room := if limit.None? then None else Some(limit.value - total);
        var found: seq<(Key, Value)>;
        ghost var new': set<Key>;
        found, new' := MatchingPairs(s, matches, room);
        CountNext(shards, hash, s, matches);
        EnumeratesSize(Firsts(found), new');
        TakeMore(some, CountedUpTo(shards, hash, s, matches), new', Matching(shards[s], matches), limit);
        JoinedEnumerates(Firsts(pairs), some, Firsts(found), new');
        PairsJoined(pairs, found, row);
        DrawnJoined(pairs, found, Contents());
        FlattenMore(rows, Rows(found, row));
        RowsFull(found, row);
        rows, pairs, total, some := rows + [Rows(found, row)], pairs + found, total + |found|, some + new';
      }
      json := MergeResponses(rows);
    }

    /** As many matching pairs of one shard as there is room for. */
    method MatchingPairs(s: nat, matches: Key -> bool, room: Option<nat>)
      returns (found: seq<(Key, Value)>, ghost some: set<Key>)
      requires Valid() && s < |cores|
      ensures some <= Matching(shards[s], matches) && Enumerates(Firsts(found), some) && DrawnFrom(found, Contents())
      ensures |found| == Limited(|Matching(shards[s], matches)|, room)
    {
      hide Merge, Routed, Stand, CountedUpTo, Enumerates, Dump, Matching, Limited, DrawnFrom, Rows, Flatten, Firsts, CoreInv,
           Storage.ReadAt, ShardEngine.TableOf, Join;
      var order := MatchingIn(s, matches);
      var n := if room.None? || room.value >= |order| then |order| else room.value;
      found := [];
      Known();
      PairsNone(Contents());
      for i := 0 to n
        invariant Firsts(found) == order[..i] && DrawnFrom(found, Contents())
      {
        ListedPair(cores, shards, segSize, hash, s, order, i, matches);
        var k := order[i];
        var value := Storage.ReadAt(cores[s].engine.store.segs, ShardEngine.TableOf(cores[s].engine)[k]);
        PairsMore(found, k, value, Contents());
        assert order[..i + 1] == order[..i] + [k];
        found := found + [(k, value)];
      }
      some := set k | k in order[..n];
      FirstOnes(order, Matching(shards[s], matches), n);
      LimitedIs(|order|, room);
    }

    /** `ShardManager::firstMatchingKeys`. */
    method FirstMatching(matches: Key -> bool, limit: nat) returns (keys: seq<Key>)
      requires Valid()
      ensures keys == Smallest(Matching(Contents(), matches), limit)
      ensures FirstInOrder(keys, (set k | k in Contents() && matches(k)), limit)
    {
      var lists: seq<seq<Key>> := [];
      for s := 0 to |cores|
        invariant |lists| == s
        invariant forall t :: 0 <= t < s ==> Enumerates(lists[t], Matching(shards[t], matches))
      {
        var order := MatchingIn(s, matches);
        lists := lists + [order];
      }
      ListsUnion(shards, hash, lists, matches);
      keys := FirstMatchingKeys(lists, limit);
      SmallestAreFirst(Matching(Contents(), matches), limit);
    }

    /**
     * `setby`: stores the value under chosen keys, `done`, and reports how many they are: all of
     * them if it fits, none if it does not. Only with the largest SegSize a shard can refuse some.
     */
    method SetBy(matches: Key -> bool, value: Value, limit: Option<nat>) returns (updated: nat, ghost done: set<Key>)
      requires Valid() && value != ""
      modifies this
      ensures Valid()
      ensures done <= Chosen(old(Contents()), matches, limit) && updated == |done|
      ensures Contents() == Assign(old(Contents()), done, value)
      ensures segSize < MAX_U64 ==>
                && done == (if |value| <= segSize then Chosen(old(Contents()), matches, limit) else {})
                && Contents() == (if |value| <= segSize then Apply(Command.SetBy(matches, value, limit), old(Contents())) else old(Contents()))
    {
      hide Merge, Routed, Stand;
      if limit.Some? {
        updated, done := SetFirst(matches, value, limit.value);
      } else {
        updated, done := SetEverywhere(matches, value);
      }
    }

    method SetFirst(matches: Key -> bool, value: Value, limit: nat) returns (updated: nat, ghost done: set<Key>)
      requires Valid() && value != ""
      modifies this
      ensures Valid()
      ensures var chosen := SetOf(Smallest(Matching(old(Contents()), matches), limit));
              && done <= chosen && updated == |done| && Contents() == Assign(old(Contents()), done, value)
              && (segSize < MAX_U64 ==> done == if |value| <= segSize then chosen else {})
    {
      hide *;
      ghost var m := Contents();
      var keys := FirstMatching(matches, limit);
      FirstKeys(m, matches, limit);
      updated, done := 0, {};
      AssignNone(m, value);
      for i := 0 to |keys|
        invariant Valid() && done <= SetOf(keys[..i]) && updated == |done| && Contents() == Assign(m, done, value)
        invariant segSize < MAX_U64 ==> done == if |value| <= segSize then SetOf(keys[..i]) else {}
      {
        AssignNext(m, keys, i, done, value);
        var ok := Set(keys[i], value);
        SetIs(keys[i], value, Assign(m, done, value));
        if ok {
          updated, done := updated + 1, done + {keys[i]};
        }
      }
      assert keys[..|keys|] == keys;
    }

    /** Every shard updates its own matches. */
    method SetEverywhere(matches: Key -> bool, value: Value) returns (updated: nat, ghost done: set<Key>)
      requires Valid() && value != ""
      modifies this
      ensures Valid()
      ensures var found := Matching(old(Contents()), matches);
              && done <= found && updated == |done| && Contents() == Assign(old(Contents()), done, value)
              && (segSize < MAX_U64 ==> done == if |value| <= segSize then found else {})
    {
      hide *;
      ghost var was := shards;
      updated, done := 0, {};
      Known();
      CountAll(was, hash, matches);
      for s := 0 to |cores|
        invariant Valid() && |cores| == |shards| == |was|
        invariant forall t :: s <= t < |was| ==> shards[t] == was[t]
        invariant forall t :: 0 <= t < s ==> shards[t] == Assign(was[t], done, value)
        invariant done <= CountedUpTo(was, hash, s, matches) && updated == |done|
        invariant segSize < MAX_U64 ==> done == if |value| <= segSize then CountedUpTo(was, hash, s, matches) else {}
      {
        CountNext(was, hash, s, matches);
        var n, here := SetShard(s, matches, value);
        AssignShard(was, hash, s, matches, done, here, value);
        updated, done := updated + n, done + here;
      }
      Known();
      AssignPointwise(was, shards, hash, done, value);
    }

    /** `Shard::setBy` on one shard. */
    method SetShard(s: nat, matches: Key -> bool, value: Value) returns (n: nat, ghost here: set<Key>)
      requires Valid() && s < |cores| && value != ""
      modifies this
      ensures Valid() && |cores| == |old(cores)| && |shards| == |old(shards)|
      ensures forall t :: 0 <= t < |shards| && t != s ==> shards[t] == old(shards)[t]
      ensures here <= Matching(old(shards)[s], matches) && n == |here|
      ensures shards[s] == Assign(old(shards)[s], here, value)
      ensures segSize < MAX_U64 ==> here == if |value| <= segSize then Matching(old(shards)[s], matches) else {}
      ensures exists keys :: Enumerates(keys, Matching(old(shards)[s], matches))
                             && cores == old(cores)[s := SetMany(old(cores)[s], keys, value)]
    {
      hide CoreInv, Merge;
      var keys := MatchingIn(s, matches);
      SetManyInv(cores[s], shards[s], keys, value);
      ghost var done := ShardEngine.Accepted(cores[s].engine, keys, value, segSize);
      AcceptedKeys(cores[s].engine, keys, value, segSize, shards[s], matches);
      n, here := ShardEngine.SetAll(cores[s].engine, keys, value, segSize).1, ShardEngine.KeySet(done);
      SameKeysRouted(shards, hash, s, ShardEngine.AllSet(shards[s], done, value));
      shards := shards[s := ShardEngine.AllSet(shards[s], done, value)];
      cores := cores[s := SetMany(cores[s], keys, value)];
    }

    /** `delby`: removes the chosen keys, and reports how many they were. */
    method DelBy(matches: Key -> bool, limit: Option<nat>) returns (deleted: nat)
      requires Valid()
      modifies this
      ensures Valid()
      ensures Contents() == Apply(Command.DelBy(matches, limit), old(Contents()))
      ensures deleted == |Chosen(old(Contents()), matches, limit)|
    {
      hide Merge, Routed, Stand;
      if limit.Some? {
        deleted := DelFirst(matches, limit.value);
      } else {
        deleted := DelEverywhere(matches);
      }
    }

    method DelFirst(matches: Key -> bool, limit: nat) returns (deleted: nat)
      requires Valid()
      modifies this
      ensures Valid()
      ensures Contents() == old(Contents()) - SetOf(Smallest(Matching(old(Contents()), matches), limit))
      ensures deleted == |SetOf(Smallest(Matching(old(Contents()), matches), limit))|
    {
      hide *;
      ghost var m := Contents();
      var keys := FirstMatching(matches, limit);
      FirstKeys(m, matches, limit);
      RemoveNone(m);
      deleted := 0;
      for i := 0 to |keys|
        invariant Valid() && deleted == i
        invariant Contents() == m - SetOf(keys[..i])
      {
        RemoveNext(m, keys, i);
        DelIs(keys[i], m - SetOf(keys[..i]));
        var found := Del(keys[i]);
        deleted := deleted + (if found then 1 else 0);
      }
      assert keys[..|keys|] == keys;
    }

    method DelEverywhere(matches: Key -> bool) returns (deleted: nat)
      requires Valid()
      modifies this
      ensures Valid()
      ensures Contents() == old(Contents()) - Matching(old(Contents()), matches)
      ensures deleted == |Matching(old(Contents()), matches)|
    {
      hide *;
      ghost var was := shards;
      deleted := 0;
      Known();
      CountAll(was, hash, matches);
      for s := 0 to |cores|
        invariant Valid() && |cores| == |shards| == |was|
        invariant forall t :: s <= t < |was| ==> shards[t] == was[t]
        invariant forall t :: 0 <= t < s ==> shards[t] == Unmatched(was[t], matches)
        invariant deleted == |CountedUpTo(was, hash, s, matches)|
      {
        CountNext(was, hash, s, matches);
        var n := DelShard(s, matches);
        deleted := deleted + n;
      }
      Known();
      RemovePointwise(was, shards, hash, matches);
    }

    /** `Shard::delBy` on one shard. */
    method DelShard(s: nat, matches: Key -> bool) returns (n: nat)
      requires Valid() && s < |cores|
      modifies this
      ensures Valid() && |cores| == |old(cores)| && |shards| == |old(shards)|
      ensures forall t :: 0 <= t < |shards| && t != s ==> shards[t] == old(shards)[t]
      ensures shards[s] == Unmatched(old(shards)[s], matches)
      ensures n == |Matching(old(shards)[s], matches)|
      ensures exists keys :: Enumerates(keys, Matching(old(shards)[s], matches)) && cores == old(cores)[s := DelMany(old(cores)[s], keys)]
    {
      hide CoreInv, Merge;
      var keys := MatchingIn(s, matches);
      DelManyInv(cores[s], shards[s], keys);
      EnumeratesSize(keys, Matching(shards[s], matches));
      assert ShardEngine.KeySet(keys) == Matching(shards[s], matches);
      n := ShardEngine.DelAll(cores[s].engine, keys).1;
      SameKeysRouted(shards, hash, s, shards[s] - Matching(shards[s], matches));
      shards := shards[s := shards[s] - Matching(shards[s], matches)];
      cores := cores[s := DelMany(cores[s], keys)];
    }

    /** A command; one that does not fit changes nothing. */
    method Execute(c: Command)
      requires Valid() && (c.Set? || c.SetBy? ==> c.value != "")
      modifies this
      ensures Valid()
      ensures segSize < MAX_U64 ==> Contents() == if Size(c) <= segSize then Apply(c, old(Contents())) else old(Contents())
    {
      hide Merge, Routed, Apply, Stand, Storage.Refused;
      match c
      case Set(k, v) => var _ := Set(k, v);
      case Del(k) => var _ := Del(k);
      case SetBy(p, v, limit) => var _, _ := SetBy(p, v, limit);
      case DelBy(p, limit) => var _ := DelBy(p, limit);
    }

    /**
     * Replays a serial log, limited pattern commands included: the result depends on the log, the
     * segment size and the base map only, not on the shard count, the hash or any table order.
     */
    method Replay(log: seq<Command>)
      requires Valid() && forall c :: c in log && (c.Set? || c.SetBy?) ==> c.value != ""
      modifies this
      ensures Valid()
      ensures segSize < MAX_U64 ==> Contents() == Run(Fitting(log, segSize), old(Contents()))
    {
      hide Merge, Routed, Apply, Stand;
      for i := 0 to |log|
        invariant Valid() && (segSize < MAX_U64 ==> Contents() == Run(Fitting(log[..i], segSize), old(Contents())))
      {
        assert log[..i + 1][..i] == log[..i];
        ghost var done := Fitting(log[..i], segSize);
        assert (done + [log[i]])[..|done|] == done;
        Execute(log[i]);
      }
      assert log[..|log|] == log;
    }
  }

  lemma PairsNone(m: KeyValues)
    ensures Firsts([]) == [] && DrawnFrom([], m)
  {
  }

  lemma LimitedIs(n: nat, limit: Option<nat>)
    ensures Limited(n, limit) == if limit.None? || limit.value >= n then n else limit.value
  {
  }

  lemma RowsNone(row: (Key, Value) -> string)
    ensures Flatten([]) == [] == Rows([], row)
  {
  }

  lemma RowsFull(pairs: seq<(Key, Value)>, row: (Key, Value) -> string)
    requires forall k, v :: row(k, v) != ""
    ensures forall r :: r in Rows(pairs, row) ==> r != ""
  {
  }

  lemma FlattenMore(rows: seq<seq<string>>, more: seq<string>)
    ensures Flatten(rows + [more]) == Flatten(rows) + more
  {
    assert (rows + [more])[..|rows|] == rows;
  }

  lemma NothingTaken(limit: Option<nat>)
    ensures Limited(0, limit) == 0 && forall n: nat :: limit.Some? ==> Limited(n, limit) <= limit.value
  {
  }

  lemma DrawnJoined(a: seq<(Key, Value)>, b: seq<(Key, Value)>, m: KeyValues)
    requires DrawnFrom(a, m) && DrawnFrom(b, m)
    ensures DrawnFrom(a + b, m)
  {
  }

  lemma PairsMore(pairs: seq<(Key, Value)>, k: Key, v: Value, m: KeyValues)
    requires DrawnFrom(pairs, m) && Lookup(m, k) == Some(v)
    ensures Firsts(pairs + [(k, v)]) == Firsts(pairs) + [k] && DrawnFrom(pairs + [(k, v)], m)
  {
  }

  /** A listed key of a shard, and the value the whole map has for it. */
  lemma ListedPair(cores: seq<Core>, shards: seq<KeyValues>, segSize: U64, hash: Key -> nat, s: nat, order: seq<Key>, i: nat,
                   matches: Key -> bool)
    requires Routed(shards, hash) && Stand(cores, shards, segSize) && s < |cores| && i < |order|
    requires Enumerates(order, Matching(shards[s], matches))
    ensures var k, e := order[i], cores[s].engine;
            && k in ShardEngine.TableOf(e)
            && Lookup(Merge(shards), k) == Some(Storage.ReadAt(e.store.segs, ShardEngine.TableOf(e)[k]))
  {
    hide Merge, CoreInv;
    var k := order[i];
    assert k in order;
    StoredPair(cores[s], shards[s], k);
    LookupRouted(shards, hash, k);
  }

  lemma FirstOnes(order: seq<Key>, all: set<Key>, n: nat)
    requires Enumerates(order, all) && n <= |order|
    ensures var some := set k | k in order[..n]; some <= all && Enumerates(order[..n], some) && |order| == |all|
  {
    EnumeratesSize(order, all);
    assert forall k :: k in order[..n] ==> k in order;
  }

  /** One more shard: what was taken so far, and as much of its matches as there is room for. */
  lemma TakeMore(some: set<Key>, before: set<Key>, more: set<Key>, here: set<Key>, limit: Option<nat>)
    requires some <= before && more <= here && before !! here
    requires |some| == Limited(|before|, limit)
    requires |more| == Limited(|here|, if limit.None? then None else Some(limit.value - |some|))
    ensures some !! more && some + more <= before + here && |some + more| == |some| + |more| == Limited(|before + here|, limit)
  {
    SubsetSize(some, before);
    assert |before + here| == |before| + |here|;
  }

  /** As many as there are, or as many as the limit allows. */
  function Limited(n: nat, limit: Option<nat>): nat {
    if limit.None? then n else Min(limit.value, n)
  }

  lemma FirstKeys(m: KeyValues, matches: Key -> bool, limit: nat)
    ensures var keys := Smallest(Matching(m, matches), limit);
            && SetOf(keys) <= m.Keys && |SetOf(keys)| == |keys|
            && forall i, j :: 0 <= i < j < |keys| ==> keys[i] != keys[j]
  {
    SmallestDistinct(Matching(m, matches), limit);
    DistinctSize(Smallest(Matching(m, matches), limit));
  }

  lemma RemoveNone(m: KeyValues)
    ensures m - SetOf([]) == m
  {
  }

  lemma SetIs(k: Key, v: Value, m: KeyValues)
    ensures Apply(Command.Set(k, v), m) == m[k := v]
  {
  }

  lemma DelIs(k: Key, m: KeyValues)
    ensures Apply(Command.Del(k), m) == m - {k}
  {
  }

  lemma EmptyCore(c: Core)
    requires c.engine == ShardEngine.Engine([], Storage.Store(map[1 := ""], 1)) && c.cache.order == [] && c.cache.entries == map[]
    ensures CoreInv(c, map[])
  {
  }

  lemma CoreKeys(c: Core, m: KeyValues)
    requires CoreInv(c, m)
    ensures ShardEngine.TableOf(c.engine).Keys == m.Keys
  {
    ShardEngine.ViewKeys(c.engine);
  }

  lemma StoredPair(c: Core, m: KeyValues, k: Key)
    requires CoreInv(c, m) && k in m
    ensures k in ShardEngine.TableOf(c.engine)
    ensures m[k] == Storage.ReadAt(c.engine.store.segs, ShardEngine.TableOf(c.engine)[k])
  {
    CoreKeys(c, m);
    StoredValue(c.engine, k);
  }

  /** One shard's map replaced by one that differs at `key`, which lives there. */
  lemma UpdateRouted(shards: seq<KeyValues>, hash: Key -> nat, s: nat, m: KeyValues, whole: KeyValues, key: Key)
    requires Routed(shards, hash) && s == hash(key) % |shards|
    requires forall k :: k != key ==> Lookup(m, k) == Lookup(shards[s], k) && Lookup(whole, k) == Lookup(Merge(shards), k)
    requires Lookup(whole, key) == Lookup(m, key)
    ensures Routed(shards[s := m], hash) && Merge(shards[s := m]) == whole
  {
    var shards' := shards[s := m];
    assert forall k :: k in m && k != key ==> Lookup(m, k) == Lookup(shards[s], k);
    forall k
      ensures Lookup(whole, k) == Lookup(shards'[hash(k) % |shards|], k)
    {
      LookupRouted(shards, hash, k);
    }
    PointwiseMerge(shards, shards', hash, whole);
  }

  lemma SameKeysRouted(shards: seq<KeyValues>, hash: Key -> nat, s: nat, m: KeyValues)
    requires Routed(shards, hash) && s < |shards| && m.Keys <= shards[s].Keys
    ensures Routed(shards[s := m], hash)
  {
  }

  lemma AcceptedKeys(e: ShardEngine.Engine, keys: seq<Key>, v: Value, segSize: U64, m: KeyValues, matches: Key -> bool)
    requires Enumerates(keys, Matching(m, matches))
    ensures var done := ShardEngine.Accepted(e, keys, v, segSize); var here := ShardEngine.KeySet(done);
            && here <= Matching(m, matches) && |here| == |done|
            && ShardEngine.AllSet(m, done, v) == Assign(m, here, v)
            && (segSize < MAX_U64 ==> here == if |v| <= segSize then Matching(m, matches) else {})
  {
    assert Matching(m, matches) <= m.Keys;
    hide ShardEngine.Accepted, ShardEngine.AllSet, ShardEngine.KeySet, Assign, Matching, Enumerates;
    var done := ShardEngine.Accepted(e, keys, v, segSize);
    AcceptedSet(e, keys, v, segSize, Matching(m, matches));
    AllSetIsAssign(m, done, v);
    if segSize < MAX_U64 {
      ShardEngine.AcceptedAll(e, keys, v, segSize);
    }
  }

  lemma AcceptedSet(e: ShardEngine.Engine, keys: seq<Key>, v: Value, segSize: U64, all: set<Key>)
    requires Enumerates(keys, all)
    ensures var done := ShardEngine.Accepted(e, keys, v, segSize); var here := ShardEngine.KeySet(done);
            && here <= all && |here| == |done|
            && (done == keys ==> here == all) && (done == [] ==> here == {})
  {
    hide ShardEngine.Accepted;
    var done := ShardEngine.Accepted(e, keys, v, segSize);
    AcceptedAmong(e, keys, v, segSize);
    EnumeratesSize(done, ShardEngine.KeySet(done));
  }

  lemma AllSetIsAssign(m: KeyValues, keys: seq<Key>, v: Value)
    requires ShardEngine.KeySet(keys) <= m.Keys
    ensures ShardEngine.AllSet(m, keys, v) == Assign(m, ShardEngine.KeySet(keys), v)
  {
  }

  lemma {:induction false} AcceptedAmong(e: ShardEngine.Engine, keys: seq<Key>, v: Value, segSize: U64)
    requires forall i, j :: 0 <= i < j < |keys| ==> keys[i] != keys[j]
    ensures var done := ShardEngine.Accepted(e, keys, v, segSize);
            && (forall k :: k in done ==> k in keys)
            && forall i, j :: 0 <= i < j < |done| ==> done[i] != done[j]
  {
    if keys != [] {
      AcceptedAmong(e, keys[..|keys| - 1], v, segSize);
      assert keys[|keys| - 1] !in keys[..|keys| - 1];
    }
  }

  lemma AssignNone(m: KeyValues, v: Value)
    ensures Assign(m, {}, v) == m && SetOf([]) == {}
  {
  }

  lemma AssignNext(m: KeyValues, keys: seq<Key>, i: nat, done: set<Key>, v: Value)
    requires i < |keys| && SetOf(keys) <= m.Keys && done <= SetOf(keys[..i])
    requires forall a, b :: 0 <= a < b < |keys| ==> keys[a] != keys[b]
    ensures SetOf(keys[..i + 1]) == SetOf(keys[..i]) + {keys[i]} && keys[i] !in done
    ensures Assign(m, done + {keys[i]}, v) == Assign(m, done, v)[keys[i] := v]
  {
    assert keys[..i + 1] == keys[..i] + [keys[i]];
    assert keys[i] in SetOf(keys);
  }

  /** What one shard assigns concerns no other shard's map. */
  lemma AssignShard(was: seq<KeyValues>, hash: Key -> nat, s: nat, matches: Key -> bool, done: set<Key>, here: set<Key>, v: Value)
    requires Routed(was, hash) && s < |was| && done <= CountedUpTo(was, hash, s, matches) && here <= Matching(was[s], matches)
    ensures done !! here && Assign(was[s], done + here, v) == Assign(was[s], here, v)
    ensures forall t :: 0 <= t < s ==> Assign(was[t], done + here, v) == Assign(was[t], done, v)
  {
    forall k | k in done
      ensures k !in was[s]
    {
      LookupRouted(was, hash, k);
    }
    forall t | 0 <= t < s
      ensures Assign(was[t], done + here, v) == Assign(was[t], done, v)
    {
      forall k | k in here
        ensures k !in was[t]
      {
        assert k in Matching(was[s], matches) && k in was[s];
        assert hash(k) % |was| == s;
      }
    }
  }

  lemma RemoveNext(m: KeyValues, keys: seq<Key>, i: nat)
    requires i < |keys| && SetOf(keys) <= m.Keys
    requires forall a, b :: 0 <= a < b < |keys| ==> keys[a] != keys[b]
    ensures m - SetOf(keys[..i + 1]) == m - SetOf(keys[..i]) - {keys[i]}
    ensures keys[i] in m - SetOf(keys[..i])
  {
    assert keys[..i + 1] == keys[..i] + [keys[i]];
    assert keys[i] in SetOf(keys);
  }

  function Assign(m: KeyValues, keys: set<Key>, v: Value): KeyValues {
    map k | k in m :: if k in keys then v else m[k]
  }

  function Unmatched(m: KeyValues, matches: Key -> bool): KeyValues {
    m - Matching(m, matches)
  }

  function Firsts(pairs: seq<(Key, Value)>): (keys: seq<Key>)
    ensures |keys| == |pairs|
  {
    seq(|pairs|, i requires 0 <= i < |pairs| => pairs[i].0)
  }

  function Rows(pairs: seq<(Key, Value)>, row: (Key, Value) -> string): seq<string> {
    seq(|pairs|, i requires 0 <= i < |pairs| => row(pairs[i].0, pairs[i].1))
  }

  lemma NothingEnumerated()
    ensures Enumerates(Firsts([]), {})
  {
  }

  lemma PairsJoined(a: seq<(Key, Value)>, b: seq<(Key, Value)>, row: (Key, Value) -> string)
    ensures Firsts(a) + Firsts(b) == Firsts(a + b)
    ensures Rows(a, row) + Rows(b, row) == Rows(a + b, row)
  {
  }

  /** The pairs are pairs of the map. */
  ghost predicate DrawnFrom(pairs: seq<(Key, Value)>, m: KeyValues) {
    forall i :: 0 <= i < |pairs| ==> Lookup(m, pairs[i].0) == Some(pairs[i].1)
  }

  lemma SmallestDistinct(s: set<Key>, n: nat)
    ensures var r := Smallest(s, n); forall i, j :: 0 <= i < j < |r| ==> r[i] != r[j]
    ensures SetOf(Smallest(s, n)) <= s
  {
    SortedDistinct(Ascending(s));
    SmallestSubset(s, n);
  }

  lemma {:induction false} ListsUnion(shards: seq<KeyValues>, hash: Key -> nat, lists: seq<seq<Key>>, matches: Key -> bool)
    requires Routed(shards, hash) && |lists| == |shards|
    requires forall t :: 0 <= t < |lists| ==> Enumerates(lists[t], Matching(shards[t], matches))
    ensures Union(lists) == Matching(Merge(shards), matches)
    ensures forall s, t, k :: 0 <= s < t < |lists| && k in lists[s] ==> k !in lists[t]
  {
    forall k
      ensures k in Union(lists) <==> k in Matching(Merge(shards), matches)
    {
      LookupRouted(shards, hash, k);
      if k in Merge(shards) && matches(k) {
        assert k in lists[hash(k) % |shards|];
      }
    }
    forall s, t, k | 0 <= s < t < |lists| && k in lists[s]
      ensures k !in lists[t]
    {
      assert k in shards[s];
      LookupRouted(shards, hash, k);
      assert k !in Matching(shards[t], matches);
    }
  }

  /** The matches that live in the first `n` shards. */
  function CountedUpTo(shards: seq<KeyValues>, hash: Key -> nat, n: nat, matches: Key -> bool): set<Key>
    requires Routed(shards, hash)
  {
    set k | k in Merge(shards) && matches(k) && hash(k) % |shards| < n
  }

  lemma CountNext(shards: seq<KeyValues>, hash: Key -> nat, n: nat, matches: Key -> bool)
    requires Routed(shards, hash) && n < |shards|
    ensures CountedUpTo(shards, hash, n + 1, matches) == CountedUpTo(shards, hash, n, matches) + Matching(shards[n], matches)
    ensures CountedUpTo(shards, hash, n, matches) !! Matching(shards[n], matches)
  {
    forall k
      ensures k in CountedUpTo(shards, hash, n + 1, matches) <==> k in CountedUpTo(shards, hash, n, matches) || k in Matching(shards[n], matches)
    {
      LookupRouted(shards, hash, k);
    }
    assert CountedUpTo(shards, hash, n + 1, matches) == CountedUpTo(shards, hash, n, matches) + Matching(shards[n], matches);
    assert CountedUpTo(shards, hash, n, matches) !! Matching(shards[n], matches);
  }

  lemma CountAll(shards: seq<KeyValues>, hash: Key -> nat, matches: Key -> bool)
    requires Routed(shards, hash)
    ensures CountedUpTo(shards, hash, 0, matches) == {}
    ensures CountedUpTo(shards, hash, |shards|, matches) == Matching(Merge(shards), matches)
  {
  }

  lemma {:induction false} AssignPointwise(was: seq<KeyValues>, now: seq<KeyValues>, hash: Key -> nat, done: set<Key>, v: Value)
    requires Routed(was, hash) && |now| == |was|
    requires forall t :: 0 <= t < |was| ==> now[t] == Assign(was[t], done, v)
    ensures Routed(now, hash) && Merge(now) == Assign(Merge(was), done, v)
  {
    forall k
      ensures Lookup(Merge(was), k) == Lookup(was[hash(k) % |was|], k)
    {
      LookupRouted(was, hash, k);
    }
    PointwiseMerge(was, now, hash, Assign(Merge(was), done, v));
  }

  lemma RemovePointwise(was: seq<KeyValues>, now: seq<KeyValues>, hash: Key -> nat, matches: Key -> bool)
    requires Routed(was, hash) && |now| == |was|
    requires forall t :: 0 <= t < |was| ==> now[t] == Unmatched(was[t], matches)
    ensures Routed(now, hash) && Merge(now) == Merge(was) - Matching(Merge(was), matches)
  {
    forall k
      ensures Lookup(Merge(was), k) == Lookup(was[hash(k) % |was|], k)
    {
      LookupRouted(was, hash, k);
    }
    PointwiseMerge(was, now, hash, Merge(was) - Matching(Merge(was), matches));
  }

  lemma JoinedEnumerates(a: seq<Key>, s: set<Key>, b: seq<Key>, t: set<Key>)
    requires Enumerates(a, s) && Enumerates(b, t) && s !! t
    ensures Enumerates(a + b, s + t)
  {
    forall i, j | 0 <= i < j < |a + b|
      ensures (a + b)[i] != (a + b)[j]
    {
      if i < |a| <= j {
        assert a[i] in s && b[j - |a|] in t;
      }
    }
  }
}
