/**
 * The per-shard LRU cache: a recency list with stable iterators and a table that stores, next
 * to each value, the iterator of the key's own list node.
 */
module Lru {
  import opened Base

  datatype CacheEntry = CacheEntry(loc: Location, value: Value)

  /** What the cache stands for: the keys from most to least recently used, and their entries. */
  datatype Cache = Cache(capacity: nat, order: seq<Key>, entries: map<Key, CacheEntry>)

  ghost predicate Valid(c: Cache) {
    Enumerates(c.order, c.entries.Keys) && |c.order| <= c.capacity
  }

  function Without<T(==)>(s: seq<T>, x: T): seq<T> {
    if s == [] then [] else if s[0] == x then Without(s[1..], x) else [s[0]] + Without(s[1..], x)
  }

  lemma {:induction false} WithoutMembers<T>(s: seq<T>, x: T)
    ensures forall y :: y in Without(s, x) <==> y in s && y != x
    ensures |Without(s, x)| <= |s|
    ensures x in s ==> |Without(s, x)| < |s|
    ensures x !in s ==> Without(s, x) == s
  {
    if s != [] {
      WithoutMembers(s[1..], x);
      assert s == [s[0]] + s[1..];
    }
  }

  /** From a list without duplicates exactly one node goes. */
  lemma {:induction false} WithoutOne<T>(s: seq<T>, i: nat)
    requires i < |s|
    requires forall j, k :: 0 <= j < k < |s| ==> s[j] != s[k]
    ensures Without(s, s[i]) == s[..i] + s[i + 1..]
  {
    if i == 0 {
      WithoutMembers(s[1..], s[0]);
    } else {
      WithoutOne(s[1..], i - 1);
      assert s[..i] == [s[0]] + s[1..][..i - 1];
    }
  }

  lemma WithoutEnumerates<T(!new)>(order: seq<T>, s: set<T>, x: T)
    requires Enumerates(order, s)
    ensures Enumerates(Without(order, x), s - {x})
    ensures |Without(order, x)| == |order| - if x in s then 1 else 0
  {
    WithoutMembers(order, x);
    if x in order {
      var i :| 0 <= i < |order| && order[i] == x;
      WithoutOne(order, i);
    }
  }

  // ------------------------------------------------------------ operations

  function Touch(order: seq<Key>, k: Key): seq<Key> {
    [k] + Without(order, k)
  }

  function GetStep(c: Cache, k: Key): Cache {
    if k in c.entries then c.(order := Touch(c.order, k)) else c
  }

  function PutStep(c: Cache, k: Key, e: CacheEntry): Cache {
    if c.capacity == 0 then c
    else if k in c.entries then c.(order := Touch(c.order, k), entries := c.entries[k := e])
    else
      var kept := if |c.order| >= c.capacity && c.order != [] then ResizeStep(c, |c.order| - 1) else c;
      Cache(c.capacity, [k] + kept.order, kept.entries[k := e])
  }

  function RemoveStep(c: Cache, k: Key): Cache {
    c.(order := Without(c.order, k), entries := c.entries - {k})
  }

  function Restrict<V>(m: map<Key, V>, keys: seq<Key>): map<Key, V> {
    map k | k in keys && k in m :: m[k]
  }

  lemma RestrictTwice<V>(m: map<Key, V>, keys: seq<Key>, a: nat, b: nat)
    requires a <= b <= |keys|
    ensures Restrict(Restrict(m, keys[..b]), keys[..a]) == Restrict(m, keys[..a])
  {
    assert keys[..a] == keys[..b][..a];
  }

  /** Keeps the `cap` most recently used keys. */
  function ResizeStep(c: Cache, cap: nat): Cache {
    if |c.order| <= cap then c.(capacity := cap)
    else Cache(cap, c.order[..cap], Restrict(c.entries, c.order[..cap]))
  }

  lemma TouchEnumerates(c: Cache, k: Key)
    requires Valid(c)
    ensures Enumerates(Touch(c.order, k), c.entries.Keys + {k})
    ensures Enumerates(Without(c.order, k), c.entries.Keys - {k})
    ensures |Without(c.order, k)| <= |c.order| && (k in c.order ==> |Touch(c.order, k)| <= |c.order|)
  {
    hide Without;
    WithoutEnumerates(c.order, c.entries.Keys, k);
  }

  lemma ResizeValid(c: Cache, cap: nat)
    requires Valid(c)
    ensures Valid(ResizeStep(c, cap))
    ensures forall x :: x in ResizeStep(c, cap).entries ==> x in c.entries && ResizeStep(c, cap).entries[x] == c.entries[x]
  {
  }

  lemma PutValid(c: Cache, k: Key, e: CacheEntry)
    requires Valid(c)
    ensures Valid(PutStep(c, k, e))
    ensures forall x :: x in PutStep(c, k, e).entries ==>
              if x == k && c.capacity > 0 then PutStep(c, k, e).entries[x] == e
              else x in c.entries && PutStep(c, k, e).entries[x] == c.entries[x]
  {
    if c.capacity > 0 {
      if k in c.entries {
        TouchEnumerates(c, k);
        assert c.entries.Keys + {k} == c.entries[k := e].Keys;
      } else {
        if |c.order| >= c.capacity {
          ResizeValid(c, |c.order| - 1);
        }
        var kept := if |c.order| >= c.capacity then ResizeStep(c, |c.order| - 1) else c;
        assert Enumerates(kept.order, kept.entries.Keys) && k !in kept.order;
      }
    }
  }

  // -------------------------------------------------- recency over whole runs

  datatype Op = GetOp(key: Key) | PutOp(key: Key, entry: CacheEntry) | RemoveOp(key: Key) | ResizeOp(cap: nat)

  function Apply(c: Cache, op: Op): Cache {
    match op
    case GetOp(k) => GetStep(c, k)
    case PutOp(k, e) => PutStep(c, k, e)
    case RemoveOp(k) => RemoveStep(c, k)
    case ResizeOp(cap) => ResizeStep(c, cap)
  }

  predicate Uses(c: Cache, op: Op, k: Key) {
    (op.GetOp? && op.key == k && k in c.entries) || (op.PutOp? && op.key == k && c.capacity > 0)
  }

  function Run(cap: nat, ops: seq<Op>): Cache {
    if ops == [] then Cache(cap, [], map[]) else Apply(Run(cap, ops[..|ops| - 1]), ops[|ops| - 1])
  }

  /** When `k` was last stored or found: the number of the operation, counted from 1; 0 for never. */
  function LastUse(cap: nat, ops: seq<Op>, k: Key): nat {
    if ops == [] then 0
    else
      var front := ops[..|ops| - 1];
      if Uses(Run(cap, front), ops[|ops| - 1], k) then |ops| else LastUse(cap, front, k)
  }

  lemma {:induction false} LastUseBound(cap: nat, ops: seq<Op>, k: Key)
    ensures LastUse(cap, ops, k) <= |ops|
  {
    if ops != [] {
      LastUseBound(cap, ops[..|ops| - 1], k);
    }
  }

  /** Whether the operation moves its key to the front of the list. */
  predicate Fronts(c: Cache, op: Op) {
    (op.GetOp? || op.PutOp?) && Uses(c, op, op.key)
  }

  /** The list below the key that the operation moves to the front. */
  function Tail(c: Cache, op: Op): seq<Key> {
    match op
    case GetOp(k) => if k in c.entries then Without(c.order, k) else c.order
    case PutOp(k, _) =>
      if c.capacity == 0 then c.order
      else if k in c.entries then Without(c.order, k)
      else if |c.order| >= c.capacity && c.order != [] then c.order[..|c.order| - 1]
      else c.order
    case RemoveOp(k) => Without(c.order, k)
    case ResizeOp(cap) => if |c.order| <= cap then c.order else c.order[..cap]
  }

  ghost predicate Descending(s: seq<Key>, use: Key -> nat) {
    forall i, j :: 0 <= i < j < |s| ==> use(s[i]) > use(s[j])
  }

  lemma TailShape(c: Cache, op: Op)
    requires Valid(c)
    ensures Apply(c, op).order == (if Fronts(c, op) then [op.key] else []) + Tail(c, op)
    ensures forall x :: x in Tail(c, op) ==> x in c.order && (Fronts(c, op) ==> x != op.key)
  {
    hide Without;
    if !op.ResizeOp? {
      WithoutMembers(c.order, op.key);
    }
  }

  lemma WithoutDescending(s: seq<Key>, x: Key, use: Key -> nat)
    requires Descending(s, use)
    ensures Descending(Without(s, x), use)
  {
    hide Without;
    WithoutMembers(s, x);
    if x in s {
      var i :| 0 <= i < |s| && s[i] == x;
      WithoutOne(s, i);
    }
  }

  lemma TailOrdered(c: Cache, op: Op, use: Key -> nat)
    requires Valid(c) && Descending(c.order, use)
    ensures Descending(Tail(c, op), use)
  {
    hide Without;
    if !op.ResizeOp? {
      WithoutDescending(c.order, op.key, use);
    }
  }

  lemma ApplyValid(c: Cache, op: Op)
    requires Valid(c)
    ensures Valid(Apply(c, op))
  {
    match op
    case GetOp(k) => TouchEnumerates(c, k); assert k in c.entries ==> c.entries.Keys + {k} == c.entries.Keys;
    case PutOp(k, e) => PutValid(c, k, e);
    case RemoveOp(k) => TouchEnumerates(c, k);
    case ResizeOp(cap) => ResizeValid(c, cap);
  }

  /** Over every run the list is sorted by last use, most recent first. */
  lemma {:induction false} OrderIsRecency(cap: nat, ops: seq<Op>)
    ensures Valid(Run(cap, ops))
    ensures Descending(Run(cap, ops).order, x => LastUse(cap, ops, x))
  {
    if ops != [] {
      var front, op := ops[..|ops| - 1], ops[|ops| - 1];
      OrderIsRecency(cap, front);
      var c := Run(cap, front);
      ApplyValid(c, op);
      var use := x => LastUse(cap, front, x);
      TailShape(c, op);
      TailOrdered(c, op, use);
      forall x
        ensures LastUse(cap, ops, x) == if Uses(c, op, x) then |ops| else use(x)
        ensures use(x) < |ops|
      {
        LastUseBound(cap, front, x);
      }
      FrontedDescending(c, op, use, x => LastUse(cap, ops, x), |ops|);
    }
  }

  lemma FrontedDescending(c: Cache, op: Op, use: Key -> nat, use': Key -> nat, now: nat)
    requires Descending(Tail(c, op), use)
    requires forall x :: x in Tail(c, op) && Fronts(c, op) ==> x != op.key
    requires forall x :: use'(x) == (if Uses(c, op, x) then now else use(x)) && use(x) < now
    ensures Descending((if Fronts(c, op) then [op.key] else []) + Tail(c, op), use')
  {
    var head := if Fronts(c, op) then [op.key] else [];
    var s := head + Tail(c, op);
    forall i, j | 0 <= i < j < |s|
      ensures use'(s[i]) > use'(s[j])
    {
      assert s[j] == Tail(c, op)[j - |head|] && s[j] in Tail(c, op);
      if i >= |head| {
        assert s[i] == Tail(c, op)[i - |head|] && s[i] in Tail(c, op);
      }
    }
  }

  /** A put that evicts drops the one key whose last use is the oldest of all cached keys. */
  lemma {:induction false} EvictsOldest(cap: nat, ops: seq<Op>, k: Key, e: CacheEntry, victim: Key, x: Key)
    requires var c := Run(cap, ops); victim in c.entries && victim !in PutStep(c, k, e).entries
    requires x in Run(cap, ops).entries && x != victim
    ensures LastUse(cap, ops, victim) < LastUse(cap, ops, x) && x in PutStep(Run(cap, ops), k, e).entries
  {
    hide Run, LastUse, PutStep;
    OrderIsRecency(cap, ops);
    var c := Run(cap, ops);
    PutDropsLast(c, k, e, victim);
    var n := |c.order| - 1;
    var j :| 0 <= j < |c.order| && c.order[j] == x;
    assert j < n;
  }

  lemma PutDropsLast(c: Cache, k: Key, e: CacheEntry, victim: Key)
    requires Valid(c) && victim in c.entries && victim !in PutStep(c, k, e).entries
    ensures c.order != [] && victim == c.order[|c.order| - 1]
    ensures forall m :: 0 <= m < |c.order| - 1 ==> c.order[m] in PutStep(c, k, e).entries
  {
    var n := |c.order| - 1;
    forall m | 0 <= m < n
      ensures c.order[m] in PutStep(c, k, e).entries
    {
      assert c.order[..n][m] == c.order[m];
    }
    var i :| 0 <= i < |c.order| && c.order[i] == victim;
  }

  /** A resize keeps exactly as many keys as fit, and every kept key was used after every dropped one. */
  lemma {:induction false} ResizeKeepsNewest(cap: nat, ops: seq<Op>, newCap: nat)
    ensures var c := Run(cap, ops); var c' := ResizeStep(c, newCap);
            && |c'.entries| == Min(newCap, |c.entries|)
            && forall x, y :: x in c'.entries && y in c.entries && y !in c'.entries ==>
                 LastUse(cap, ops, x) > LastUse(cap, ops, y)
  {
    hide Run, LastUse, ResizeStep, Descending;
    OrderIsRecency(cap, ops);
    ResizeCount(Run(cap, ops), newCap);
    ResizeNewest(Run(cap, ops), newCap, x => LastUse(cap, ops, x));
  }

  lemma ResizeCount(c: Cache, newCap: nat)
    requires Valid(c)
    ensures |ResizeStep(c, newCap).entries| == Min(newCap, |c.entries|)
  {
    var c' := ResizeStep(c, newCap);
    ResizeValid(c, newCap);
    EnumeratesSize(c.order, c.entries.Keys);
    EnumeratesSize(c'.order, c'.entries.Keys);
  }

  lemma ResizeNewest(c: Cache, newCap: nat, use: Key -> nat)
    requires Valid(c) && Descending(c.order, use)
    ensures var c' := ResizeStep(c, newCap);
            forall x, y :: x in c'.entries && y in c.entries && y !in c'.entries ==> use(x) > use(y)
  {
    var c' := ResizeStep(c, newCap);
    ResizeValid(c, newCap);
    forall x, y | x in c'.entries && y in c.entries && y !in c'.entries
      ensures use(x) > use(y)
    {
      var i :| 0 <= i < |c'.order| && c'.order[i] == x;
      var j :| 0 <= j < |c.order| && c.order[j] == y;
      assert j >= newCap;
    }
  }

  // ------------------------------------------- contents, from the operations alone

  /** The capacity is the argument of the last resize. */
  function LastCapacity(cap: nat, ops: seq<Op>): nat {
    if ops == [] then cap
    else if ops[|ops| - 1].ResizeOp? then ops[|ops| - 1].cap
    else LastCapacity(cap, ops[..|ops| - 1])
  }

  lemma {:induction false} CapacityIsLast(cap: nat, ops: seq<Op>)
    ensures Run(cap, ops).capacity == LastCapacity(cap, ops)
    ensures |Run(cap, ops).entries| == |Run(cap, ops).order| <= LastCapacity(cap, ops)
  {
    OrderIsRecency(cap, ops);
    EnumeratesSize(Run(cap, ops).order, Run(cap, ops).entries.Keys);
    if ops != [] {
      CapacityIsLast(cap, ops[..|ops| - 1]);
    }
  }

  /**
   * What each operation does to the entries, over every run. A hit changes none of them. A put
   * with capacity 0 does nothing; one of a cached key, or while there is room, stores the entry
   * and drops none; one of a new key into a full cache drops the key used longest ago and no
   * other. A removal drops its key and no other.
   */
  lemma {:induction false} StepExactly(cap: nat, ops: seq<Op>, op: Op)
    ensures var c, c', room := Run(cap, ops), Run(cap, ops + [op]), LastCapacity(cap, ops);
            match op
            case GetOp(k) => c'.entries == c.entries
            case RemoveOp(k) => c'.entries == c.entries - {k}
            case ResizeOp(n) => |c'.entries| == Min(n, |c.entries|) && forall x :: x in c'.entries ==> x in c.entries && c'.entries[x] == c.entries[x]
            case PutOp(k, e) =>
              if room == 0 then c'.entries == c.entries
              else if k in c.entries || |c.entries| < room then c'.entries == c.entries[k := e]
              else exists victim ::
                     && victim in c.entries && c'.entries == (c.entries - {victim})[k := e]
                     && forall x :: x in c.entries && x != victim ==> LastUse(cap, ops, victim) < LastUse(cap, ops, x)
  {
    hide Run, LastUse, Valid, Descending, GetStep, PutStep, ResizeStep;
    var c := Run(cap, ops);
    RunThen(cap, ops, op);
    if op.GetOp? {
      GetsNothing(c, op.key);
    } else if op.ResizeOp? {
      ResizeCount(c, op.cap);
      ResizeValid(c, op.cap);
    } else if op.PutOp? {
      if c.capacity == 0 || op.key in c.entries || |c.entries| < c.capacity {
        PutStores(c, op.key, op.entry);
      } else {
        PutEvicts(c, op.key, op.entry, x => LastUse(cap, ops, x));
      }
    }
  }

  lemma RunThen(cap: nat, ops: seq<Op>, op: Op)
    ensures Run(cap, ops).capacity == LastCapacity(cap, ops) && |Run(cap, ops).entries| == |Run(cap, ops).order|
    ensures Valid(Run(cap, ops)) && Descending(Run(cap, ops).order, x => LastUse(cap, ops, x))
    ensures Run(cap, ops + [op]) == Apply(Run(cap, ops), op)
  {
    assert (ops + [op])[..|ops|] == ops;
    CapacityIsLast(cap, ops);
    OrderIsRecency(cap, ops);
    hide LastUse, Valid, Descending, Apply;
  }

  lemma GetsNothing(c: Cache, k: Key)
    ensures GetStep(c, k).entries == c.entries
  {
  }

  lemma PutStores(c: Cache, k: Key, e: CacheEntry)
    requires c.capacity == 0 || k in c.entries || |c.order| < c.capacity
    ensures PutStep(c, k, e).entries == if c.capacity == 0 then c.entries else c.entries[k := e]
  {
  }

  lemma PutEvicts(c: Cache, k: Key, e: CacheEntry, use: Key -> nat)
    requires Valid(c) && Descending(c.order, use) && k !in c.entries && |c.order| >= c.capacity > 0
    ensures exists victim ::
              && victim in c.entries && PutStep(c, k, e).entries == (c.entries - {victim})[k := e]
              && forall x :: x in c.entries && x != victim ==> use(victim) < use(x)
  {
    var victim := c.order[|c.order| - 1];
    PutDropsOne(c, k, e);
    hide Restrict, PutStep;
    forall x | x in c.entries && x != victim
      ensures use(victim) < use(x)
    {
      var i :| 0 <= i < |c.order| && c.order[i] == x;
    }
    assert victim in c.order;
  }

  lemma PutDropsOne(c: Cache, k: Key, e: CacheEntry)
    requires Valid(c) && k !in c.entries && |c.order| >= c.capacity > 0
    ensures PutStep(c, k, e).entries == (c.entries - {c.order[|c.order| - 1]})[k := e]
  {
    var n := |c.order| - 1;
    var victim := c.order[n];
    assert c.order == c.order[..n] + [victim];
    assert Restrict(c.entries, c.order[..n]) == c.entries - {victim};
  }

  // ------------------------------------------------------------ the object

  /** A list node; its identity, which an iterator holds, does not change while others come and go. */
  datatype Node = Node(id: nat, key: Key)

  function KeysOf(nodes: seq<Node>): (keys: seq<Key>)
    ensures |keys| == |nodes|
  {
    seq(|nodes|, i requires 0 <= i < |nodes| => nodes[i].key)
  }

  type NodeTable = map<Key, (CacheEntry, nat)>

  function EntriesOf(table: NodeTable): map<Key, CacheEntry> {
    map k | k in table :: table[k].0
  }

  /** List and table are in bijection, and each stored iterator is on the key's own node. */
  ghost predicate Linked(nodes: seq<Node>, table: NodeTable, nextId: nat) {
    && Enumerates(KeysOf(nodes), table.Keys)
    && (forall i :: 0 <= i < |nodes| ==> nodes[i].key in table && table[nodes[i].key].1 == nodes[i].id)
    && (forall i, j :: 0 <= i < j < |nodes| ==> nodes[i].id != nodes[j].id)
    && (forall i :: 0 <= i < |nodes| ==> nodes[i].id < nextId)
  }

  function Unlink(nodes: seq<Node>, i: nat): seq<Node>
    requires i < |nodes|
  {
    nodes[..i] + nodes[i + 1..]
  }

  lemma UnlinkKeys(nodes: seq<Node>, i: nat, table: NodeTable, nextId: nat)
    requires i < |nodes| && Linked(nodes, table, nextId)
    ensures KeysOf(Unlink(nodes, i)) == Without(KeysOf(nodes), nodes[i].key)
  {
    WithoutOne(KeysOf(nodes), i);
    assert KeysOf(Unlink(nodes, i)) == KeysOf(nodes)[..i] + KeysOf(nodes)[i + 1..];
  }

  lemma UnlinkLinked(nodes: seq<Node>, i: nat, table: NodeTable, nextId: nat)
    requires i < |nodes| && Linked(nodes, table, nextId)
    ensures Linked(Unlink(nodes, i), table - {nodes[i].key}, nextId)
  {
    UnlinkKeys(nodes, i, table, nextId);
    WithoutEnumerates(KeysOf(nodes), table.Keys, nodes[i].key);
    hide Enumerates, Without, KeysOf;
    assert table.Keys - {nodes[i].key} == (table - {nodes[i].key}).Keys;
    DistinctKeys(nodes, table, nextId);
    forall j | 0 <= j < |nodes| - 1
      ensures Unlink(nodes, i)[j] == nodes[if j < i then j else j + 1]
    {
    }
  }

  lemma DistinctKeys(nodes: seq<Node>, table: NodeTable, nextId: nat)
    requires Linked(nodes, table, nextId)
    ensures forall i, j :: 0 <= i < j < |nodes| ==> nodes[i].key != nodes[j].key
  {
    var keys := KeysOf(nodes);
    assert forall i :: 0 <= i < |nodes| ==> keys[i] == nodes[i].key;
  }

  lemma PushLinked(nodes: seq<Node>, key: Key, entry: CacheEntry, table: NodeTable, nextId: nat)
    requires Linked(nodes, table, nextId) && key !in table
    ensures Linked([Node(nextId, key)] + nodes, table[key := (entry, nextId)], nextId + 1)
    ensures KeysOf([Node(nextId, key)] + nodes) == [key] + KeysOf(nodes)
  {
    assert KeysOf([Node(nextId, key)] + nodes) == [key] + KeysOf(nodes);
    assert key !in KeysOf(nodes);
  }

  /** The node of a key in the table, found through the stored iterator. */
  lemma NodeOf(nodes: seq<Node>, key: Key, table: NodeTable, nextId: nat) returns (i: nat)
    requires Linked(nodes, table, nextId) && key in table
    ensures i < |nodes| && nodes[i] == Node(table[key].1, key)
  {
    assert key in KeysOf(nodes);
    i :| 0 <= i < |nodes| && KeysOf(nodes)[i] == key;
  }

  lemma SameId(nodes: seq<Node>, i: nat, j: nat, table: NodeTable, nextId: nat)
    requires Linked(nodes, table, nextId) && i < |nodes| && j < |nodes| && nodes[i].id == nodes[j].id
    ensures i == j
  {
  }

  class LRUCache {
    var capacity: nat
    var lruList: seq<Node>
    var table: NodeTable
    var nextId: nat

    ghost predicate Valid()
      reads this
    {
      Linked(lruList, table, nextId) && |lruList| <= capacity
    }

    ghost function Abstract(): Cache
      reads this
    {
      Cache(capacity, KeysOf(lruList), EntriesOf(table))
    }

    constructor (cap: nat)
      ensures Valid() && Abstract() == Cache(cap, [], map[])
    {
      capacity, lruList, table := cap, [], map[];
      nextId := 0;
    }

    /** `list::erase` of the node the key's iterator is on, and `map::erase` of the key. */
    method Erase(key: Key)
      requires Linked(lruList, table, nextId) && key in table
      modifies this`lruList, this`table
      ensures Linked(lruList, table, nextId) && table == old(table) - {key}
      ensures KeysOf(lruList) == Without(KeysOf(old(lruList)), key)
    {
      hide *;
      var it := table[key].1;
      ghost var n := NodeOf(lruList, key, table, nextId);
      var i := 0;
      while lruList[i].id != it
        invariant 0 <= i <= n
        decreases n - i
      {
        i := i + 1;
      }
      SameId(lruList, i, n, table, nextId);
      UnlinkKeys(lruList, i, table, nextId);
      UnlinkLinked(lruList, i, table, nextId);
      lruList, table := Unlink(lruList, i), table - {key};
    }

    method PushFront(key: Key, entry: CacheEntry)
      requires Linked(lruList, table, nextId) && key !in table
      modifies this`lruList, this`table, this`nextId
      ensures Linked(lruList, table, nextId) && table == old(table)[key := (entry, old(nextId))]
      ensures KeysOf(lruList) == [key] + KeysOf(old(lruList))
    {
      hide *;
      PushLinked(lruList, key, entry, table, nextId);
      lruList, table := [Node(nextId, key)] + lruList, table[key := (entry, nextId)];
      nextId := nextId + 1;
    }

    method Get(key: Key) returns (r: Option<CacheEntry>)
      requires Valid()
      modifies this
      ensures Valid() && Abstract() == GetStep(old(Abstract()), key) && capacity == old(capacity)
      ensures r == Lookup(old(Abstract()).entries, key)
    {
      hide Linked, KeysOf;
      if key !in table {
        return None;
      }
      r := Some(table[key].0);
      MoveToFront(key, table[key].0);
    }

    method MoveToFront(key: Key, entry: CacheEntry)
      requires Linked(lruList, table, nextId) && key in table
      modifies this`lruList, this`table, this`nextId
      ensures Linked(lruList, table, nextId) && |lruList| == |old(lruList)|
      ensures KeysOf(lruList) == Touch(KeysOf(old(lruList)), key)
      ensures exists it :: table == old(table)[key := (entry, it)]
    {
      hide Linked, KeysOf, Without;
      EraseShortens(lruList, key, table, nextId);
      Erase(key);
      PushFront(key, entry);
      assert table == old(table)[key := (entry, old(nextId))];
    }

    method Put(key: Key, entry: CacheEntry)
      requires Valid()
      modifies this
      ensures Valid() && Abstract() == PutStep(old(Abstract()), key, entry) && capacity == old(capacity)
    {
      hide Linked, KeysOf, Without, EntriesOf;
      ghost var order, entries := KeysOf(lruList), EntriesOf(table);
      EntriesUpdate(table, key, entry);
      if capacity == 0 {
        return;
      }
      if key in table {
        MoveToFront(key, entry);
        return;
      }
      SizesAgree(lruList, table, nextId);
      if |table| >= capacity {
        PopBack();
        EntriesRestrict(old(table), KeysOf(lruList));
      }
      EntriesUpdate(table, key, entry);
      PushFront(key, entry);
    }

    /** Drops the last node and its table entry. */
    method PopBack()
      requires Linked(lruList, table, nextId) && lruList != []
      modifies this`lruList, this`table
      ensures Linked(lruList, table, nextId)
      ensures KeysOf(lruList) == KeysOf(old(lruList))[..|old(lruList)| - 1]
      ensures table == Restrict(old(table), KeysOf(lruList))
    {
      var n := |lruList| - 1;
      PopKeys(lruList, table, nextId);
      UnlinkLinked(lruList, n, table, nextId);
      table := table - {lruList[n].key};
      lruList := Unlink(lruList, n);
    }

    method Resize(cap: nat)
      requires Valid()
      modifies this
      ensures Valid() && Abstract() == ResizeStep(old(Abstract()), cap) && capacity == cap
    {
      hide Linked, KeysOf, EntriesOf, Restrict;
      capacity := cap;
      EvictWhileOver();
      EntriesRestrict(old(table), KeysOf(lruList));
    }

    method EvictWhileOver()
      requires Linked(lruList, table, nextId)
      modifies this`lruList, this`table
      ensures Linked(lruList, table, nextId)
      ensures |lruList| == Min(capacity, |old(lruList)|)
      ensures |old(lruList)| <= capacity ==> lruList == old(lruList) && table == old(table)
      ensures KeysOf(lruList) == KeysOf(old(lruList))[..|lruList|]
      ensures table == Restrict(old(table), KeysOf(lruList))
    {
      hide Linked, KeysOf, Restrict;
      ghost var keys := KeysOf(lruList);
      assert keys == keys[..|keys|];
      RestrictAll(lruList, table, nextId);
      SizesAgree(lruList, table, nextId);
      while |table| > capacity
        invariant Linked(lruList, table, nextId)
        invariant |table| == |lruList| <= |keys| && (|lruList| < |keys| ==> capacity <= |lruList|)
        invariant |lruList| == |keys| ==> lruList == old(lruList) && table == old(table)
        invariant KeysOf(lruList) == keys[..|lruList|]
        invariant table == Restrict(old(table), KeysOf(lruList))
        decreases |lruList|
      {
        RestrictTwice(old(table), keys, |lruList| - 1, |lruList|);
        PopBack();
        SizesAgree(lruList, table, nextId);
      }
    }

    method Remove(key: Key)
      requires Valid()
      modifies this
      ensures Valid() && Abstract() == RemoveStep(old(Abstract()), key) && capacity == old(capacity)
    {
      hide Linked, KeysOf, Without;
      WithoutMembers(KeysOf(lruList), key);
      TableKeyListed(lruList, key, table, nextId);
      if key in table {
        Erase(key);
      }
    }
  }

  /** Whatever iterator is stored with it, an updated entry is an updated entry. */
  lemma EntriesUpdate(table: NodeTable, key: Key, entry: CacheEntry)
    ensures EntriesOf(table).Keys == table.Keys
    ensures forall it :: EntriesOf(table[key := (entry, it)]) == EntriesOf(table)[key := entry]
  {
  }

  lemma EntriesRestrict(table: NodeTable, keys: seq<Key>)
    ensures EntriesOf(Restrict(table, keys)) == Restrict(EntriesOf(table), keys)
  {
  }

  lemma RestrictAll(nodes: seq<Node>, table: NodeTable, nextId: nat)
    requires Linked(nodes, table, nextId)
    ensures Restrict(table, KeysOf(nodes)) == table
  {
  }

  lemma EraseShortens(nodes: seq<Node>, key: Key, table: NodeTable, nextId: nat)
    requires Linked(nodes, table, nextId) && key in table
    ensures |Without(KeysOf(nodes), key)| == |nodes| - 1
  {
    WithoutEnumerates(KeysOf(nodes), table.Keys, key);
  }

  lemma TableKeyListed(nodes: seq<Node>, key: Key, table: NodeTable, nextId: nat)
    requires Linked(nodes, table, nextId)
    ensures key in table <==> key in KeysOf(nodes)
  {
  }

  lemma SizesAgree(nodes: seq<Node>, table: NodeTable, nextId: nat)
    requires Linked(nodes, table, nextId)
    ensures |table| == |nodes|
  {
    EnumeratesSize(KeysOf(nodes), table.Keys);
    assert |table| == |table.Keys|;
  }

  lemma PopKeys(nodes: seq<Node>, table: NodeTable, nextId: nat)
    requires Linked(nodes, table, nextId) && nodes != []
    ensures var n := |nodes| - 1;
            && KeysOf(Unlink(nodes, n)) == KeysOf(nodes)[..n]
            && table - {nodes[n].key} == Restrict(table, KeysOf(nodes)[..n])
  {
    var n := |nodes| - 1;
    var keys := KeysOf(nodes);
    assert keys == keys[..n] + [keys[n]];
    assert Unlink(nodes, n) == nodes[..n];
    RestrictFront(table, keys);
  }

  lemma RestrictFront<V>(table: map<Key, V>, keys: seq<Key>)
    requires keys != [] && Enumerates(keys, table.Keys)
    ensures table - {keys[|keys| - 1]} == Restrict(table, keys[..|keys| - 1])
  {
    assert keys == keys[..|keys| - 1] + [keys[|keys| - 1]];
  }
}
