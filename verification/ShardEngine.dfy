/**
 * The storage engine of one shard as a value: an INDEX log and a segment store. What each
 * shard operation does to them, and that it does to the stored map what the command says.
 */
module ShardEngine {
  import opened Base
  import opened Bytes
  import opened IndexLog
  import opened Storage

  datatype Engine = Engine(log: seq<Record>, store: Store)

  function TableOf(e: Engine): Table {
    Replay(e.log)
  }

  function ViewIn(t: Table, segs: Segments): map<Key, Value> {
    map k | k in t :: ReadAt(segs, t[k])
  }

  /** The map the engine stores. */
  function View(e: Engine): map<Key, Value> {
    ViewIn(TableOf(e), e.store.segs)
  }

  lemma ViewKeys(e: Engine)
    ensures View(e).Keys == TableOf(e).Keys
  {
  }

  /** Every index entry names a non-empty range of bytes that exist. */
  ghost predicate Backed(t: Table, segs: Segments) {
    forall k :: k in t ==> Contained(segs, t[k]) && t[k].size > 0
  }

  ghost predicate Sound(e: Engine) {
    IdsBounded(e.store) && Backed(TableOf(e), e.store.segs)
  }

  // ------------------------------------------------------------------ writes

  function SetStep(e: Engine, k: Key, v: Value, segSize: U64): (Engine, bool) {
    var (store, loc) := AppendStep(e.store, v, segSize);
    if loc.None? then (e.(store := store), false)
    else (Engine(e.log + [Record(k, loc.value, false)], store), true)
  }

  function DelStep(e: Engine, k: Key): (Engine, bool) {
    var t := TableOf(e);
    if k !in t then (e, false)
    else (e.(log := e.log + [Record(k, t[k], true)]), true)
  }

  function SetAll(e: Engine, keys: seq<Key>, v: Value, segSize: U64): (Engine, nat) {
    if keys == [] then (e, 0)
    else
      var (e1, n) := SetAll(e, keys[..|keys| - 1], v, segSize);
      var (e2, ok) := SetStep(e1, keys[|keys| - 1], v, segSize);
      (e2, if ok then n + 1 else n)
  }

  function DelAll(e: Engine, keys: seq<Key>): (Engine, nat) {
    if keys == [] then (e, 0)
    else
      var (e1, n) := DelAll(e, keys[..|keys| - 1]);
      var (e2, ok) := DelStep(e1, keys[|keys| - 1]);
      (e2, if ok then n + 1 else n)
  }

  /**
   * `e2` is `e1` after appends only: log records about `keys`, none a tombstone when `live`, and
   * bytes behind the old ones.
   */
  ghost predicate Appended(e1: Engine, e2: Engine, keys: set<Key>, live: bool) {
    && e1.log <= e2.log
    && (forall r :: r in e2.log[|e1.log|..] ==> r.key in keys && (live ==> !r.tombstone))
    && Extends(e1.store.segs, e2.store.segs)
  }

  lemma AppendedTransitive(e1: Engine, e2: Engine, e3: Engine, a: set<Key>, b: set<Key>, live: bool)
    requires Appended(e1, e2, a, live) && Appended(e2, e3, b, live)
    ensures Appended(e1, e3, a + b, live)
  {
    var x, y := e2.log[|e1.log|..], e3.log[|e2.log|..];
    assert e3.log == e1.log + x + y;
    assert e3.log[|e1.log|..] == x + y;
  }

  function KeySet(keys: seq<Key>): set<Key> {
    set k | k in keys
  }

  /** What is already readable stays readable with the same value. */
  lemma ViewStable(t: Table, a: Segments, b: Segments)
    requires Extends(a, b) && Backed(t, a)
    ensures Backed(t, b) && ViewIn(t, b) == ViewIn(t, a)
  {
    forall k | k in t
      ensures Contained(b, t[k]) && ReadAt(b, t[k]) == ReadAt(a, t[k])
    {
      ReadStable(a, b, t[k]);
    }
  }

  /** `set` stores the pair, and fails, changing no answer, exactly when the append is refused. */
  lemma {:induction false} SetSpec(e: Engine, k: Key, v: Value, segSize: U64)
    requires Sound(e) && v != ""
    ensures var (e', ok) := SetStep(e, k, v, segSize);
            && Sound(e') && Appended(e, e', {k}, true)
            && (ok <==> !Refused(e.store, v, segSize))
            && View(e') == (if ok then View(e)[k := v] else View(e))
  {
    hide AppendStep, Refused;
    var (e', ok) := SetStep(e, k, v, segSize);
    var (store, loc) := AppendStep(e.store, v, segSize);
    AppendSpec(e.store, v, segSize);
    ViewStable(TableOf(e), e.store.segs, store.segs);
    if ok {
      var r := Record(k, loc.value, false);
      ReplayAppend(e.log, r);
      assert e'.log[|e.log|..] == [r];
    } else {
      assert e'.log[|e.log|..] == [];
    }
  }

  lemma DelSpec(e: Engine, k: Key)
    requires Sound(e)
    ensures var (e', ok) := DelStep(e, k);
            && Sound(e') && Appended(e, e', {k}, false)
            && (ok <==> k in View(e))
            && View(e') == View(e) - {k}
  {
    var (e', ok) := DelStep(e, k);
    if ok {
      var r := Record(k, TableOf(e)[k], true);
      ReplayAppend(e.log, r);
      assert e'.log[|e.log|..] == [r];
    } else {
      assert e'.log[|e.log|..] == [];
    }
  }

  function AllSet(m: map<Key, Value>, keys: seq<Key>, v: Value): map<Key, Value> {
    m + map k | k in keys :: v
  }

  lemma AllSetStep(m: map<Key, Value>, keys: seq<Key>, v: Value)
    requires keys != []
    ensures var k := keys[|keys| - 1]; var front := keys[..|keys| - 1];
            && AllSet(m, keys, v) == AllSet(m, front, v)[k := v]
            && KeySet(keys) == KeySet(front) + {k}
  {
    var front, k := keys[..|keys| - 1], keys[|keys| - 1];
    assert keys == front + [k];
    assert forall x :: x in keys <==> x in front || x == k;
    assert AllSet(m, keys, v).Keys == AllSet(m, front, v)[k := v].Keys;
  }

  lemma AllSetMore(m: map<Key, Value>, keys: seq<Key>, k: Key, v: Value)
    ensures AllSet(m, keys + [k], v) == AllSet(m, keys, v)[k := v] && keys + [] == keys
  {
    assert (keys + [k])[..|keys|] == keys;
    AllSetStep(m, keys + [k], v);
  }

  lemma AllSetEmpty(m: map<Key, Value>, v: Value)
    ensures AllSet(m, [], v) == m && KeySet([]) == {} && m - KeySet([]) == m
  {
  }

  lemma SameAppended(e: Engine, live: bool)
    ensures Appended(e, e, {}, live)
  {
    assert e.log[|e.log|..] == [];
  }

  /** The keys among `keys` that a pattern set gets to store, one append after the other. */
  function Accepted(e: Engine, keys: seq<Key>, v: Value, segSize: U64): seq<Key> {
    if keys == [] then []
    else
      var front, k := keys[..|keys| - 1], keys[|keys| - 1];
      Accepted(e, front, v, segSize)
      + if Refused(SetAll(e, front, v, segSize).0.store, v, segSize) then [] else [k]
  }

  /** A pattern set stores the value under exactly the accepted keys, and counts them. */
  lemma {:induction false} SetAllSpec(e: Engine, keys: seq<Key>, v: Value, segSize: U64)
    requires Sound(e) && v != ""
    ensures var (e', n) := SetAll(e, keys, v, segSize); var done := Accepted(e, keys, v, segSize);
            && Sound(e') && Appended(e, e', KeySet(keys), true)
            && n == |done|
            && View(e') == AllSet(View(e), done, v)
  {
    hide Sound, Appended, View, SetStep, Refused, AllSet, KeySet;
    if keys == [] {
      SameAppended(e, true);
      AllSetEmpty(View(e), v);
    } else {
      var front, k := keys[..|keys| - 1], keys[|keys| - 1];
      SetAllSpec(e, front, v, segSize);
      var (e1, n) := SetAll(e, front, v, segSize);
      SetSpec(e1, k, v, segSize);
      var (e2, ok) := SetStep(e1, k, v, segSize);
      AppendedTransitive(e, e1, e2, KeySet(front), {k}, true);
      AllSetStep(View(e), keys, v);
      AllSetMore(View(e), Accepted(e, front, v, segSize), k, v);
    }
  }

  /** Below the largest SegSize that is all of them, or none when the value is larger than a segment. */
  lemma {:induction false} AcceptedAll(e: Engine, keys: seq<Key>, v: Value, segSize: U64)
    requires segSize < MAX_U64
    ensures Accepted(e, keys, v, segSize) == if |v| <= segSize then keys else []
  {
    if keys != [] {
      AcceptedAll(e, keys[..|keys| - 1], v, segSize);
    }
  }

  /**
   * With the largest SegSize it is all of them but the first, which is refused when the latest
   * segment is empty or gone.
   */
  lemma {:induction false} AcceptedAtMax(e: Engine, keys: seq<Key>, v: Value)
    requires v != "" && keys != [] && LatestBytes(e.store) + |keys| * |v| <= MAX_U64
    ensures Accepted(e, keys, v, MAX_U64) == if LatestBytes(e.store) == 0 then keys[1..] else keys
    ensures LatestBytes(SetAll(e, keys, v, MAX_U64).0.store) == LatestBytes(e.store) + |keys| * |v|
  {
    hide *;
    var front := keys[..|keys| - 1];
    AcceptedUnfold(e, keys, v, MAX_U64);
    MoreBytes(|front|, |v|);
    if front != [] {
      AcceptedAtMax(e, front, v);
    }
    AppendAtMax(SetAll(e, front, v, MAX_U64).0.store, v);
  }

  lemma AcceptedUnfold(e: Engine, keys: seq<Key>, v: Value, segSize: U64)
    requires v != "" && keys != []
    ensures var front, k := keys[..|keys| - 1], keys[|keys| - 1]; var e1 := SetAll(e, front, v, segSize).0;
            && (front == [] ==> e1 == e && Accepted(e, front, v, segSize) == [])
            && SetAll(e, keys, v, segSize).0.store == AppendStep(e1.store, v, segSize).0
            && Accepted(e, keys, v, segSize)
               == Accepted(e, front, v, segSize) + (if Refused(e1.store, v, segSize) then [] else [k])
  {
    hide AppendStep, Refused;
  }

  lemma MoreBytes(n: nat, size: nat)
    requires size > 0
    ensures (n + 1) * size == n * size + size && (n > 0 ==> n * size > 0)
  {
  }

  lemma {:induction false} DelAllSpec(e: Engine, keys: seq<Key>)
    requires Sound(e)
    requires forall i, j :: 0 <= i < j < |keys| ==> keys[i] != keys[j]
    requires forall k :: k in keys ==> k in View(e)
    ensures var (e', n) := DelAll(e, keys);
            && Sound(e') && Appended(e, e', KeySet(keys), false)
            && n == |keys|
            && View(e') == View(e) - KeySet(keys)
  {
    hide Sound, Appended, View, DelStep;
    if keys == [] {
      SameAppended(e, false);
      AllSetEmpty(View(e), "");
    } else {
      var front, k := keys[..|keys| - 1], keys[|keys| - 1];
      DelAllSpec(e, front);
      var (e1, n) := DelAll(e, front);
      assert k !in front;
      DelSpec(e1, k);
      var (e2, ok) := DelStep(e1, k);
      AppendedTransitive(e, e1, e2, KeySet(front), {k}, false);
      AllSetStep(View(e), keys, "");
    }
  }

  /** The records appended to `a` are about different keys. */
  ghost predicate OneEach(a: seq<Record>, b: seq<Record>) {
    a <= b && forall i, j :: |a| <= i < j < |b| ==> b[i].key != b[j].key
  }

  /** What a pattern command appends: at most one record for each of the given keys. */
  ghost predicate AppendsOnce(a: seq<Record>, b: seq<Record>, keys: seq<Key>) {
    OneEach(a, b) && forall i :: |a| <= i < |b| ==> b[i].key in keys
  }

  lemma OnceMore(a: seq<Record>, b: seq<Record>, c: seq<Record>, keys: seq<Key>)
    requires keys != [] && AppendsOnce(a, b, keys[..|keys| - 1]) && keys[|keys| - 1] !in keys[..|keys| - 1]
    requires c == b || (|c| == |b| + 1 && c[..|b|] == b && c[|b|].key == keys[|keys| - 1])
    ensures AppendsOnce(a, c, keys)
  {
    assert forall i :: 0 <= i < |b| ==> c[i] == b[i];
    assert forall k :: k in keys[..|keys| - 1] ==> k in keys;
    assert keys[|keys| - 1] in keys;
  }

  lemma {:induction false} SetAllOnce(e: Engine, keys: seq<Key>, v: Value, segSize: U64)
    requires forall i, j :: 0 <= i < j < |keys| ==> keys[i] != keys[j]
    ensures AppendsOnce(e.log, SetAll(e, keys, v, segSize).0.log, keys)
  {
    if keys != [] {
      var front, k := keys[..|keys| - 1], keys[|keys| - 1];
      SetAllOnce(e, front, v, segSize);
      assert k !in front;
      var e1 := SetAll(e, front, v, segSize).0;
      hide AppendsOnce, AppendStep;
      OnceMore(e.log, e1.log, SetStep(e1, k, v, segSize).0.log, keys);
    }
  }

  lemma {:induction false} DelAllOnce(e: Engine, keys: seq<Key>)
    requires forall i, j :: 0 <= i < j < |keys| ==> keys[i] != keys[j]
    ensures AppendsOnce(e.log, DelAll(e, keys).0.log, keys)
  {
    if keys != [] {
      var front, k := keys[..|keys| - 1], keys[|keys| - 1];
      DelAllOnce(e, front);
      assert k !in front;
      var e1 := DelAll(e, front).0;
      hide AppendsOnce, Replay;
      OnceMore(e.log, e1.log, DelStep(e1, k).0.log, keys);
    }
  }

  // -------------------------------------------------------------------- boot

  /** The index entries that boot keeps: those whose bytes exist. */
  function Verified(t: Table, segs: Segments): Table {
    map k | k in t && Contained(segs, t[k]) :: t[k]
  }

  /** What verification appends: a tombstone for each entry, and only such, whose bytes are missing. */
  ghost predicate Tombstones(loaded: Table, segs: Segments, base: seq<Record>, log: seq<Record>) {
    && base <= log
    && forall r :: r in log[|base|..] ==>
         r.key in loaded && !Contained(segs, loaded[r.key]) && r == Record(r.key, loaded[r.key], true)
  }

  /**
   * The INDEX log after boot: the loaded table rewritten, then one tombstone for each entry
   * whose bytes are missing.
   */
  ghost predicate BootLog(loaded: Table, segs: Segments, base: seq<Record>, log: seq<Record>) {
    Compacted(base, loaded) && Tombstones(loaded, segs, base, log) && Replay(log) == Verified(loaded, segs)
  }

  lemma NoTombstones(loaded: Table, segs: Segments, base: seq<Record>)
    ensures Tombstones(loaded, segs, base, base)
  {
  }

  lemma TombstonesGrow(loaded: Table, segs: Segments, base: seq<Record>, log: seq<Record>, k: Key)
    requires Tombstones(loaded, segs, base, log) && k in loaded && !Contained(segs, loaded[k])
    ensures Tombstones(loaded, segs, base, log + [Record(k, loaded[k], true)])
  {
    var r := Record(k, loaded[k], true);
    assert (log + [r])[|base|..] == log[|base|..] + [r];
  }

  /** Every record in the INDEX after boot is about a loaded entry. */
  lemma BootRecord(loaded: Table, segs: Segments, base: seq<Record>, log: seq<Record>, r: Record)
    requires BootLog(loaded, segs, base, log) && r in log
    ensures r.key in loaded && loaded[r.key] == r.loc
  {
    assert log == base + log[|base|..];
    assert r in base || r in log[|base|..];
    if r in base {
      var order :| Enumerates(order, loaded.Keys) && base == Entries(loaded, order);
    }
  }

  /** No record behind the rewritten part is about a key that verification keeps. */
  lemma BootFrame(loaded: Table, segs: Segments, base: seq<Record>, log: seq<Record>, k: Key, p: nat)
    requires BootLog(loaded, segs, base, log) && |base| <= p <= |log|
    requires k in loaded ==> Contained(segs, loaded[k])
    ensures Lookup(Replay(log[..p]), k) == Lookup(loaded, k)
  {
    var order :| Enumerates(order, loaded.Keys) && base == Entries(loaded, order);
    CompactPreservesTable(loaded, order);
    var more := log[..p][|base|..];
    assert log[..p] == base + more;
    forall r | r in more
      ensures r.key != k
    {
      assert r in log[|base|..];
    }
    ReplayFrame(base, more, k);
  }
}
