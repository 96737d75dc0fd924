/**
 * Compaction of one shard: sparse segments are emptied by appending their live values again,
 * then every segment nothing refers to is deleted.
 */
module Compaction {
  import opened Base
  import opened Bytes
  import opened IndexLog
  import opened Storage
  import opened ShardEngine

  /** The live bytes the entries have in the given segments. */
  function BytesIn(entries: seq<Record>, segs: set<nat>): nat {
    if entries == [] then 0
    else
      var r := entries[|entries| - 1];
      BytesIn(entries[..|entries| - 1], segs) + if r.loc.seg in segs then r.loc.size else 0
  }

  function Total(entries: seq<Record>): nat {
    if entries == [] then 0 else Total(entries[..|entries| - 1]) + entries[|entries| - 1].loc.size
  }

  function SegsOf(entries: seq<Record>): set<nat> {
    set r | r in entries :: r.loc.seg
  }

  /** An entry stays where it is: in the latest segment, or in one at least half live. */
  predicate Kept(entries: seq<Record>, r: Record, current: nat, segSize: U64) {
    r.loc.seg == current || BytesIn(entries, {r.loc.seg}) * 2 >= segSize
  }

  datatype Pass = Pass(engine: Engine, entries: seq<Record>, moved: bool)

  /** The relocation loop after `n` entries. */
  function Relocate(e: Engine, entries: seq<Record>, n: nat, segSize: U64): (p: Pass)
    requires n <= |entries|
    ensures |p.entries| == |entries|
  {
    if n == 0 then Pass(e, entries, false)
    else RelocateOne(Relocate(e, entries, n - 1, segSize), entries, n - 1, e.store.latest, segSize)
  }

  function RelocateOne(p: Pass, entries: seq<Record>, i: nat, current: nat, segSize: U64): (p': Pass)
    requires i < |entries| == |p.entries|
    ensures |p'.entries| == |entries|
  {
    var r := entries[i];
    if Kept(entries, r, current, segSize) then p
    else
      var value := ReadAt(p.engine.store.segs, r.loc);
      if value == "" then p
      else
        var (store, loc) := AppendStep(p.engine.store, value, segSize);
        if loc.None? then p.(engine := p.engine.(store := store))
        else
          var r' := Record(r.key, loc.value, false);
          Pass(Engine(p.engine.log + [r'], store), p.entries[i := r'], true)
  }

  function CompactPass(e: Engine, order: seq<Key>, segSize: U64): Pass
    requires forall k :: k in order ==> k in TableOf(e)
  {
    var entries := Entries(TableOf(e), order);
    Relocate(e.(log := entries), entries, |entries|, segSize)
  }

  /** One run of the compactor, for one iteration order of the index table. */
  function Compact(e: Engine, order: seq<Key>, segSize: U64): Engine
    requires forall k :: k in order ==> k in TableOf(e)
  {
    var p := CompactPass(e, order, segSize);
    p.engine.(store := RemoveUnused(p.engine.store, SegsOf(p.entries)))
  }

  // ------------------------------------------------------------ sums of bytes

  lemma {:induction false} BytesSplit(entries: seq<Record>, a: set<nat>, b: set<nat>)
    requires a !! b
    ensures BytesIn(entries, a + b) == BytesIn(entries, a) + BytesIn(entries, b)
  {
    if entries != [] {
      BytesSplit(entries[..|entries| - 1], a, b);
    }
  }

  lemma {:induction false} BytesAtMostTotal(entries: seq<Record>, a: set<nat>)
    ensures BytesIn(entries, a) <= Total(entries)
  {
    if entries != [] {
      BytesAtMostTotal(entries[..|entries| - 1], a);
    }
  }

  lemma {:induction false} MemberBytes(entries: seq<Record>, i: nat)
    requires i < |entries|
    ensures entries[i].loc.size <= BytesIn(entries, {entries[i].loc.seg})
  {
    if i < |entries| - 1 {
      MemberBytes(entries[..|entries| - 1], i);
    }
  }

  /** Replacing one entry moves its bytes from its old segment to the new one. */
  lemma {:induction false} BytesUpdate(entries: seq<Record>, i: nat, r: Record, a: set<nat>)
    requires i < |entries| && r.loc.size == entries[i].loc.size
    ensures BytesIn(entries[i := r], a) + (if entries[i].loc.seg in a then r.loc.size else 0)
         == BytesIn(entries, a) + (if r.loc.seg in a then r.loc.size else 0)
    ensures Total(entries[i := r]) == Total(entries)
  {
    var n := |entries| - 1;
    if i < n {
      BytesUpdate(entries[..n], i, r, a);
      assert entries[i := r][..n] == entries[..n][i := r];
    } else {
      assert entries[i := r][..n] == entries[..n];
    }
  }

  /** Segments that are each at least half live are at most twice as many bytes as what lives in them. */
  lemma {:induction false} HalfLiveBound(entries: seq<Record>, segs: set<nat>, segSize: U64)
    requires forall s :: s in segs ==> BytesIn(entries, {s}) * 2 >= segSize
    ensures |segs| * segSize <= 2 * BytesIn(entries, segs)
    decreases segs
  {
    if segs != {} {
      var s :| s in segs;
      var rest := segs - {s};
      HalfLiveBound(entries, rest, segSize);
      BytesSplit(entries, rest, {s});
      assert rest + {s} == segs;
      hide BytesIn;
      HalfLiveStep(|rest|, segSize, BytesIn(entries, rest), BytesIn(entries, {s}));
    }
  }

  lemma HalfLiveStep(n: nat, segSize: U64, rest: nat, one: nat)
    requires n * segSize <= 2 * rest && one * 2 >= segSize
    ensures (n + 1) * segSize <= 2 * (rest + one)
  {
    assert (n + 1) * segSize == n * segSize + segSize;
  }

  // -------------------------------------------------- what the loop maintains

  /** The entries the loop works on: one live record per key, backed by bytes. */
  ghost predicate Ready(e: Engine, entries: seq<Record>) {
    && e.log == entries
    && IdsBounded(e.store)
    && (forall i :: 0 <= i < |entries| ==> !entries[i].tombstone && entries[i].loc.size > 0 && Contained(e.store.segs, entries[i].loc))
    && (forall i, j :: 0 <= i < j < |entries| ==> entries[i].key != entries[j].key)
  }

  /** The log still stands for the entries, and each still reads the same value. */
  ghost predicate MapKept(e: Engine, entries: seq<Record>, p: Pass)
    requires |p.entries| == |entries|
  {
    && IdsBounded(p.engine.store) && Extends(e.store.segs, p.engine.store.segs)
    && TableOf(p.engine) == Replay(p.entries)
    && (forall i :: 0 <= i < |entries| ==>
         && p.entries[i].key == entries[i].key && !p.entries[i].tombstone
         && p.entries[i].loc.size == entries[i].loc.size
         && Contained(p.engine.store.segs, p.entries[i].loc)
         && ReadAt(p.engine.store.segs, p.entries[i].loc) == ReadAt(e.store.segs, entries[i].loc))
  }

  /** Overwriting a key's only record in place and appending a new one give the same table. */
  lemma {:induction false} ReplayInPlace(entries: seq<Record>, i: nat, r: Record)
    requires i < |entries| && r.key == entries[i].key && !r.tombstone
    requires forall i, j :: 0 <= i < j < |entries| ==> entries[i].key != entries[j].key
    ensures Replay(entries[i := r]) == Replay(entries)[r.key := r.loc]
  {
    var n := |entries| - 1;
    if i < n {
      ReplayInPlace(entries[..n], i, r);
      assert entries[i := r][..n] == entries[..n][i := r];
      assert entries[n].key != r.key;
    } else {
      assert entries[i := r][..n] == entries[..n];
    }
  }

  /** Bytes behind the old ones change nothing. */
  lemma GrownMap(e: Engine, entries: seq<Record>, p: Pass, store: Store)
    requires |p.entries| == |entries| && MapKept(e, entries, p)
    requires Extends(p.engine.store.segs, store.segs) && IdsBounded(store)
    ensures MapKept(e, entries, p.(engine := p.engine.(store := store)))
  {
    ExtendsTransitive(e.store.segs, p.engine.store.segs, store.segs);
    forall j | 0 <= j < |entries|
      ensures Contained(store.segs, p.entries[j].loc)
      ensures ReadAt(store.segs, p.entries[j].loc) == ReadAt(e.store.segs, entries[j].loc)
    {
      ReadStable(p.engine.store.segs, store.segs, p.entries[j].loc);
    }
  }

  /** Neither does a record that reads the same value elsewhere. */
  lemma MovedMap(e: Engine, entries: seq<Record>, p: Pass, i: nat, r': Record)
    requires i < |entries| == |p.entries| && Ready(e, entries) && MapKept(e, entries, p)
    requires r'.key == entries[i].key && !r'.tombstone && r'.loc.size == entries[i].loc.size
    requires Contained(p.engine.store.segs, r'.loc)
    requires ReadAt(p.engine.store.segs, r'.loc) == ReadAt(e.store.segs, entries[i].loc)
    ensures MapKept(e, entries, Pass(p.engine.(log := p.engine.log + [r']), p.entries[i := r'], true))
  {
    hide Replay, Contained, ReadAt, IdsBounded, Extends;
    assert forall a, b :: 0 <= a < b < |p.entries| ==> p.entries[a].key != p.entries[b].key;
    MovedTable(p.engine.log, p.entries, i, r');
  }

  lemma MovedTable(log: seq<Record>, entries: seq<Record>, i: nat, r: Record)
    requires i < |entries| && r.key == entries[i].key && !r.tombstone && Replay(log) == Replay(entries)
    requires forall a, b :: 0 <= a < b < |entries| ==> entries[a].key != entries[b].key
    ensures Replay(log + [r]) == Replay(entries[i := r])
  {
    ReplayAppend(log, r);
    ReplayInPlace(entries, i, r);
  }

  lemma {:induction false} RelocateOneMap(e: Engine, entries: seq<Record>, p: Pass, i: nat, segSize: U64)
    requires i < |entries| == |p.entries| && Ready(e, entries) && MapKept(e, entries, p)
    requires p.entries[i] == entries[i]
    ensures MapKept(e, entries, RelocateOne(p, entries, i, e.store.latest, segSize))
  {
    var r := entries[i];
    if !Kept(entries, r, e.store.latest, segSize) {
      assert Contained(e.store.segs, r.loc);
      ReadStable(e.store.segs, p.engine.store.segs, r.loc);
      var value := ReadAt(p.engine.store.segs, r.loc);
      var (store, loc) := AppendStep(p.engine.store, value, segSize);
      AppendSpec(p.engine.store, value, segSize);
      assert |value| == r.loc.size;
      hide AppendStep, Refused, Ready, MapKept, Extends, IdsBounded, Contained, ReadAt, Kept;
      GrownMap(e, entries, p, store);
      if value != "" && loc.Some? {
        MovedMap(e, entries, p.(engine := p.engine.(store := store)), i, Record(r.key, loc.value, false));
      }
    }
  }

  /** Where the entries are after `n` of them were looked at. */
  ghost predicate Placed(e: Engine, entries: seq<Record>, n: nat, p: Pass, segSize: U64)
    requires n <= |entries| == |p.entries|
  {
    && e.store.latest <= p.engine.store.latest
    && (forall i :: n <= i < |entries| ==> p.entries[i] == entries[i])
    && (forall i :: 0 <= i < n ==>
         if Kept(entries, entries[i], e.store.latest, segSize) then p.entries[i] == entries[i]
         else e.store.latest <= p.entries[i].loc.seg <= p.engine.store.latest)
  }

  /** The ids above `lo` up to `hi`. */
  function Ids(lo: nat, hi: nat): (ids: set<nat>)
    ensures forall i :: i in ids <==> lo < i <= hi
    ensures |ids| == Max(0, hi - lo)
  {
    if hi <= lo then {} else Ids(lo, hi - 1) + {hi}
  }

  /**
   * The next-fit invariant for the segments opened by the pass: twice the bytes moved into
   * them, less those of the last one, fill all of them but one.
   */
  ghost predicate Packed(e: Engine, p: Pass, segSize: U64) {
    var current, latest := e.store.latest, p.engine.store.latest;
    var t := BytesIn(p.entries, Ids(current, latest));
    && current <= latest
    && (current < latest ==>
         && latest in p.engine.store.segs
         && 2 * t >= |p.engine.store.segs[latest]| + Times(latest - current - 1, segSize))
  }

  function Times(n: nat, segSize: U64): nat {
    if n == 0 then 0 else Times(n - 1, segSize) + segSize
  }

  lemma {:induction false} TimesIs(n: nat, segSize: U64)
    ensures Times(n, segSize) == n * segSize
  {
    if n > 0 {
      TimesIs(n - 1, segSize);
      assert n * segSize == (n - 1) * segSize + segSize;
    }
  }

  /** Entry `i` stays, or its append will not be refused. */
  ghost predicate Movable(e: Engine, entries: seq<Record>, i: nat, p: Pass, segSize: U64)
    requires i < |entries|
  {
    || Kept(entries, entries[i], e.store.latest, segSize)
    || !Refused(p.engine.store, ReadAt(p.engine.store.segs, entries[i].loc), segSize)
  }

  /** Every relocation among the first `n` entries succeeds. */
  ghost predicate AllMove(e: Engine, entries: seq<Record>, n: nat, segSize: U64)
    requires n <= |entries|
  {
    forall i :: 0 <= i < n ==> Movable(e, entries, i, Relocate(e, entries, i, segSize), segSize)
  }

  /** Every entry that has to move is smaller than half a segment. */
  lemma MovingFits(e: Engine, entries: seq<Record>, i: nat, segSize: U64)
    requires i < |entries| && !Kept(entries, entries[i], e.store.latest, segSize)
    ensures entries[i].loc.size * 2 < segSize
  {
    MemberBytes(entries, i);
  }

  lemma {:induction false} RelocateOnePlaced(e: Engine, entries: seq<Record>, p: Pass, i: nat, segSize: U64)
    requires i < |entries| == |p.entries| && Ready(e, entries) && MapKept(e, entries, p)
    requires Placed(e, entries, i, p, segSize) && Movable(e, entries, i, p, segSize)
    ensures Placed(e, entries, i + 1, RelocateOne(p, entries, i, e.store.latest, segSize), segSize)
  {
    var r := entries[i];
    if !Kept(entries, r, e.store.latest, segSize) {
      hide Refused, AppendStep;
      ReadStable(e.store.segs, p.engine.store.segs, r.loc);
      var value := ReadAt(p.engine.store.segs, r.loc);
      AppendSpec(p.engine.store, value, segSize);
    }
  }

  /** What happens to an entry that has to move. */
  lemma Moves(e: Engine, entries: seq<Record>, p: Pass, i: nat, segSize: U64) returns (store: Store, r': Record)
    requires i < |entries| == |p.entries| && Ready(e, entries) && MapKept(e, entries, p)
    requires Placed(e, entries, i, p, segSize) && !Kept(entries, entries[i], e.store.latest, segSize)
    requires Movable(e, entries, i, p, segSize)
    ensures RelocateOne(p, entries, i, e.store.latest, segSize)
         == Pass(Engine(p.engine.log + [r'], store), p.entries[i := r'], true)
    ensures r'.loc.seg == store.latest && r'.loc.size == p.entries[i].loc.size && p.entries[i].loc.seg <= e.store.latest
    ensures var st := p.engine.store; var z := r'.loc.size;
            || (store.latest == st.latest && st.latest in st.segs && st.latest in store.segs
                && |store.segs[st.latest]| == |st.segs[st.latest]| + z)
            || (store.latest == st.latest + 1 && store.latest in store.segs && |store.segs[store.latest]| == z
                && (st.latest in st.segs ==> |st.segs[st.latest]| + z > segSize))
  {
    hide Refused, AppendStep, Kept;
    var r := entries[i];
    ReadStable(e.store.segs, p.engine.store.segs, r.loc);
    var value := ReadAt(p.engine.store.segs, r.loc);
    AppendSpec(p.engine.store, value, segSize);
    AppendRotates(p.engine.store, value, segSize);
    var (st, loc) := AppendStep(p.engine.store, value, segSize);
    store, r' := st, Record(r.key, loc.value, false);
  }

  lemma {:induction false} EntriesBelow(e: Engine, entries: seq<Record>, p: Pass, i: nat, segSize: U64)
    requires i <= |entries| == |p.entries| && Ready(e, entries) && Placed(e, entries, i, p, segSize)
    ensures forall j :: 0 <= j < |entries| ==> p.entries[j].loc.seg <= p.engine.store.latest
  {
    assert forall j :: 0 <= j < |entries| ==> entries[j].loc.seg <= e.store.latest;
  }

  /** The bytes moved by one relocation are counted among those of the opened segments. */
  lemma {:induction false} MovedBytes(entries: seq<Record>, i: nat, r': Record, current: nat, latest: nat, latest': nat)
    requires i < |entries| && r'.loc.size == entries[i].loc.size
    requires entries[i].loc.seg <= current <= latest <= latest' == r'.loc.seg && latest' <= latest + 1
    requires forall j :: 0 <= j < |entries| ==> entries[j].loc.seg <= latest
    ensures BytesIn(entries[i := r'], Ids(current, latest'))
         == BytesIn(entries, Ids(current, latest)) + if latest' > current then r'.loc.size else 0
  {
    hide BytesIn, Ids;
    BytesUpdate(entries, i, r', Ids(current, latest'));
    if latest' > latest {
      NewSegmentEmpty(entries, current, latest);
    }
  }

  lemma {:induction false} RelocateOnePacked(e: Engine, entries: seq<Record>, p: Pass, i: nat, segSize: U64)
    requires i < |entries| == |p.entries| && Ready(e, entries) && MapKept(e, entries, p)
    requires Placed(e, entries, i, p, segSize) && Packed(e, p, segSize) && Movable(e, entries, i, p, segSize)
    ensures Packed(e, RelocateOne(p, entries, i, e.store.latest, segSize), segSize)
  {
    hide *;
    var current, latest := e.store.latest, p.engine.store.latest;
    if Kept(entries, entries[i], current, segSize) {
      KeptStays(p, entries, i, current, segSize);
    } else {
      var store, r' := Moves(e, entries, p, i, segSize);
      EntriesBelow(e, entries, p, i, segSize);
      PackedBelow(e, p, segSize);
      MovedBytes(p.entries, i, r', current, latest, store.latest);
      PackOne(e, p, Pass(Engine(p.engine.log + [r'], store), p.entries[i := r'], true), r'.loc.size, segSize);
    }
  }

  lemma KeptStays(p: Pass, entries: seq<Record>, i: nat, current: nat, segSize: U64)
    requires i < |entries| == |p.entries| && Kept(entries, entries[i], current, segSize)
    ensures RelocateOne(p, entries, i, current, segSize) == p
  {
  }

  lemma PackedBelow(e: Engine, p: Pass, segSize: U64)
    requires Packed(e, p, segSize)
    ensures e.store.latest <= p.engine.store.latest
  {
  }

  /** One more value of `z` bytes, behind the last segment's bytes or first in a new one. */
  lemma {:induction false} PackOne(e: Engine, p: Pass, p': Pass, z: nat, segSize: U64)
    requires Packed(e, p, segSize)
    requires var (st, st') := (p.engine.store, p'.engine.store);
             || (st'.latest == st.latest && st.latest in st.segs && st.latest in st'.segs
                 && |st'.segs[st.latest]| == |st.segs[st.latest]| + z)
             || (st'.latest == st.latest + 1 && st'.latest in st'.segs && |st'.segs[st'.latest]| == z
                 && (st.latest in st.segs ==> |st.segs[st.latest]| + z > segSize))
    requires BytesIn(p'.entries, Ids(e.store.latest, p'.engine.store.latest))
          == BytesIn(p.entries, Ids(e.store.latest, p.engine.store.latest))
             + if p'.engine.store.latest > e.store.latest then z else 0
    ensures Packed(e, p', segSize)
  {
    var n := p.engine.store.latest - e.store.latest;
    assert Times(0, segSize) == 0 && (n > 0 ==> Times(n, segSize) == Times(n - 1, segSize) + segSize);
    hide BytesIn, Ids, Times;
  }

  /** No entry is in a segment that is not open yet. */
  lemma NewSegmentEmpty(entries: seq<Record>, current: nat, latest: nat)
    requires current <= latest
    requires forall i :: 0 <= i < |entries| ==> entries[i].loc.seg <= latest
    ensures BytesIn(entries, Ids(current, latest + 1)) == BytesIn(entries, Ids(current, latest))
  {
    assert Ids(current, latest + 1) == Ids(current, latest) + {latest + 1};
    BytesSplit(entries, Ids(current, latest), {latest + 1});
    NoBytes(entries, latest + 1);
  }

  lemma {:induction false} NoBytes(entries: seq<Record>, s: nat)
    requires forall i :: 0 <= i < |entries| ==> entries[i].loc.seg != s
    ensures BytesIn(entries, {s}) == 0
  {
    if entries != [] {
      NoBytes(entries[..|entries| - 1], s);
    }
  }

  ghost predicate LoopInvariant(e: Engine, entries: seq<Record>, n: nat, p: Pass, segSize: U64)
    requires n <= |entries| == |p.entries|
  {
    && MapKept(e, entries, p)
    && (forall i :: n <= i < |entries| ==> p.entries[i] == entries[i])
    && (AllMove(e, entries, n, segSize) ==> Placed(e, entries, n, p, segSize) && Packed(e, p, segSize))
  }

  lemma {:induction false} StartInvariant(e: Engine, entries: seq<Record>, segSize: U64)
    requires Ready(e, entries)
    ensures LoopInvariant(e, entries, 0, Pass(e, entries, false), segSize)
  {
  }

  lemma {:induction false} RelocateInvariants(e: Engine, entries: seq<Record>, n: nat, segSize: U64)
    requires n <= |entries| && Ready(e, entries)
    ensures LoopInvariant(e, entries, n, Relocate(e, entries, n, segSize), segSize)
  {
    hide RelocateOne, LoopInvariant, Ready;
    if n == 0 {
      StartInvariant(e, entries, segSize);
    } else {
      RelocateInvariants(e, entries, n - 1, segSize);
      StepInvariant(e, entries, n - 1, segSize);
    }
  }

  lemma {:induction false} StepInvariant(e: Engine, entries: seq<Record>, i: nat, segSize: U64)
    requires i < |entries| && Ready(e, entries) && LoopInvariant(e, entries, i, Relocate(e, entries, i, segSize), segSize)
    ensures LoopInvariant(e, entries, i + 1, RelocateOne(Relocate(e, entries, i, segSize), entries, i, e.store.latest, segSize), segSize)
  {
    var p := Relocate(e, entries, i, segSize);
    OthersStay(p, entries, i, e.store.latest, segSize);
    hide RelocateOne, Relocate, Ready, MapKept, Placed, Packed, Movable;
    RelocateOneMap(e, entries, p, i, segSize);
    if AllMove(e, entries, i + 1, segSize) {
      assert AllMove(e, entries, i, segSize) && Movable(e, entries, i, p, segSize);
      RelocateOnePlaced(e, entries, p, i, segSize);
      RelocateOnePacked(e, entries, p, i, segSize);
    }
  }

  lemma OthersStay(p: Pass, entries: seq<Record>, i: nat, current: nat, segSize: U64)
    requires i < |entries| == |p.entries|
    ensures forall j :: 0 <= j < |entries| && j != i ==> RelocateOne(p, entries, i, current, segSize).entries[j] == p.entries[j]
  {
  }

  /** Below the largest SegSize no relocation is ever refused. */
  lemma {:induction false} AlwaysMove(e: Engine, entries: seq<Record>, segSize: U64)
    requires Ready(e, entries) && segSize < MAX_U64
    ensures AllMove(e, entries, |entries|, segSize)
  {
    forall i | 0 <= i < |entries|
      ensures Movable(e, entries, i, Relocate(e, entries, i, segSize), segSize)
    {
      var segs := Relocate(e, entries, i, segSize).engine.store.segs;
      if !Kept(entries, entries[i], e.store.latest, segSize) {
        MovingFits(e, entries, i, segSize);
        assert |ReadAt(segs, entries[i].loc)| <= entries[i].loc.size;
      }
    }
  }

  // ------------------------------------------------------------ main results

  function Referenced(t: Table): set<nat> {
    set k | k in t :: t[k].seg
  }

  lemma StartReady(e: Engine, order: seq<Key>)
    requires Sound(e) && Enumerates(order, TableOf(e).Keys)
    ensures var entries := Entries(TableOf(e), order); Ready(e.(log := entries), entries)
  {
  }

  /** `ViewIn` of entries that read the same is the same map. */
  lemma {:induction false} EntriesView(entries: seq<Record>, k: Key)
    requires forall i :: 0 <= i < |entries| ==> !entries[i].tombstone
    requires forall i, j :: 0 <= i < j < |entries| ==> entries[i].key != entries[j].key
    ensures k in Replay(entries) <==> exists i :: 0 <= i < |entries| && entries[i].key == k
    ensures forall i :: 0 <= i < |entries| && entries[i].key == k ==> k in Replay(entries) && Replay(entries)[k] == entries[i].loc
  {
    if entries != [] {
      var n := |entries| - 1;
      EntriesView(entries[..n], k);
      assert entries == entries[..n] + [entries[n]];
    }
  }

  /**
   * Compaction changes no value, keeps every index entry backed by bytes, and leaves exactly
   * the segments some entry refers to.
   */
  lemma {:induction false} CompactPreserves(e: Engine, order: seq<Key>, segSize: U64)
    requires Sound(e) && Enumerates(order, TableOf(e).Keys)
    ensures var e' := Compact(e, order, segSize);
            && Sound(e') && View(e') == View(e)
            && e'.store.segs.Keys == Referenced(TableOf(e'))
  {
    var entries := Entries(TableOf(e), order);
    var e0 := e.(log := entries);
    CompactPreservesTable(TableOf(e), order);
    StartReady(e, order);
    RelocateInvariants(e0, entries, |entries|, segSize);
    var p := CompactPass(e, order, segSize);
    var e' := Compact(e, order, segSize);
    hide AllMove, Relocate;
    assert MapKept(e0, entries, p);
    FinalSegments(e0, entries, p, e');
    FinalView(e0, entries, p, e');
  }

  /** The entry behind a key of the index, before and after the pass. */
  lemma EntryOf(e: Engine, entries: seq<Record>, p: Pass, k: Key) returns (i: nat)
    requires |p.entries| == |entries| && Ready(e, entries) && MapKept(e, entries, p)
    requires k in TableOf(e) || k in TableOf(p.engine)
    ensures i < |entries| && entries[i].key == k
  {
    EntriesView(entries, k);
    EntriesView(p.entries, k);
    assert forall j :: 0 <= j < |entries| ==> p.entries[j].key == entries[j].key;
    i :| 0 <= i < |entries| && entries[i].key == k;
  }

  /** What the final store holds for one entry. */
  lemma {:induction false} EntryAt(e: Engine, entries: seq<Record>, p: Pass, i: nat)
    requires i < |p.entries| == |entries| && Ready(e, entries) && MapKept(e, entries, p)
    ensures var k := entries[i].key; var segs := RemoveUnused(p.engine.store, SegsOf(p.entries)).segs;
            && k in TableOf(e) && TableOf(e)[k] == entries[i].loc
            && k in TableOf(p.engine) && TableOf(p.engine)[k] == p.entries[i].loc && p.entries[i].loc.size > 0
            && Contained(segs, p.entries[i].loc)
            && ReadAt(segs, p.entries[i].loc) == ReadAt(e.store.segs, entries[i].loc)
  {
    EntryInTable(entries, i);
    assert forall j :: 0 <= j < |entries| ==> p.entries[j].key == entries[j].key && !p.entries[j].tombstone;
    EntryInTable(p.entries, i);
    assert p.entries[i] in p.entries;
    StaysReadable(p.engine.store, SegsOf(p.entries), p.entries[i].loc);
    hide Replay, Contained, ReadAt, RemoveUnused;
  }

  lemma EntryInTable(entries: seq<Record>, i: nat)
    requires i < |entries| && (forall j :: 0 <= j < |entries| ==> !entries[j].tombstone)
    requires forall a, b :: 0 <= a < b < |entries| ==> entries[a].key != entries[b].key
    ensures entries[i].key in Replay(entries) && Replay(entries)[entries[i].key] == entries[i].loc
  {
    EntriesView(entries, entries[i].key);
  }

  lemma StaysReadable(st: Store, used: set<nat>, loc: Location)
    requires Contained(st.segs, loc) && loc.seg in used
    ensures var segs := RemoveUnused(st, used).segs; Contained(segs, loc) && ReadAt(segs, loc) == ReadAt(st.segs, loc)
  {
  }

  lemma {:induction false} FinalSegments(e: Engine, entries: seq<Record>, p: Pass, e': Engine)
    requires |p.entries| == |entries| && Ready(e, entries) && MapKept(e, entries, p)
    requires e' == p.engine.(store := RemoveUnused(p.engine.store, SegsOf(p.entries)))
    ensures SegsOf(p.entries) == set k | k in TableOf(e') :: TableOf(e')[k].seg
    ensures e'.store.segs.Keys == SegsOf(p.entries)
  {
    hide Replay, Ready, MapKept, ReadAt;
    var t := TableOf(e');
    forall s | s in SegsOf(p.entries)
      ensures exists k :: k in t && t[k].seg == s
      ensures s in e'.store.segs
    {
      var r :| r in p.entries && r.loc.seg == s;
      var i :| 0 <= i < |entries| && p.entries[i] == r;
      EntryAt(e, entries, p, i);
      assert t[entries[i].key].seg == s;
    }
    forall k | k in t
      ensures t[k].seg in SegsOf(p.entries)
    {
      var i := EntryOf(e, entries, p, k);
      EntryAt(e, entries, p, i);
      assert p.entries[i] in p.entries;
    }
  }

  lemma {:induction false} FinalView(e: Engine, entries: seq<Record>, p: Pass, e': Engine)
    requires |p.entries| == |entries| && Ready(e, entries) && MapKept(e, entries, p)
    requires e' == p.engine.(store := RemoveUnused(p.engine.store, SegsOf(p.entries)))
    ensures Sound(e') && View(e') == View(e)
  {
    assert IdsBounded(p.engine.store);
    hide Replay, Ready, MapKept, Contained, ReadAt, RemoveUnused;
    BoundedAfterRemoval(p.engine.store, SegsOf(p.entries));
    var t := TableOf(e');
    forall k | k in t
      ensures Contained(e'.store.segs, t[k]) && t[k].size > 0
      ensures k in TableOf(e) && ReadAt(e'.store.segs, t[k]) == ReadAt(e.store.segs, TableOf(e)[k])
    {
      var i := EntryOf(e, entries, p, k);
      EntryAt(e, entries, p, i);
    }
    forall k | k in TableOf(e)
      ensures k in t
    {
      var i := EntryOf(e, entries, p, k);
      EntryAt(e, entries, p, i);
    }
  }

  /** The segments that stay keep their bytes. */
  lemma {:induction false} CompactGrows(e: Engine, order: seq<Key>, segSize: U64)
    requires Sound(e) && Enumerates(order, TableOf(e).Keys)
    ensures var segs := Compact(e, order, segSize).store.segs;
            forall id :: id in segs && id in e.store.segs ==> e.store.segs[id] <= segs[id]
  {
    var entries := Entries(TableOf(e), order);
    StartReady(e, order);
    RelocateInvariants(e.(log := entries), entries, |entries|, segSize);
  }

  lemma BoundedAfterRemoval(st: Store, used: set<nat>)
    requires IdsBounded(st)
    ensures IdsBounded(RemoveUnused(st, used))
  {
  }

  // ---------------------------------------------------------- the space bound

  /** The bytes of all stored values, counted key by key in table order. */
  function LiveBytes(m: map<Key, Value>, order: seq<Key>): nat
    requires forall k :: k in order ==> k in m
  {
    if order == [] then 0
    else LiveBytes(m, order[..|order| - 1]) + |m[order[|order| - 1]]|
  }

  lemma {:induction false} TotalIsLive(entries: seq<Record>, m: map<Key, Value>, order: seq<Key>)
    requires |entries| == |order| && forall k :: k in order ==> k in m
    requires forall i :: 0 <= i < |order| ==> entries[i].loc.size == |m[order[i]]|
    ensures Total(entries) == LiveBytes(m, order)
  {
    if order != [] {
      TotalIsLive(entries[..|order| - 1], m, order[..|order| - 1]);
    }
  }

  lemma {:induction false} BytesSame(a: seq<Record>, b: seq<Record>, s: nat)
    requires |a| == |b|
    requires forall i :: 0 <= i < |a| ==> a[i].loc.size == b[i].loc.size && (a[i].loc.seg == s <==> b[i].loc.seg == s)
    ensures BytesIn(a, {s}) == BytesIn(b, {s})
  {
    if a != [] {
      BytesSame(a[..|a| - 1], b[..|a| - 1], s);
    }
  }

  /** A segment that was neither the latest nor opened by the pass, but is still used, is half live. */
  lemma {:induction false} OldSegmentHalfLive(e: Engine, entries: seq<Record>, p: Pass, s: nat, segSize: U64)
    requires |p.entries| == |entries| && Ready(e, entries) && Placed(e, entries, |entries|, p, segSize)
    requires MapKept(e, entries, p)
    requires s in SegsOf(p.entries) && s != e.store.latest && s !in Ids(e.store.latest, p.engine.store.latest)
    ensures BytesIn(p.entries, {s}) * 2 >= segSize
  {
    hide BytesIn, Ready, Ids;
    var current := e.store.latest;
    var r :| r in p.entries && r.loc.seg == s;
    var i :| 0 <= i < |entries| && p.entries[i] == r;
    assert Kept(entries, entries[i], current, segSize);
    forall j | 0 <= j < |entries|
      ensures p.entries[j].loc.seg == s <==> entries[j].loc.seg == s
    {
      if Kept(entries, entries[j], current, segSize) {
        assert p.entries[j] == entries[j];
      } else {
        assert entries[j].loc.seg != s;
      }
    }
    BytesSame(p.entries, entries, s);
  }

  lemma CountUsed(used: set<nat>, current: nat, ids: set<nat>)
    ensures |used| <= 1 + |used - {current} - ids| + |ids|
  {
    var kept := used - {current} - ids;
    assert used <= {current} + kept + ids;
    UnionSize({current}, kept);
    UnionSize({current} + kept, ids);
    SubsetSize(used, {current} + kept + ids);
  }

  lemma UnionSize<T>(a: set<T>, b: set<T>)
    ensures |a + b| <= |a| + |b|
  {
    assert a + b == a + (b - a);
    assert b == (b - a) + (b * a);
  }

  /**
   * After a compaction in which every relocation succeeded, which is every one below the largest
   * SegSize, the n segments that remain satisfy (n - 2) * SegSize <= 2 * live bytes.
   */
  lemma {:induction false} CompactSpaceBound(e: Engine, order: seq<Key>, segSize: U64)
    requires Sound(e) && Enumerates(order, TableOf(e).Keys)
    requires segSize == MAX_U64 ==> var entries := Entries(TableOf(e), order); AllMove(e.(log := entries), entries, |entries|, segSize)
    ensures (|Compact(e, order, segSize).store.segs| - 2) * segSize <= 2 * LiveBytes(View(e), order)
  {
    hide AllMove, Relocate, BytesIn, Total, LiveBytes, View, Replay, Entries, Ready, Placed, Packed;
    var entries := Entries(TableOf(e), order);
    var e0 := e.(log := entries);
    StartReady(e, order);
    RelocateInvariants(e0, entries, |entries|, segSize);
    if segSize < MAX_U64 {
      AlwaysMove(e0, entries, segSize);
    }
    var p := CompactPass(e, order, segSize);
    assert LoopInvariant(e0, entries, |entries|, p, segSize);
    FinalSegments(e0, entries, p, Compact(e, order, segSize));
    SizesAreLive(e, order, entries, p);
    TotalIsLive(p.entries, View(e), order);
    PassSpaceBound(e0, entries, p, segSize);
    assert |Compact(e, order, segSize).store.segs| == |SegsOf(p.entries)|;
  }

  lemma SizesAreLive(e: Engine, order: seq<Key>, entries: seq<Record>, p: Pass)
    requires Sound(e) && Enumerates(order, TableOf(e).Keys) && (forall k :: k in order ==> k in TableOf(e)) && entries == Entries(TableOf(e), order)
    requires |p.entries| == |entries| && MapKept(e.(log := entries), entries, p)
    ensures |p.entries| == |order| && (forall k :: k in order ==> k in View(e))
    ensures forall i :: 0 <= i < |order| ==> p.entries[i].loc.size == |View(e)[order[i]]|
  {
    forall i | 0 <= i < |order|
      ensures order[i] in View(e) && entries[i].loc.size == |View(e)[order[i]]|
    {
      assert order[i] in order;
    }
    hide Replay;
  }

  lemma {:induction false} PassSpaceBound(e: Engine, entries: seq<Record>, p: Pass, segSize: U64)
    requires |p.entries| == |entries| && Ready(e, entries) && MapKept(e, entries, p)
    requires Placed(e, entries, |entries|, p, segSize) && Packed(e, p, segSize)
    ensures (|SegsOf(p.entries)| - 2) * segSize <= 2 * Total(p.entries)
  {
    hide BytesIn, Total, Ids, MapKept, Placed, Packed, Ready, Times, SegsOf;
    var current, latest := e.store.latest, p.engine.store.latest;
    var ids := Ids(current, latest);
    var kept := SegsOf(p.entries) - {current} - ids;
    forall s | s in kept
      ensures BytesIn(p.entries, {s}) * 2 >= segSize
    {
      OldSegmentHalfLive(e, entries, p, s, segSize);
    }
    HalfLiveBound(p.entries, kept, segSize);
    BytesSplit(p.entries, kept, ids);
    BytesAtMostTotal(p.entries, kept + ids);
    CountUsed(SegsOf(p.entries), current, ids);
    PackedBound(e, p, segSize);
    Distribute(|SegsOf(p.entries)|, |kept|, |ids|, segSize);
  }

  lemma PackedBound(e: Engine, p: Pass, segSize: U64)
    requires Packed(e, p, segSize)
    ensures var ids := Ids(e.store.latest, p.engine.store.latest);
            (|ids| - 1) * segSize <= 2 * BytesIn(p.entries, ids)
  {
    hide BytesIn, Ids, Times;
    var n := p.engine.store.latest - e.store.latest;
    assert |Ids(e.store.latest, p.engine.store.latest)| == n;
    if n > 0 {
      TimesIs(n - 1, segSize);
    } else {
      assert (n - 1) * segSize == 0 - segSize;
    }
  }

  lemma Distribute(n: int, kept: int, added: int, segSize: U64)
    requires n <= 1 + kept + added
    ensures (n - 2) * segSize <= kept * segSize + (added - 1) * segSize
  {
    assert kept * segSize + (added - 1) * segSize == (kept + added - 1) * segSize;
    var d := kept + added - 1 - (n - 2);
    assert d * segSize >= 0;
    assert (kept + added - 1) * segSize == (n - 2) * segSize + d * segSize;
  }
}
