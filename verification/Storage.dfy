/**
 * The segments of one shard: appending with rotation, reading, the containment test used at
 * boot, and deletion of segments nothing refers to. A segment is represented by its accepted
 * bytes; module `Segment` shows that this is what the file protocol provides.
 */
module Storage {
  import opened Base
  import opened Bytes
  import opened Segment

  type Segments = map<nat, string>

  datatype Store = Store(segs: Segments, latest: nat)

  /** The latest id bounds all ids, so an id above it is free for a new segment. */
  ghost predicate IdsBounded(st: Store) {
    forall id :: id in st.segs ==> id <= st.latest
  }

  predicate Contained(segs: Segments, loc: Location) {
    loc.seg in segs && loc.offset + loc.size <= |segs[loc.seg]|
  }

  function ReadAt(segs: Segments, loc: Location): string {
    if Contained(segs, loc) then segs[loc.seg][loc.offset..loc.offset + loc.size] else ""
  }

  /** Every segment of `a` is still there in `b`, and starts with the bytes it had. */
  ghost predicate Extends(a: Segments, b: Segments) {
    forall id :: id in a ==> id in b && a[id] <= b[id]
  }

  lemma ExtendsTransitive(a: Segments, b: Segments, c: Segments)
    requires Extends(a, b) && Extends(b, c)
    ensures Extends(a, c)
  {
  }

  lemma ReadStable(a: Segments, b: Segments, loc: Location)
    requires Extends(a, b) && Contained(a, loc)
    ensures Contained(b, loc) && ReadAt(b, loc) == ReadAt(a, loc)
  {
    var x, y := a[loc.seg], b[loc.seg];
    assert y[..|x|] == x;
    assert y[loc.offset..loc.offset + loc.size] == x[loc.offset..loc.offset + loc.size];
  }

  /** Opens segment `latest + 1`. */
  function Rotate(st: Store): Store {
    Store(st.segs[st.latest + 1 := ""], st.latest + 1)
  }

  /** Success is a returned position other than SegSize + 1. */
  function AppendToSegment(st: Store, id: nat, v: string, segSize: U64): (Store, Option<Location>)
    requires id in st.segs
  {
    var (content, pos) := Placed(st.segs[id], v, segSize);
    (st.(segs := st.segs[id := content]),
     if pos == Sentinel(segSize) then None else Some(Location(pos, id, |v|)))
  }

  predicate HasRoom(st: Store, segSize: U64) {
    st.latest in st.segs && |st.segs[st.latest]| < segSize
  }

  function AppendStep(st: Store, v: string, segSize: U64): (Store, Option<Location>) {
    var st1 := if HasRoom(st, segSize) then st else Rotate(st);
    var (st2, loc) := AppendToSegment(st1, st1.latest, v, segSize);
    if loc.Some? then (st2, loc)
    else
      var st3 := Rotate(st2);
      AppendToSegment(st3, st3.latest, v, segSize)
  }

  /**
   * When an append fails: for a value larger than a segment, and, with the largest 64-bit number
   * as SegSize, for any value that does not go behind bytes already in the latest segment.
   */
  predicate Refused(st: Store, v: string, segSize: U64) {
    || |v| > segSize
    || (segSize == MAX_U64
        && !(HasRoom(st, segSize) && 0 < |st.segs[st.latest]| && |st.segs[st.latest]| + |v| <= segSize))
  }

  lemma SentinelIs(segSize: U64)
    ensures Sentinel(segSize) == if segSize == MAX_U64 then 0 else segSize + 1
  {
    if segSize == MAX_U64 {
      assert (segSize + 1) % POW64 == 0;
    }
  }

  /**
   * Appending fails exactly when `Refused`. Otherwise the value is readable where the location
   * says, in the latest segment. In any case no old byte moves.
   */
  lemma AppendSpec(st: Store, v: string, segSize: U64)
    requires IdsBounded(st)
    ensures var (st', loc) := AppendStep(st, v, segSize);
            && IdsBounded(st') && Extends(st.segs, st'.segs)
            && (loc.None? <==> Refused(st, v, segSize))
            && st.latest <= st'.latest <= st.latest + 2
            && (loc.Some? ==>
                 && loc.value.seg == st'.latest && loc.value.size == |v|
                 && Contained(st'.segs, loc.value) && ReadAt(st'.segs, loc.value) == v)
  {
    SentinelIs(segSize);
    hide Sentinel;
    var (st', loc) := AppendStep(st, v, segSize);
    if loc.Some? {
      var was := if loc.value.seg in st.segs then st.segs[loc.value.seg] else "";
      assert st'.segs[loc.value.seg] == was + v;
    }
  }

  /** An append that succeeds opens at most one segment, and only when the value does not fit. */
  lemma AppendRotates(st: Store, v: string, segSize: U64)
    requires IdsBounded(st) && v != "" && !Refused(st, v, segSize)
    ensures var (st', loc) := AppendStep(st, v, segSize);
            && st'.latest <= st.latest + 1
            && (st'.latest == st.latest ==>
                 && st.latest in st.segs
                 && st'.segs == st.segs[st.latest := st.segs[st.latest] + v])
            && (st'.latest == st.latest + 1 ==>
                 && st'.segs == st.segs[st.latest + 1 := v]
                 && (st.latest in st.segs ==> |st.segs[st.latest]| + |v| > segSize))
  {
    SentinelIs(segSize);
    hide Sentinel;
    var (st', loc) := AppendStep(st, v, segSize);
    assert "" + v == v;
    if st'.latest == st.latest + 1 {
      assert Rotate(st).segs[st.latest + 1 := "" + v] == st.segs[st.latest + 1 := v];
    }
  }

  /** The bytes in the latest segment, 0 when it is gone. */
  function LatestBytes(st: Store): nat {
    if st.latest in st.segs then |st.segs[st.latest]| else 0
  }

  /** With the largest SegSize a fitting append is refused exactly when the latest segment is empty or gone. */
  lemma AppendAtMax(st: Store, v: string)
    requires v != "" && LatestBytes(st) + |v| <= MAX_U64
    ensures Refused(st, v, MAX_U64) <==> LatestBytes(st) == 0
    ensures LatestBytes(AppendStep(st, v, MAX_U64).0) == LatestBytes(st) + |v|
  {
    SentinelIs(MAX_U64);
    hide Sentinel;
  }

  /**
   * The refused write of a fitting value: with the largest SegSize, the first value of a new
   * shard is written twice, at offset 0 of two segments, and refused both times. The next one
   * goes behind it.
   */
  lemma FirstWriteRefused(v: string)
    requires 0 < |v| && 2 * |v| <= MAX_U64
    ensures var st := Store(map[1 := ""], 1); var (st', loc) := AppendStep(st, v, MAX_U64);
            && loc == None && st' == Store(map[1 := v, 2 := v], 2)
            && !Refused(st', v, MAX_U64)
  {
    SentinelIs(MAX_U64);
    assert "" + v == v;
    var st := Store(map[1 := ""], 1);
    var st1 := Store(map[1 := v], 1);
    assert st.segs[1 := v] == st1.segs;
    assert Rotate(st1).segs[2 := v] == map[1 := v, 2 := v];
  }

  function RemoveUnused(st: Store, used: set<nat>): Store {
    st.(segs := Only(st.segs, used))
  }

  function Only<T>(m: map<nat, T>, ids: set<nat>): map<nat, T> {
    map id | id in m && id in ids :: m[id]
  }

  lemma OnlyAll<T>(m: map<nat, T>, used: set<nat>, others: set<nat>)
    requires m.Keys <= used + others
    ensures Only(m, used + others) == m
  {
  }

  lemma OnlyLess<T>(m: map<nat, T>, used: set<nat>, others: set<nat>, id: nat)
    requires id !in used
    ensures Only(m, used + others) - {id} == Only(m, used + (others - {id}))
  {
  }

  /** The synced bytes after segments were opened: none of theirs. */
  function Opened(synced: map<nat, nat>, segs: Segments): map<nat, nat> {
    map id | id in segs :: if id in synced then synced[id] else 0
  }

  /** A new segment, on the files and on what they stand for. */
  lemma SegmentOpened(files: map<nat, State>, st: Store, synced: map<nat, nat>, dirty: set<nat>, base: map<nat, nat>)
    requires Backs(files, st.segs) && Marks(synced, dirty, st.segs) && IdsBounded(st) && OpenedSince(base, synced, st.segs)
    ensures var id, st' := st.latest + 1, Rotate(st);
            && st' == Store(st.segs[id := ""], id)
            && Backs(files[id := Open("")], st'.segs) && Marks(synced[id := 0], dirty, st'.segs) && IdsBounded(st')
            && OpenedSince(base, synced[id := 0], st'.segs)
  {
    hide Backs, Open, OpenedSince, Marks, IdsBounded, Clean;
    OpenIsClean("");
    BacksUpdate(files, st.segs, st.latest + 1, Open(""));
    OpenedOne(base, synced, st);
    MarksOpened(synced, dirty, st);
  }

  lemma MarksOpened(synced: map<nat, nat>, dirty: set<nat>, st: Store)
    requires Marks(synced, dirty, st.segs) && IdsBounded(st)
    ensures Marks(synced[st.latest + 1 := 0], dirty, Rotate(st).segs) && IdsBounded(Rotate(st))
  {
  }

  /** One segment's write, on the files and on what they stand for. */
  lemma SegmentWritten(files: map<nat, State>, st: Store, synced: map<nat, nat>, dirty: set<nat>, base: map<nat, nat>, id: nat,
                       v: string, segSize: U64)
    requires Backs(files, st.segs) && Marks(synced, dirty, st.segs) && IdsBounded(st) && OpenedSince(base, synced, st.segs) && id in st.segs
    ensures id in files
    ensures var (file, pos) := WriteStep(files[id], v, segSize, None); var (st', loc) := AppendToSegment(st, id, v, segSize);
            && Clean(file) && st' == st.(segs := st.segs[id := Segment.Contents(file)])
            && loc == (if pos == Sentinel(segSize) then None else Some(Location(pos, id, |v|)))
            && Backs(files[id := file], st'.segs) && Marks(synced, dirty + {id}, st'.segs) && IdsBounded(st')
            && OpenedSince(base, synced, st'.segs)
  {
    WriteIsPlaced(files[id], v, segSize);
    var (file, pos) := WriteStep(files[id], v, segSize, None);
    assert Segment.Contents(files[id]) == st.segs[id];
    BacksUpdate(files, st.segs, id, file);
    OpenedKeys(base, synced, st.segs, st.segs[id := Segment.Contents(file)]);
    hide Backs, WriteStep, Clean, OpenedSince;
  }

  /** Since `base`, segments were opened and none was synced. */
  ghost predicate OpenedSince(base: map<nat, nat>, synced: map<nat, nat>, segs: Segments) {
    base.Keys <= segs.Keys && synced == Opened(base, segs)
  }

  lemma OpenedNone(synced: map<nat, nat>, dirty: set<nat>, segs: Segments)
    requires Marks(synced, dirty, segs)
    ensures OpenedSince(synced, synced, segs)
  {
  }

  lemma OpenedThen(a: map<nat, nat>, b: map<nat, nat>, c: map<nat, nat>, m: Segments, n: Segments)
    requires OpenedSince(a, b, m) && OpenedSince(b, c, n)
    ensures OpenedSince(a, c, n)
  {
  }

  lemma OpenedOne(base: map<nat, nat>, synced: map<nat, nat>, st: Store)
    requires OpenedSince(base, synced, st.segs) && IdsBounded(st)
    ensures OpenedSince(base, synced[st.latest + 1 := 0], Rotate(st).segs)
  {
  }

  lemma OpenedKeys(base: map<nat, nat>, synced: map<nat, nat>, segs: Segments, segs': Segments)
    requires OpenedSince(base, synced, segs) && segs.Keys == segs'.Keys
    ensures OpenedSince(base, synced, segs')
  {
  }

  /** The largest id in use. */
  ghost predicate IsLargest(id: nat, ids: set<nat>) {
    id in ids && forall i :: i in ids ==> i <= id
  }

  /** The files hold the segments, wherever their positions are. */
  ghost predicate Backs(files: map<nat, State>, segs: Segments) {
    && files.Keys == segs.Keys
    && forall id :: id in files ==> Clean(files[id]) && Segment.Contents(files[id]) == segs[id]
  }

  /** What is known to be on disk, all of it unless `dirty`. */
  ghost predicate Marks(synced: map<nat, nat>, dirty: set<nat>, segs: Segments) {
    && synced.Keys == segs.Keys
    && forall id :: id in segs ==> synced[id] <= |segs[id]| && (id in dirty || synced[id] == |segs[id]|)
  }

  lemma BacksUpdate(files: map<nat, State>, segs: Segments, id: nat, file: State)
    requires Backs(files, segs) && Clean(file)
    ensures Backs(files[id := file], segs[id := Segment.Contents(file)])
  {
  }

  lemma SegmentSynced(files: map<nat, State>, segs: Segments, synced: map<nat, nat>, dirty: set<nat>, id: nat)
    requires Backs(files, segs) && Marks(synced, dirty, segs) && id in segs
    ensures files[id].currentOffset == |segs[id]| && (id !in dirty ==> synced[id] == |segs[id]|)
    ensures Marks(synced[id := |segs[id]|], dirty - {id}, segs)
  {
  }

  lemma WithoutSegment(files: map<nat, State>, segs: Segments, synced: map<nat, nat>, dirty: set<nat>, latest: nat, id: nat)
    requires Backs(files, segs) && Marks(synced, dirty, segs) && IdsBounded(Store(segs, latest))
    ensures Backs(files - {id}, segs - {id}) && Marks(synced - {id}, dirty, segs - {id})
    ensures IdsBounded(Store(segs - {id}, latest))
  {
  }

  lemma SameKeys(files: map<nat, State>, segs: Segments, synced: map<nat, nat>, dirty: set<nat>)
    requires Backs(files, segs) && Marks(synced, dirty, segs)
    ensures files.Keys == segs.Keys == synced.Keys
  {
  }

  lemma BacksOpened(found: Segments)
    ensures Backs(map id | id in found :: Open(found[id]), found)
  {
    forall id | id in found ensures Clean(Open(found[id])) && Segment.Contents(Open(found[id])) == found[id] {
      OpenIsClean(found[id]);
    }
  }

  class StorageManager {
    var files: map<nat, State>
    var latest: nat
    /** The segments whose `canFlush` is set. */
    var dirty: set<nat>
    /** How many bytes of each segment are on disk. */
    var synced: map<nat, nat>
    /** What the files stand for. */
    ghost var segs: Segments

    ghost function Abstract(): Store
      reads this
    {
      Store(segs, latest)
    }

    ghost predicate Valid()
      reads this
    {
      IdsBounded(Abstract()) && Backs(files, segs) && Marks(synced, dirty, segs)
    }

    /** Opens the segment files found on disk, or segment 1 when there are none. */
    constructor (found: Segments)
      ensures Valid()
      ensures found == map[] ==> segs == map[1 := ""] && latest == 1
      ensures found != map[] ==> segs == found
      ensures IsLargest(latest, segs.Keys)
      ensures synced == map id | id in segs :: |segs[id]|
    {
      var start := if found == map[] then map[1 := ""] else found;
      files := map id | id in start :: Open(start[id]);
      synced := map id | id in start :: |start[id]|;
      dirty, segs := {}, start;
      BacksOpened(start);
      hide Backs, Open;
      var left := start.Keys;
      assert found == map[] ==> 1 in start;
      var maxId: nat :| maxId in left;
      left := left - {maxId};
      while left != {}
        invariant left <= start.Keys
        invariant maxId in start && forall i :: i in start && i !in left ==> i <= maxId
        decreases left
      {
        var id :| id in left;
        if id > maxId {
          maxId := id;
        }
        left := left - {id};
      }
      latest := maxId;
    }

    method Append(value: string, segSize: U64) returns (loc: Option<Location>)
      requires Valid()
      modifies this
      ensures Valid()
      ensures (Abstract(), loc) == AppendStep(old(Abstract()), value, segSize)
      ensures Extends(old(segs), segs) && OpenedSince(old(synced), synced, segs)
    {
      AppendSpec(Abstract(), value, segSize);
      OpenedNone(synced, dirty, segs);
      hide Backs, Marks, IdsBounded, Contained, ReadAt, Refused, HasRoom, Rotate, AppendToSegment, Extends, OpenedSince;
      ghost var base := synced;
      var room := LatestHasRoom(segSize);
      if !room {
        OpenSegment(base);
      }
      loc := AppendTo(latest, value, segSize, base);
      if loc.None? {
        OpenSegment(base);
        loc := AppendTo(latest, value, segSize, base);
      }
    }

    /** The latest segment is there and not full. */
    method LatestHasRoom(segSize: U64) returns (r: bool)
      requires Valid()
      ensures r <==> HasRoom(Abstract(), segSize)
      ensures r ==> latest in segs
    {
      r := latest in files && files[latest].currentOffset < segSize;
    }

    method OpenSegment(ghost base: map<nat, nat>)
      requires Valid() && OpenedSince(base, synced, segs)
      modifies this
      ensures Valid() && latest in segs && Abstract() == Rotate(old(Abstract()))
      ensures OpenedSince(base, synced, segs)
    {
      hide *;
      Known();
      ghost var st := Rotate(Store(segs, latest));
      SegmentOpened(files, Store(segs, latest), synced, dirty, base);
      latest := latest + 1;
      files, synced, segs := files[latest := Open("")], synced[latest := 0], segs[latest := ""];
      Standing(st);
    }

    lemma Known()
      requires Valid()
      ensures IdsBounded(Abstract()) && Backs(files, segs) && Marks(synced, dirty, segs) && Abstract() == Store(segs, latest)
    {
      hide Backs, Marks, IdsBounded;
    }

    lemma Standing(st: Store)
      requires st == Store(segs, latest) && IdsBounded(st) && Backs(files, segs) && Marks(synced, dirty, segs)
      ensures Valid() && Abstract() == st
    {
      hide Backs, Marks, IdsBounded;
    }

    /** `appendToSegment`: the segment's write, judged by comparing the position with SegSize + 1. */
    method AppendTo(id: nat, value: string, segSize: U64, ghost base: map<nat, nat>) returns (loc: Option<Location>)
      requires Valid() && id in segs && OpenedSince(base, synced, segs)
      modifies this`files, this`segs, this`dirty
      ensures Valid()
      ensures (Abstract(), loc) == AppendToSegment(old(Abstract()), id, value, segSize)
      ensures OpenedSince(base, synced, segs)
    {
      hide *;
      Known();
      ghost var st := AppendToSegment(Store(segs, latest), id, value, segSize).0;
      SegmentWritten(files, Store(segs, latest), synced, dirty, base, id, value, segSize);
      var (file, pos) := WriteStep(files[id], value, segSize, None);
      files, dirty, segs := files[id := file], dirty + {id}, st.segs;
      Standing(st);
      loc := if pos == Sentinel(segSize) then None else Some(Location(pos, id, |value|));
    }

    method Contains(loc: Location) returns (r: bool)
      requires Valid()
      ensures r <==> Contained(segs, loc)
    {
      r := loc.seg in files && loc.offset + loc.size <= files[loc.seg].currentOffset;
    }

    /** Moves a file position, but no data: what was appended at a location is read there. */
    method Read(loc: Location) returns (v: string)
      requires Valid()
      modifies this`files
      ensures Valid() && v == ReadAt(segs, loc)
    {
      if loc.seg !in files {
        return "";
      }
      ReadIsSlice(files[loc.seg], loc.offset, loc.size);
      var (file, value) := ReadStep(files[loc.seg], loc.offset, loc.size);
      BacksUpdate(files, segs, loc.seg, file);
      assert segs[loc.seg := segs[loc.seg]] == segs;
      hide Clean, ReadStep;
      files := files[loc.seg := file];
      return value;
    }

    method RemoveSegment(id: nat)
      requires Valid()
      modifies this`files, this`segs, this`synced
      ensures Valid() && segs == old(segs) - {id} && synced == old(synced) - {id}
    {
      WithoutSegment(files, segs, synced, dirty, latest, id);
      hide Backs, Marks, IdsBounded;
      files, segs, synced := files - {id}, segs - {id}, synced - {id};
    }

    /** Deletes the segments that are not in `used`, one by one. */
    method RemoveUnusedSegments(used: set<nat>)
      requires Valid()
      modifies this
      ensures Valid()
      ensures Abstract() == RemoveUnused(old(Abstract()), used)
      ensures synced == Only(old(synced), used)
    {
      var toRemove := files.Keys - used;
      SameKeys(files, segs, synced, dirty);
      hide Backs, Marks, IdsBounded, Only;
      OnlyAll(segs, used, toRemove);
      OnlyAll(synced, used, toRemove);
      while toRemove != {}
        invariant Valid() && latest == old(latest) && toRemove !! used
        invariant segs == Only(old(segs), used + toRemove) && synced == Only(old(synced), used + toRemove)
        decreases toRemove
      {
        var id :| id in toRemove;
        OnlyLess(old(segs), used, toRemove, id);
        OnlyLess(old(synced), used, toRemove, id);
        RemoveSegment(id);
        toRemove := toRemove - {id};
      }
      assert used + toRemove == used;
    }

    /** Syncs the segments written since their last sync; afterwards every byte is on disk. */
    method Flush()
      requires Valid()
      modifies this`synced, this`dirty
      ensures Valid() && synced == (map id | id in segs :: |segs[id]|) && dirty !! segs.Keys
    {
      hide *;
      Known();
      SameKeys(files, segs, synced, dirty);
      ghost var st := Abstract();
      var left := files.Keys;
      while left != {}
        invariant Backs(files, segs) && Marks(synced, dirty, segs) && left <= files.Keys == segs.Keys == synced.Keys
        invariant forall id :: id in files && id !in left ==> synced[id] == |segs[id]| && id !in dirty
        decreases left
      {
        var id :| id in left;
        SegmentSynced(files, segs, synced, dirty, id);
        if id in dirty {
          synced, dirty := synced[id := files[id].currentOffset], dirty - {id};
        }
        left := left - {id};
      }
      Standing(st);
    }
  }
}
