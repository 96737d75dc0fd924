/**
 * What is on disk, in the shard's objects and in the crash model: the marks that the objects keep
 * are those of the model's `Disk`, and what a crash may leave after a flush or a compaction.
 */
module DiskMarks {
  import opened Base
  import opened Bytes
  import opened IndexLog
  import opened Storage
  import opened ShardEngine
  import opened Compaction
  import opened Durability

  /** The synced bytes of a segment. */
  function SyncedBytes(d: Disk, id: nat): nat {
    if id in d.segMark then d.segMark[id] else 0
  }

  /** What the objects of a shard know of its files: the engine, the synced INDEX bytes and those of each segment. */
  datatype Files = Files(engine: Engine, indexSynced: nat, synced: map<nat, nat>)

  /** The model's disk says the same. */
  ghost predicate Tracks(d: Disk, f: Files) {
    && d.engine == f.engine && d.logMark <= |f.engine.log| && f.indexSynced == |SerializeAll(f.engine.log[..d.logMark])|
    && d.segMark.Keys <= f.synced.Keys == f.engine.store.segs.Keys
    && forall id :: id in f.synced ==> f.synced[id] == SyncedBytes(d, id)
  }

  /** A command appends: the disk is the same with another engine. */
  ghost predicate Appends(f: Files, f': Files) {
    forall d: Disk :: Tracks(d, f) ==> Tracks(d.(engine := f'.engine), f')
  }

  ghost predicate Flushes(f: Files, f': Files) {
    forall d: Disk :: Tracks(d, f) ==> Tracks(FlushDisk(d), f')
  }

  ghost predicate Compacts(f: Files, f': Files, order: seq<Key>, segSize: U64)
    requires forall k :: k in order ==> k in TableOf(f.engine)
  {
    forall d: Disk :: Tracks(d, f) ==> Tracks(CompactDisk(d, order, segSize), f')
  }

  /** What was synced stays synced, what a command wrote is not. */
  lemma AppendTracks(f: Files, f': Files)
    requires f.engine.log <= f'.engine.log && f.indexSynced == f'.indexSynced
    requires OpenedSince(f.synced, f'.synced, f'.engine.store.segs)
    ensures Appends(f, f')
  {
    hide SerializeAll;
    forall d: Disk | Tracks(d, f)
      ensures Tracks(d.(engine := f'.engine), f')
    {
      assert f'.engine.log[..d.logMark] == f.engine.log[..d.logMark];
    }
  }

  lemma FlushTracks(f: Files, f': Files)
    requires f' == Files(f.engine, |SerializeAll(f.engine.log)|, Sizes(f.engine.store.segs))
    ensures Flushes(f, f')
  {
    assert f.engine.log[..|f.engine.log|] == f.engine.log;
    hide SerializeAll;
  }

  /** The compactor: all is synced when something moved; otherwise the segments that stay are as synced as they were. */
  lemma CompactTracks(f: Files, f': Files, order: seq<Key>, segSize: U64)
    requires (forall k :: k in order ==> k in TableOf(f.engine)) && f'.engine == Compact(f.engine, order, segSize)
    requires f'.indexSynced == |SerializeAll(f'.engine.log)| && MarksAfter(f, f', order, segSize)
    ensures Compacts(f, f', order, segSize)
  {
    assert f'.engine.log[..|f'.engine.log|] == f'.engine.log;
    hide SerializeAll, Compact, CompactPass, Replay;
  }

  ghost predicate MarksAfter(f: Files, f': Files, order: seq<Key>, segSize: U64)
    requires forall k :: k in order ==> k in TableOf(f.engine)
  {
    if CompactPass(f.engine, order, segSize).moved then f'.synced == Sizes(f'.engine.store.segs)
    else OpenedSince(Only(f.synced, f'.engine.store.segs.Keys), f'.synced, f'.engine.store.segs)
  }

  /** The marks of the segments that are kept. */
  lemma OnlyMarks(base: map<nat, nat>, segs: Segments, synced: map<nat, nat>, used: set<nat>)
    ensures OpenedSince(base, synced, segs) ==>
              OpenedSince(Only(base, Only(segs, used).Keys), Only(synced, used), Only(segs, used))
    ensures synced == Sizes(segs) ==> Only(synced, used) == Sizes(Only(segs, used))
  {
  }

  lemma RemovalMarks(f: Files, f': Files, order: seq<Key>, segSize: U64, segs: Segments, synced: map<nat, nat>, used: set<nat>)
    requires (forall k :: k in order ==> k in TableOf(f.engine)) && f'.engine.store.segs == Only(segs, used) && f'.synced == Only(synced, used)
    requires if CompactPass(f.engine, order, segSize).moved then synced == Sizes(segs) else OpenedSince(f.synced, synced, segs)
    ensures MarksAfter(f, f', order, segSize)
  {
    hide CompactPass, Replay, OpenedSince, Only;
    OnlyMarks(f.synced, segs, synced, used);
  }

  /** Boot. */
  lemma BootTracks(img: Image, f: Files, base: seq<Record>)
    requires BootLog(Replay(Parse(img.index)), f.engine.store.segs, base, f.engine.log) && f.indexSynced == |SerializeAll(base)|
    requires f.engine.store.segs == (if img.segs == map[] then map[1 := ""] else img.segs)
    requires IsLargest(f.engine.store.latest, f.engine.store.segs.Keys) && f.synced == Sizes(f.engine.store.segs)
    ensures exists d :: Booted(img, d) && Tracks(d, f)
  {
    var d := Disk(f.engine, |base|, f.synced);
    assert f.engine.log[..|base|] == base;
    hide SerializeAll, Replay, Parse, Compacted;
    assert Booted(img, d) && Tracks(d, f);
  }

  // ------------------------------------------------- what a crash may leave

  /** All bytes of all files; an empty segment may be missing. */
  ghost predicate Whole(e: Engine, img: Image) {
    && img.index == SerializeAll(e.log)
    && Extends(img.segs, e.store.segs)
    && forall id :: id in e.store.segs && e.store.segs[id] != "" ==> id in img.segs && img.segs[id] == e.store.segs[id]
  }

  /** After a flush nothing can be cut off any more. */
  lemma {:induction false} FlushedImages(d: Disk, img: Image)
    ensures IsImage(FlushDisk(d), img) <==> Whole(d.engine, img)
  {
    var d', e := FlushDisk(d), d.engine;
    assert e.log[..|e.log|] == e.log;
    hide SerializeAll;
    if IsImage(d', img) {
      forall id | id in e.store.segs && e.store.segs[id] != ""
        ensures id in img.segs && img.segs[id] == e.store.segs[id]
      {
        assert d'.segMark[id] == |e.store.segs[id]| > 0;
      }
    }
  }

  /** Every entry lies in the latest segment or in one at least half live. */
  ghost predicate Quiet(e: Engine, order: seq<Key>, segSize: U64)
    requires forall k :: k in order ==> k in TableOf(e)
  {
    forall k :: k in order ==>
      var s := TableOf(e)[k].seg; s == e.store.latest || 2 * BytesIn(Entries(TableOf(e), order), {s}) >= segSize
  }

  lemma {:induction false} QuietPass(e: Engine, entries: seq<Record>, n: nat, segSize: U64)
    requires n <= |entries| && forall i :: 0 <= i < |entries| ==> Kept(entries, entries[i], e.store.latest, segSize)
    ensures Relocate(e, entries, n, segSize) == Pass(e, entries, false)
  {
    if n > 0 {
      QuietPass(e, entries, n - 1, segSize);
      hide Relocate, Kept;
    }
  }

  /** An entry that is relocated leaves an older segment for the latest one or a newer. */
  ghost predicate Elsewhere(entries: seq<Record>, p: Pass, latest: nat)
    requires |p.entries| == |entries|
  {
    && latest <= p.engine.store.latest
    && (forall i :: 0 <= i < |entries| ==> p.entries[i] == entries[i] || entries[i].loc.seg < latest <= p.entries[i].loc.seg)
    && (p.moved ==> exists i :: 0 <= i < |entries| && p.entries[i].loc != entries[i].loc)
  }

  lemma {:induction false} MovesElsewhere(e: Engine, entries: seq<Record>, n: nat, segSize: U64)
    requires n <= |entries| && Ready(e, entries)
    ensures Elsewhere(entries, Relocate(e, entries, n, segSize), e.store.latest)
  {
    hide RelocateOne, Ready, Elsewhere;
    if n == 0 {
      NothingYet(e, entries);
    } else {
      MovesElsewhere(e, entries, n - 1, segSize);
      RelocateInvariants(e, entries, n - 1, segSize);
      OneElsewhere(e, entries, Relocate(e, entries, n - 1, segSize), n - 1, segSize);
    }
  }

  lemma NothingYet(e: Engine, entries: seq<Record>)
    ensures Elsewhere(entries, Pass(e, entries, false), e.store.latest)
  {
  }

  lemma {:induction false} OneElsewhere(e: Engine, entries: seq<Record>, p: Pass, i: nat, segSize: U64)
    requires i < |entries| == |p.entries| && Ready(e, entries) && IdsBounded(p.engine.store) && Elsewhere(entries, p, e.store.latest)
    ensures Elsewhere(entries, RelocateOne(p, entries, i, e.store.latest, segSize), e.store.latest)
  {
    var r, p' := entries[i], RelocateOne(p, entries, i, e.store.latest, segSize);
    if !Kept(entries, r, e.store.latest, segSize) {
      assert Contained(e.store.segs, r.loc) && r.loc.seg < e.store.latest;
      var value := ReadAt(p.engine.store.segs, r.loc);
      AppendSpec(p.engine.store, value, segSize);
      hide AppendStep, Refused, Extends, IdsBounded, Contained, ReadAt, Kept;
      if p'.moved && !p.moved {
        assert p'.entries[i].loc != entries[i].loc;
      }
      if j :| p.moved && 0 <= j < |entries| && p.entries[j].loc != entries[j].loc {
        assert p'.entries[j].loc != entries[j].loc;
      }
    }
  }

  /** Something moved exactly when the table changed. */
  lemma {:induction false} MovedIsSeen(e: Engine, order: seq<Key>, segSize: U64)
    requires Sound(e) && Enumerates(order, TableOf(e).Keys)
    ensures CompactPass(e, order, segSize).moved <==> TableOf(Compact(e, order, segSize)) != TableOf(e)
  {
    var entries := Entries(TableOf(e), order);
    var e0, p := e.(log := entries), CompactPass(e, order, segSize);
    CompactPreservesTable(TableOf(e), order);
    StartReady(e, order);
    RelocateInvariants(e0, entries, |entries|, segSize);
    MovesElsewhere(e0, entries, |entries|, segSize);
    hide Relocate, Ready, Replay, Entries;
    if p.moved {
      var i :| 0 <= i < |entries| && p.entries[i].loc != entries[i].loc;
      EntryAt(e0, entries, p, i);
    } else {
      UnmovedTable(e, order, segSize);
    }
  }

  /** The segments cut back to anything not shorter than their last sync. */
  ghost predicate CutBack(d: Disk, segs: Segments, img: Image) {
    && Extends(img.segs, segs)
    && forall id :: id in segs && SyncedBytes(d, id) > 0 ==> id in img.segs && SyncedBytes(d, id) <= |img.segs[id]|
  }

  /**
   * What a crash may leave after a compaction. When an entry was relocated: everything. When the
   * table is as it was: the rewritten INDEX, and of the segments that stay what a crash could have
   * left before.
   */
  lemma {:induction false} CompactedImages(d: Disk, order: seq<Key>, segSize: U64, img: Image)
    requires DiskOk(d) && Enumerates(order, TableOf(d.engine).Keys)
    ensures var d' := CompactDisk(d, order, segSize); var e, e' := d.engine, d'.engine;
            && d'.logMark == |e'.log|
            && (TableOf(e') != TableOf(e) ==> (IsImage(d', img) <==> Whole(e', img)))
            && (TableOf(e') == TableOf(e) ==>
                 (IsImage(d', img) <==> img.index == SerializeAll(Entries(TableOf(e), order)) && CutBack(d, e'.store.segs, img)))
  {
    var e := d.engine;
    var e', d' := Compact(e, order, segSize), CompactDisk(d, order, segSize);
    MovedIsSeen(e, order, segSize);
    NothingMoved(e.(log := Entries(TableOf(e), order)), Entries(TableOf(e), order), |order|, segSize);
    assert e'.log[..|e'.log|] == e'.log;
    if CompactPass(e, order, segSize).moved {
      FlushedImages(Disk(e', 0, map[]), img);
    } else {
      assert e'.log == Entries(TableOf(e), order);
      hide SerializeAll, Replay, Compact, CompactPass, Relocate, DiskOk, Entries;
      CutImages(d, d', img);
    }
  }

  lemma CutImages(d: Disk, d': Disk, img: Image)
    requires d'.logMark == |d'.engine.log|
    requires d'.segMark == map id | id in d.segMark && id in d'.engine.store.segs :: d.segMark[id]
    ensures IsImage(d', img) <==> img.index == SerializeAll(d'.engine.log) && CutBack(d, d'.engine.store.segs, img)
  {
    assert d'.engine.log[..|d'.engine.log|] == d'.engine.log;
    hide SerializeAll;
    assert forall id :: id in d'.engine.store.segs ==> SyncedBytes(d, id) == SyncedBytes(d', id);
  }

  /**
   * When every entry lies in the latest segment or in one at least half live, nothing moves: the
   * entries stay where they are, and the segments that hold one keep their bytes.
   */
  lemma {:induction false} QuietCompaction(e: Engine, order: seq<Key>, segSize: U64)
    requires Sound(e) && Enumerates(order, TableOf(e).Keys) && Quiet(e, order, segSize)
    ensures var e' := Compact(e, order, segSize);
            && TableOf(e') == TableOf(e) && e'.store.latest == e.store.latest
            && e'.store.segs == Only(e.store.segs, set k | k in order :: TableOf(e)[k].seg)
  {
    var entries := Entries(TableOf(e), order);
    assert forall i :: 0 <= i < |entries| ==> order[i] in order;
    QuietPass(e.(log := entries), entries, |entries|, segSize);
    UnmovedTable(e, order, segSize);
    assert SegsOf(entries) == set k | k in order :: TableOf(e)[k].seg by {
      forall k | k in order
        ensures TableOf(e)[k].seg in SegsOf(entries)
      {
        var i :| 0 <= i < |order| && order[i] == k;
        assert entries[i] in entries;
      }
    }
    hide Relocate, Replay, BytesIn;
  }
}
