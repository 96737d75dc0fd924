/**
 * Durability of one shard: volatile and durable copies of INDEX and segments, what a write, a
 * flush, a compaction and a crash do to them, and from what a key can be rebuilt by replaying a
 * log. A crash keeps any byte-prefix of the INDEX and of each segment not shorter than its last
 * sync; boot then loads and verifies. Everything is stated key by key.
 */
module Durability {
  import opened Base
  import opened Bytes
  import opened IndexLog
  import opened Storage
  import opened ShardEngine
  import opened Compaction
  import opened Commands

  // ------------------------------------------------------------- one shard

  /** A shard's engine, and how much of its log and of each segment is known to be on disk. */
  datatype Disk = Disk(engine: Engine, logMark: nat, segMark: map<nat, nat>)

  /** Records the loader accepts: fields in range, key not too long, a live value not empty. */
  ghost predicate LogFits(log: seq<Record>) {
    forall r :: r in log ==> IndexLog.Fits(r) && |r.key| <= MAX_KEY_SIZE && r.loc.size > 0
  }

  ghost predicate DiskOk(d: Disk) {
    && Sound(d.engine) && LogFits(d.engine.log)
    && d.logMark <= |d.engine.log|
    && (forall id :: id in d.segMark ==> id in d.engine.store.segs && d.segMark[id] <= |d.engine.store.segs[id]|)
  }

  function Sizes(segs: Segments): map<nat, nat> {
    map id | id in segs :: |segs[id]|
  }

  /** Everything is on disk. */
  ghost predicate Synced(d: Disk) {
    d.logMark == |d.engine.log| && d.segMark == Sizes(d.engine.store.segs)
  }

  /** What the shard answers for a key. */
  function Holds(d: Disk, k: Key): Option<Value> {
    Lookup(View(d.engine), k)
  }

  /** What the first `p` records of the log make of a key. */
  function LocAt(d: Disk, p: nat, k: Key): Option<Location>
    requires p <= |d.engine.log|
  {
    Lookup(Replay(d.engine.log[..p]), k)
  }

  /** The bytes of a location are on disk. */
  predicate OnDisk(d: Disk, loc: Location) {
    loc.seg in d.segMark && loc.offset + loc.size <= d.segMark[loc.seg]
  }

  /**
   * The key can be rebuilt, after a crash now, to the value `v` by replaying `log`:
   * a key the log overwrites needs nothing from the disk; any other key needs its presence in
   * every durable version of the index, and its value too when the log does not touch it.
   */
  ghost predicate Rebuildable(d: Disk, log: seq<Command>, k: Key, v: Option<Value>) {
    if Overwritten(log, k) then v == Effects(log, k, None)
    else
      && (forall p :: d.logMark <= p <= |d.engine.log| ==> (LocAt(d, p, k).Some? <==> v.Some?))
      && (v.Some? ==>
           if Touched(log, k) then v == Effects(log, k, Some(""))
           else forall p :: d.logMark <= p <= |d.engine.log| ==>
                  && LocAt(d, p, k).Some? && OnDisk(d, LocAt(d, p, k).value)
                  && ReadAt(d.engine.store.segs, LocAt(d, p, k).value) == v.value)
  }

  // --------------------------------------------------------------- a write

  /** The keys a command may write index records for: those it touches, and for a pattern set only stored ones. */
  ghost predicate MayRecord(c: Command, d: Disk, k: Key) {
    Touches(c, k) && (c.SetBy? ==> Holds(d, k).Some?)
  }

  /**
   * The effect of a command on one shard: appends only, one record at most for each key it may
   * record, no tombstone from a set, and the right effect on every key whose home this is. Nothing
   * becomes durable.
   */
  ghost predicate Writes(d: Disk, d': Disk, c: Command, home: Key -> bool) {
    && DiskOk(d') && d'.logMark == d.logMark && d'.segMark == d.segMark
    && d.engine.log <= d'.engine.log
    && (forall r :: r in d'.engine.log[|d.engine.log|..] ==> MayRecord(c, d, r.key) && (c.SetBy? ==> !r.tombstone))
    && OneEach(d.engine.log, d'.engine.log)
    && Extends(d.engine.store.segs, d'.engine.store.segs)
    && (forall k :: home(k) ==> Holds(d', k) == Effect(c, k, Holds(d, k)))
  }

  /** A command refused for the size of its value: nothing is recorded, though segments may have been opened. */
  ghost predicate Refuses(d: Disk, d': Disk) {
    && DiskOk(d') && d'.logMark == d.logMark && d'.segMark == d.segMark
    && d'.engine.log == d.engine.log && Extends(d.engine.store.segs, d'.engine.store.segs)
  }

  lemma RefusedKeeps(d: Disk, d': Disk, log: seq<Command>, k: Key, v: Option<Value>)
    requires DiskOk(d) && Refuses(d, d') && Rebuildable(d, log, k, v)
    ensures Rebuildable(d', log, k, v) && Holds(d', k) == Holds(d, k)
  {
    ViewStable(TableOf(d.engine), d.engine.store.segs, d'.engine.store.segs);
    forall p | d.logMark <= p <= |d.engine.log|
      ensures LocAt(d', p, k) == LocAt(d, p, k)
    {
      LocAtPrefix(d, d', p, k);
    }
    hide LocAt, Effects, Overwritten, Touched;
    if v.Some? && !Overwritten(log, k) && !Touched(log, k) {
      forall p | d.logMark <= p <= |d.engine.log|
        ensures ReadAt(d'.engine.store.segs, LocAt(d, p, k).value) == v.value
      {
        var loc := LocAt(d, p, k).value;
        assert OnDisk(d, loc);
        ReadStable(d.engine.store.segs, d'.engine.store.segs, loc);
      }
    }
  }

  lemma LocAtPrefix(d: Disk, d': Disk, p: nat, k: Key)
    requires d.engine.log <= d'.engine.log && p <= |d.engine.log|
    ensures LocAt(d', p, k) == LocAt(d, p, k)
  {
    assert d'.engine.log[..p] == d.engine.log[..p];
  }

  /** No record about a key: its location stays what it was. */
  lemma LocAtFrame(d: Disk, d': Disk, p: nat, k: Key)
    requires d.engine.log <= d'.engine.log && |d.engine.log| <= p <= |d'.engine.log|
    requires forall r :: r in d'.engine.log[|d.engine.log|..] ==> r.key != k
    ensures LocAt(d', p, k) == LocAt(d, |d.engine.log|, k)
  {
    var log, log' := d.engine.log, d'.engine.log;
    assert log'[..p] == log + log'[|log|..][..p - |log|];
    assert log[..|log|] == log;
    ReplayFrame(log, log'[|log|..][..p - |log|], k);
  }

  lemma LocAtKeeps(d: Disk, d': Disk, p: nat, k: Key)
    requires d.engine.log <= d'.engine.log && |d.engine.log| <= p <= |d'.engine.log|
    requires forall r :: r in d'.engine.log[|d.engine.log|..] ==> !r.tombstone
    requires LocAt(d, |d.engine.log|, k).Some?
    ensures LocAt(d', p, k).Some?
  {
    var log, log' := d.engine.log, d'.engine.log;
    assert log'[..p] == log + log'[|log|..][..p - |log|];
    assert log[..|log|] == log;
    ReplayKeepsPresence(log, log'[|log|..][..p - |log|], k);
  }

  lemma HoldsIsLoc(d: Disk, k: Key)
    requires DiskOk(d)
    ensures Holds(d, k) == (var l := LocAt(d, |d.engine.log|, k);
                            if l.Some? then Some(ReadAt(d.engine.store.segs, l.value)) else None)
  {
    assert d.engine.log[..|d.engine.log|] == d.engine.log;
  }

  /**
   * A write changes what durable versions of the index say about a key in only these ways: not
   * at all; or, when a pattern set touches a key the log does not overwrite, in its location.
   */
  lemma WriteKeepsPresence(d: Disk, d': Disk, c: Command, home: Key -> bool, k: Key, v: Option<Value>)
    requires DiskOk(d) && Writes(d, d', c, home) && !Overwrites(c, k)
    requires forall p :: d.logMark <= p <= |d.engine.log| ==> (LocAt(d, p, k).Some? <==> v.Some?)
    ensures forall p :: d'.logMark <= p <= |d'.engine.log| ==> (LocAt(d', p, k).Some? <==> v.Some?)
  {
    HoldsIsLoc(d, k);
    forall p | d'.logMark <= p <= |d'.engine.log|
      ensures LocAt(d', p, k).Some? <==> v.Some?
    {
      if p <= |d.engine.log| {
        LocAtPrefix(d, d', p, k);
      } else if MayRecord(c, d, k) {
        LocAtKeeps(d, d', p, k);
      } else {
        LocAtFrame(d, d', p, k);
      }
    }
  }

  /** A key the command does not touch keeps its durable value. */
  lemma WriteKeepsValue(d: Disk, d': Disk, c: Command, home: Key -> bool, k: Key, v: Value)
    requires DiskOk(d) && Writes(d, d', c, home) && !Touches(c, k)
    requires forall p :: d.logMark <= p <= |d.engine.log| ==>
               && LocAt(d, p, k).Some? && OnDisk(d, LocAt(d, p, k).value)
               && ReadAt(d.engine.store.segs, LocAt(d, p, k).value) == v
    ensures forall p :: d'.logMark <= p <= |d'.engine.log| ==>
               && LocAt(d', p, k).Some? && OnDisk(d', LocAt(d', p, k).value)
               && ReadAt(d'.engine.store.segs, LocAt(d', p, k).value) == v
  {
    forall p | d'.logMark <= p <= |d'.engine.log|
      ensures LocAt(d', p, k).Some? && OnDisk(d', LocAt(d', p, k).value)
      ensures ReadAt(d'.engine.store.segs, LocAt(d', p, k).value) == v
    {
      var q := if p <= |d.engine.log| then p else |d.engine.log|;
      if p <= |d.engine.log| {
        LocAtPrefix(d, d', p, k);
      } else {
        LocAtFrame(d, d', p, k);
      }
      ReadStable(d.engine.store.segs, d'.engine.store.segs, LocAt(d, q, k).value);
    }
  }

  /** A logged command keeps every key rebuildable, to its new value. */
  lemma {:induction false} LoggedWrite(d: Disk, d': Disk, c: Command, home: Key -> bool, log: seq<Command>, k: Key, v: Option<Value>)
    requires DiskOk(d) && Writes(d, d', c, home) && Rebuildable(d, log, k, v)
    ensures Rebuildable(d', log + [c], k, Effect(c, k, v))
  {
    OverwrittenAppend(log, c, k);
    if Overwritten(log, k) {
    } else if Overwrites(c, k) {
    } else {
      NotOverwritten(log, k, Some(""));
      hide DiskOk, Writes, LocAt, Effects, Overwritten, Touched, Overwrites;
      WriteKeepsPresence(d, d', c, home, k, v);
      if v.Some? && !Touches(c, k) && !Touched(log, k) {
        WriteKeepsValue(d, d', c, home, k, v.value);
      }
    }
  }

  /** A command replayed from the log keeps every key rebuildable, to the value it had to be rebuilt to. */
  lemma {:induction false} ReplayedWrite(d: Disk, d': Disk, c: Command, home: Key -> bool, log: seq<Command>, k: Key, v: Option<Value>)
    requires DiskOk(d) && Writes(d, d', c, home) && Rebuildable(d, log, k, v) && c in log
    ensures Rebuildable(d', log, k, v)
  {
    if !Overwritten(log, k) {
      hide DiskOk, Writes, LocAt, Effects;
      WriteKeepsPresence(d, d', c, home, k, v);
      if v.Some? && !Touched(log, k) {
        WriteKeepsValue(d, d', c, home, k, v.value);
      }
    }
  }

  // ------------------------------------------------- flush and compaction

  function FlushDisk(d: Disk): Disk {
    Disk(d.engine, |d.engine.log|, Sizes(d.engine.store.segs))
  }

  /** `Rebuildable` for the one version of the index that is the whole log. */
  ghost predicate RebuildableNow(d: Disk, log: seq<Command>, k: Key, v: Option<Value>) {
    var loc := Lookup(TableOf(d.engine), k);
    if Overwritten(log, k) then v == Effects(log, k, None)
    else
      && (loc.Some? <==> v.Some?)
      && (v.Some? ==>
           if Touched(log, k) then v == Effects(log, k, Some(""))
           else OnDisk(d, loc.value) && ReadAt(d.engine.store.segs, loc.value) == v.value)
  }

  lemma Now(d: Disk, log: seq<Command>, k: Key, v: Option<Value>)
    requires d.logMark <= |d.engine.log|
    ensures Rebuildable(d, log, k, v) ==> RebuildableNow(d, log, k, v)
    ensures d.logMark == |d.engine.log| && RebuildableNow(d, log, k, v) ==> Rebuildable(d, log, k, v)
  {
    assert d.engine.log[..|d.engine.log|] == d.engine.log;
    assert LocAt(d, |d.engine.log|, k) == Lookup(TableOf(d.engine), k);
  }

  lemma FlushKeeps(d: Disk, log: seq<Command>, k: Key, v: Option<Value>)
    requires DiskOk(d) && Rebuildable(d, log, k, v)
    ensures Rebuildable(FlushDisk(d), log, k, v)
  {
    Now(d, log, k, v);
    Now(FlushDisk(d), log, k, v);
    hide Replay, Rebuildable;
    if k in TableOf(d.engine) {
      assert Contained(d.engine.store.segs, TableOf(d.engine)[k]);
    }
  }

  /**
   * One compactor run: the rewritten INDEX replaces the old one synced; when anything moved,
   * segments and INDEX are synced again before unused segments go.
   */
  function CompactDisk(d: Disk, order: seq<Key>, segSize: U64): Disk
    requires forall k :: k in order ==> k in TableOf(d.engine)
  {
    var e := Compact(d.engine, order, segSize);
    if CompactPass(d.engine, order, segSize).moved then Disk(e, |e.log|, Sizes(e.store.segs))
    else Disk(e, |e.log|, map id | id in d.segMark && id in e.store.segs :: d.segMark[id])
  }

  /** When nothing moved the table is as it was. */
  lemma {:induction false} NothingMoved(e: Engine, entries: seq<Record>, n: nat, segSize: U64)
    requires n <= |entries|
    ensures var p := Relocate(e, entries, n, segSize);
            !p.moved ==> p.entries == entries && p.engine.log == e.log
  {
    if n > 0 {
      NothingMoved(e, entries, n - 1, segSize);
    }
  }

  lemma UnmovedTable(e: Engine, order: seq<Key>, segSize: U64)
    requires Enumerates(order, TableOf(e).Keys) && !CompactPass(e, order, segSize).moved
    ensures TableOf(Compact(e, order, segSize)) == TableOf(e)
  {
    var entries := Entries(TableOf(e), order);
    NothingMoved(e.(log := entries), entries, |entries|, segSize);
    CompactPreservesTable(TableOf(e), order);
    hide Relocate, Replay, Entries, RemoveUnused;
  }

  lemma CompactedTable(d: Disk, order: seq<Key>, segSize: U64)
    requires Sound(d.engine) && Enumerates(order, TableOf(d.engine).Keys)
    ensures var d' := CompactDisk(d, order, segSize);
            && Sound(d'.engine) && View(d'.engine) == View(d.engine)
            && (d'.segMark == Sizes(d'.engine.store.segs)
                || (TableOf(d'.engine) == TableOf(d.engine)
                    && d'.segMark == map id | id in d.segMark && id in d'.engine.store.segs :: d.segMark[id]))
  {
    hide Sound, View, Compact, CompactPass, TableOf;
    CompactPreserves(d.engine, order, segSize);
    if !CompactPass(d.engine, order, segSize).moved {
      UnmovedTable(d.engine, order, segSize);
    }
  }

  lemma CompactKeeps(d: Disk, order: seq<Key>, segSize: U64, log: seq<Command>, k: Key, v: Option<Value>)
    requires DiskOk(d) && Enumerates(order, TableOf(d.engine).Keys) && Rebuildable(d, log, k, v)
    ensures Rebuildable(CompactDisk(d, order, segSize), log, k, v)
    ensures Holds(CompactDisk(d, order, segSize), k) == Holds(d, k)
  {
    var d' := CompactDisk(d, order, segSize);
    CompactedTable(d, order, segSize);
    Now(d, log, k, v);
    Now(d', log, k, v);
    hide Replay, Rebuildable, CompactDisk, Compact, CompactPass, Effects;
    assert Holds(d', k) == Holds(d, k);
    if k in TableOf(d.engine) {
      assert k in View(d.engine) && k in View(d'.engine);
      assert Contained(d'.engine.store.segs, TableOf(d'.engine)[k]);
    } else {
      assert k !in View(d.engine) && k !in View(d'.engine);
    }
  }

  // --------------------------------------------------------- crash and boot

  /** The files a crash leaves behind. */
  datatype Image = Image(index: string, segs: Segments)

  /** Byte-prefixes of the files, not shorter than what was synced; a segment with no synced byte may be missing. */
  ghost predicate IsImage(d: Disk, img: Image)
    requires d.logMark <= |d.engine.log|
  {
    && img.index <= SerializeAll(d.engine.log)
    && |SerializeAll(d.engine.log[..d.logMark])| <= |img.index|
    && Extends(img.segs, d.engine.store.segs)
    && (forall id :: id in d.segMark && d.segMark[id] > 0 ==> id in img.segs && d.segMark[id] <= |img.segs[id]|)
  }

  lemma WholeImage(d: Disk, img: Image)
    requires DiskOk(d) && Synced(d) && img == Image(SerializeAll(d.engine.log), d.engine.store.segs)
    ensures IsImage(d, img)
  {
    assert d.engine.log[..d.logMark] == d.engine.log;
  }

  /** The table the loader finds in the INDEX bytes. */
  function Loaded(img: Image): Table {
    Replay(Parse(img.index))
  }

  /** The disk after boot: see the contract of the `Shard` constructor. */
  ghost predicate Booted(img: Image, d: Disk) {
    && d.logMark <= |d.engine.log|
    && BootLog(Loaded(img), d.engine.store.segs, d.engine.log[..d.logMark], d.engine.log)
    && d.engine.store.segs == (if img.segs == map[] then map[1 := ""] else img.segs)
    && IsLargest(d.engine.store.latest, d.engine.store.segs.Keys)
    && d.segMark == Sizes(d.engine.store.segs)
  }

  /** Verification at boot does not drop the key. */
  ghost predicate Survives(img: Image, k: Key) {
    k in Loaded(img) ==> Contained(img.segs, Loaded(img)[k])
  }

  /** The loader reads the log up to some record at or behind the last synced one. */
  lemma LoadedIsPrefix(d: Disk, img: Image) returns (j: nat)
    requires DiskOk(d) && IsImage(d, img)
    ensures d.logMark <= j <= |d.engine.log| && Loaded(img) == Replay(d.engine.log[..j])
    ensures j == Recoverable(d.engine.log, |img.index|)
  {
    var log, n := d.engine.log, |img.index|;
    assert img.index == SerializeAll(log)[..n];
    LoadPrefix(log, n);
    RecoverableMonotone(log, d.logMark, n);
    j := Recoverable(log, n);
  }

  lemma BootedOk(d: Disk, img: Image, d': Disk)
    requires DiskOk(d) && IsImage(d, img) && Booted(img, d')
    ensures DiskOk(d')
  {
    BootedFits(d, img, d');
    hide Loaded, Replay, Tombstones, Compacted;
    forall k | k in TableOf(d'.engine)
      ensures TableOf(d'.engine)[k].size > 0 && Contained(d'.engine.store.segs, TableOf(d'.engine)[k])
    {
      ReplaySource(d'.engine.log, k);
    }
  }

  lemma BootedFits(d: Disk, img: Image, d': Disk)
    requires DiskOk(d) && IsImage(d, img) && Booted(img, d')
    ensures LogFits(d'.engine.log)
  {
    var j := LoadedIsPrefix(d, img);
    hide Loaded, Replay, Tombstones, Compacted, Sound, IsImage, Verified;
    forall r | r in d'.engine.log
      ensures IndexLog.Fits(r) && |r.key| <= MAX_KEY_SIZE && r.loc.size > 0
    {
      BootRecord(Loaded(img), d'.engine.store.segs, d'.engine.log[..d'.logMark], d'.engine.log, r);
      ReplaySource(d.engine.log[..j], r.key);
      assert Record(r.key, r.loc, false) in d.engine.log;
    }
  }

  /** What the key's entry looks like in every version of the INDEX from boot on. */
  lemma BootedEntry(img: Image, d': Disk, k: Key, p: nat)
    requires Booted(img, d') && d'.logMark <= p <= |d'.engine.log|
    requires k in Loaded(img) ==> Contained(d'.engine.store.segs, Loaded(img)[k])
    ensures LocAt(d', p, k) == Lookup(Loaded(img), k)
  {
    BootFrame(Loaded(img), d'.engine.store.segs, d'.engine.log[..d'.logMark], d'.engine.log, k, p);
  }

  /** A key that boot keeps, or never had, is rebuilt by the replay, and stays rebuildable during it. */
  lemma BootKeeps(d: Disk, img: Image, d': Disk, log: seq<Command>, k: Key, v: Option<Value>)
    requires DiskOk(d) && IsImage(d, img) && Booted(img, d') && Rebuildable(d, log, k, v)
    requires !Overwritten(log, k) && Touched(log, k) ==> Survives(img, k)
    ensures Rebuildable(d', log, k, v) && Effects(log, k, Holds(d', k)) == v
  {
    if Overwritten(log, k) {
      OverwrittenForgets(log, k, None, Holds(d', k));
    } else {
      BootKeepsEntry(d, img, d', log, k, v);
    }
  }

  /** The entry of a key the log does not overwrite: there iff it must be, backed by bytes, the right ones if untouched. */
  lemma {:induction false} LoadedEntry(d: Disk, img: Image, d': Disk, log: seq<Command>, k: Key, v: Option<Value>)
    requires DiskOk(d) && IsImage(d, img) && Booted(img, d') && Rebuildable(d, log, k, v)
    requires !Overwritten(log, k) && (Touched(log, k) ==> Survives(img, k))
    ensures k in Loaded(img) <==> v.Some?
    ensures v.Some? ==> Contained(d'.engine.store.segs, Loaded(img)[k])
    ensures v.Some? && !Touched(log, k) ==> ReadAt(d'.engine.store.segs, Loaded(img)[k]) == v.value
  {
    var j := LoadedIsPrefix(d, img);
    assert Lookup(Loaded(img), k) == LocAt(d, j, k);
    hide LocAt, Replay, Parse, BootLog, Effects, DiskOk;
    if v.Some? {
      var loc := Loaded(img)[k];
      LoadedSize(d, img, k);
      if !Touched(log, k) {
        SyncedSurvives(d, img, loc);
      }
      ReadStable(img.segs, d.engine.store.segs, loc);
    }
  }

  /** Synced bytes are in every image. */
  lemma SyncedSurvives(d: Disk, img: Image, loc: Location)
    requires d.logMark <= |d.engine.log| && IsImage(d, img) && OnDisk(d, loc) && loc.size > 0
    ensures Contained(img.segs, loc)
  {
    hide SerializeAll;
  }

  lemma {:induction false} BootKeepsEntry(d: Disk, img: Image, d': Disk, log: seq<Command>, k: Key, v: Option<Value>)
    requires DiskOk(d) && IsImage(d, img) && Booted(img, d') && Rebuildable(d, log, k, v)
    requires !Overwritten(log, k) && (Touched(log, k) ==> Survives(img, k))
    ensures Rebuildable(d', log, k, v) && Effects(log, k, Holds(d', k)) == v
  {
    LoadedEntry(d, img, d', log, k, v);
    BootedOk(d, img, d');
    HoldsIsLoc(d', k);
    NotOverwritten(log, k, Holds(d', k));
    NotOverwritten(log, k, None);
    forall p | d'.logMark <= p <= |d'.engine.log|
      ensures LocAt(d', p, k) == Lookup(Loaded(img), k)
    {
      BootedEntry(img, d', k, p);
    }
    RebuildableFromEntry(d, img, d', log, k, v);
  }

  lemma RebuildableFromEntry(d: Disk, img: Image, d': Disk, log: seq<Command>, k: Key, v: Option<Value>)
    requires d'.logMark <= |d'.engine.log| && d'.segMark == Sizes(d'.engine.store.segs)
    requires !Overwritten(log, k) && Rebuildable(d, log, k, v)
    requires k in Loaded(img) <==> v.Some?
    requires v.Some? ==> Contained(d'.engine.store.segs, Loaded(img)[k])
    requires v.Some? && !Touched(log, k) ==> ReadAt(d'.engine.store.segs, Loaded(img)[k]) == v.value
    requires forall p :: d'.logMark <= p <= |d'.engine.log| ==> LocAt(d', p, k) == Lookup(Loaded(img), k)
    ensures Rebuildable(d', log, k, v)
  {
    hide LocAt, Loaded, Effects;
  }

  /** What the files of a crash say about a key. */
  function Found(img: Image, k: Key): Option<Value> {
    if k in Loaded(img) && Contained(img.segs, Loaded(img)[k]) then Some(ReadAt(img.segs, Loaded(img)[k])) else None
  }

  lemma BootFinds(d: Disk, img: Image, d': Disk, k: Key)
    requires DiskOk(d) && IsImage(d, img) && Booted(img, d')
    ensures Holds(d', k) == Found(img, k)
  {
    BootedOk(d, img, d');
    assert TableOf(d'.engine) == Verified(Loaded(img), d'.engine.store.segs);
    hide Loaded, DiskOk, Replay;
    assert k in Loaded(img) ==> (Contained(d'.engine.store.segs, Loaded(img)[k]) <==> Contained(img.segs, Loaded(img)[k])) by {
      if img.segs == map[] && k in Loaded(img) {
        LoadedSize(d, img, k);
      }
    }
  }

  lemma LoadedSize(d: Disk, img: Image, k: Key)
    requires DiskOk(d) && IsImage(d, img) && k in Loaded(img)
    ensures Loaded(img)[k].size > 0
  {
    var j := LoadedIsPrefix(d, img);
    ReplaySource(d.engine.log[..j], k);
  }

  /** For a key the log does not overwrite the files tell presence, and the value too if it is untouched. */
  lemma {:induction false} BootExplains(d: Disk, img: Image, log: seq<Command>, k: Key, v: Option<Value>)
    requires DiskOk(d) && IsImage(d, img) && Rebuildable(d, log, k, v)
    ensures Explains(log, k, Found(img, k), v)
    ensures !Overwritten(log, k) ==> (k in Loaded(img) <==> v.Some?)
  {
    if !Overwritten(log, k) {
      var j := LoadedIsPrefix(d, img);
      assert Lookup(Loaded(img), k) == LocAt(d, j, k);
      hide LocAt, Replay, Parse, Effects, DiskOk, Loaded;
      if v.Some? && !Touched(log, k) {
        var loc := Loaded(img)[k];
        LoadedSize(d, img, k);
        SyncedSurvives(d, img, loc);
        ReadStable(img.segs, d.engine.store.segs, loc);
      }
    }
  }

  /**
   * Exactly when replaying the commands that fit rebuilds a key, in terms of the log, the sizes of
   * its values and what the files say.
   */
  lemma {:induction false} RebuiltExactly(d: Disk, img: Image, d': Disk, log: seq<Command>, size: nat, k: Key, v: Option<Value>)
    requires DiskOk(d) && IsImage(d, img) && Booted(img, d') && Rebuildable(d, log, k, v)
    ensures Effects(Fitting(log, size), k, Holds(d', k)) == v <==> Restorable(log, size, k, Found(img, k), v)
  {
    hide DiskOk, IsImage, Booted, Rebuildable, Explains, Restorable, Found;
    BootFinds(d, img, d', k);
    BootExplains(d, img, log, k, v);
    ReplayExact(log, size, k, Found(img, k), v);
  }

  /**
   * When every value fits, that is so unless the log only changes the key by pattern sets and its
   * index entry reached the disk without the value bytes it names.
   */
  lemma {:induction false} RestorableIffKept(d: Disk, img: Image, log: seq<Command>, size: nat, k: Key, v: Option<Value>)
    requires DiskOk(d) && IsImage(d, img) && Rebuildable(d, log, k, v)
    ensures Restorable(log, size, k, Found(img, k), v) ==> (!Overwritten(log, k) && Touched(log, k) ==> Survives(img, k))
    ensures (forall c :: c in log ==> Size(c) <= size) && (!Overwritten(log, k) && Touched(log, k) ==> Survives(img, k)) ==>
              Restorable(log, size, k, Found(img, k), v)
  {
    BootExplains(d, img, log, k, v);
    hide Rebuildable, Loaded, DiskOk, IsImage;
    var x := Found(img, k);
    if v.Some? {
      if Touched(log, k) {
        LiveTail(log, k, if Overwritten(log, k) then None else Some(""));
        var i := LastWrite(log, k).value;
        assert log[i] in log;
        if !Overwritten(log, k) {
          assert forall c :: c in log[..i] ==> c in log;
          NeverOverwritten(log[..i], size, k, x);
        } else if forall c :: c in log ==> Size(c) <= size {
          OverwrittenPresent(log, size, k, x, i);
        }
      } else {
        FittingFacts(log, size);
      }
    }
  }

  lemma {:induction false} NeverOverwritten(log: seq<Command>, size: nat, k: Key, x: Option<Value>)
    requires forall c :: c in log ==> !Overwrites(c, k)
    ensures PresentAfter(log, size, k, x) <==> x.Some?
  {
    if log != [] {
      assert log[|log| - 1] in log;
      NeverOverwritten(log[..|log| - 1], size, k, x);
    }
  }

  /** The last write of a live key is a set, or comes after one that nothing undid. */
  lemma {:induction false} OverwrittenPresent(log: seq<Command>, size: nat, k: Key, x: Option<Value>, i: nat)
    requires i < |log| && (forall c :: c in log ==> Size(c) <= size) && Overwritten(log, k) && Effects(log, k, None).Some?
    requires WritesTo(log[i], k) && forall j :: i < j < |log| ==> !Touches(log[j], k)
    ensures log[i].Set? || PresentAfter(log[..i], size, k, x)
  {
    FittingAll(log, size);
    FittingTail(log, size, k, None, i + 1);
    OverwrittenForgets(log, k, None, x);
    FittingTail(log, size, k, x, i + 1);
    LastWriteFits(log, size, k, x, i);
    hide Effects, PresentAfter, Fitting;
  }
}
