/**
 * What the durability machine of module `Crash` leaves open: that the engine's operations are
 * the writes it allows, what a crash during the clearing of the WALs does, and what a crash does
 * that loses WAL records nobody was told about.
 */
module Recovery {
  import opened Base
  import opened Bytes
  import opened IndexLog
  import opened Storage
  import opened ShardEngine
  import opened Commands
  import opened Durability
  import opened Crash

  // ------------------------------------- the engine's operations are writes

  /** `Shard::set` on the key's own shard. */
  lemma SetIsWrite(d: Disk, k: Key, v: Value, segSize: U64, home: Key -> bool)
    requires DiskOk(d) && v != "" && !Refused(d.engine.store, v, segSize) && LogFits(SetStep(d.engine, k, v, segSize).0.log)
    ensures Writes(d, d.(engine := SetStep(d.engine, k, v, segSize).0), Set(k, v), home)
  {
    hide Sound, View, Replay, LogFits, Extends, AppendStep, Refused;
    SetSpec(d.engine, k, v, segSize);
    var d' := d.(engine := SetStep(d.engine, k, v, segSize).0);
    MarksGrow(d, d');
    assert OneEach(d.engine.log, d'.engine.log);
    assert forall x :: home(x) ==> Holds(d', x) == Effect(Set(k, v), x, Holds(d, x));
  }

  /** A `set` whose append is refused. */
  lemma SetRefuses(d: Disk, k: Key, v: Value, segSize: U64)
    requires DiskOk(d) && v != "" && Refused(d.engine.store, v, segSize)
    ensures Refuses(d, d.(engine := SetStep(d.engine, k, v, segSize).0))
  {
    hide Sound, View, Replay, LogFits, Extends, AppendStep, Refused;
    SetSpec(d.engine, k, v, segSize);
    MarksGrow(d, d.(engine := SetStep(d.engine, k, v, segSize).0));
  }

  /** A pattern set of a value larger than a segment. */
  lemma {:induction false} SetByRefuses(d: Disk, keys: seq<Key>, v: Value, segSize: U64)
    requires DiskOk(d) && |v| > segSize
    ensures Refuses(d, d.(engine := SetAll(d.engine, keys, v, segSize).0))
  {
    if keys != [] {
      var front := keys[..|keys| - 1];
      SetByRefuses(d, front, v, segSize);
      var d1 := d.(engine := SetAll(d.engine, front, v, segSize).0);
      SetRefuses(d1, keys[|keys| - 1], v, segSize);
      var d2 := d1.(engine := SetStep(d1.engine, keys[|keys| - 1], v, segSize).0);
      ExtendsTransitive(d.engine.store.segs, d1.engine.store.segs, d2.engine.store.segs);
    }
  }

  lemma MarksGrow(d: Disk, d': Disk)
    requires DiskOk(d) && d'.segMark == d.segMark && Extends(d.engine.store.segs, d'.engine.store.segs)
    ensures forall id :: id in d'.segMark ==> id in d'.engine.store.segs && d'.segMark[id] <= |d'.engine.store.segs[id]|
  {
  }

  /** A shard that a command does not concern does nothing. */
  lemma IdleIsWrite(d: Disk, c: Command, home: Key -> bool)
    requires DiskOk(d) && forall k :: home(k) ==> Effect(c, k, Holds(d, k)) == Holds(d, k)
    ensures Writes(d, d, c, home)
  {
    assert d.engine.log[|d.engine.log|..] == [];
  }

  /** `Shard::del`. */
  lemma DelIsWrite(d: Disk, k: Key, home: Key -> bool)
    requires DiskOk(d) && LogFits(DelStep(d.engine, k).0.log)
    ensures Writes(d, d.(engine := DelStep(d.engine, k).0), Del(k), home)
  {
    DelSpec(d.engine, k);
    MarksGrow(d, d.(engine := DelStep(d.engine, k).0));
  }

  lemma MatchingPerKey(m: map<Key, Value>, keys: seq<Key>, p: Key -> bool, v: Value, k: Key)
    requires Enumerates(keys, set k | k in m && p(k))
    ensures Lookup(AllSet(m, keys, v), k) == Effect(SetBy(p, v, None), k, Lookup(m, k))
    ensures Lookup(m - KeySet(keys), k) == Effect(DelBy(p, None), k, Lookup(m, k))
    ensures k in KeySet(keys) ==> p(k) && Lookup(m, k).Some?
  {
  }

  lemma MatchingListed(m: map<Key, Value>, keys: seq<Key>, p: Key -> bool)
    requires Enumerates(keys, set k | k in m && p(k))
    ensures forall k :: k in keys ==> k in m
    ensures forall i, j :: 0 <= i < j < |keys| ==> keys[i] != keys[j]
  {
  }

  lemma Listed(keys: seq<Key>, all: set<Key>)
    requires Enumerates(keys, all)
    ensures forall i, j :: 0 <= i < j < |keys| ==> keys[i] != keys[j]
  {
  }

  /** `Shard::setBy`, for any order of the matching keys. */
  lemma SetByIsWrite(d: Disk, keys: seq<Key>, p: Key -> bool, v: Value, segSize: U64, home: Key -> bool)
    requires DiskOk(d) && v != "" && LogFits(SetAll(d.engine, keys, v, segSize).0.log)
    requires Accepted(d.engine, keys, v, segSize) == keys
    requires Enumerates(keys, set k | k in View(d.engine) && p(k))
    ensures Writes(d, d.(engine := SetAll(d.engine, keys, v, segSize).0), SetBy(p, v, None), home)
  {
    hide Sound, View, Replay, LogFits, SetAll, Extends, AllSet, KeySet, Enumerates;
    SetAllSpec(d.engine, keys, v, segSize);
    Listed(keys, set k | k in View(d.engine) && p(k));
    SetAllOnce(d.engine, keys, v, segSize);
    var d' := d.(engine := SetAll(d.engine, keys, v, segSize).0);
    MarksGrow(d, d');
    forall k
      ensures Holds(d', k) == Effect(SetBy(p, v, None), k, Holds(d, k))
      ensures k in KeySet(keys) ==> MayRecord(SetBy(p, v, None), d, k)
    {
      MatchingPerKey(View(d.engine), keys, p, v, k);
    }
  }

  /** `Shard::delBy`, for any order of the matching keys. */
  lemma DelByIsWrite(d: Disk, keys: seq<Key>, p: Key -> bool, home: Key -> bool)
    requires DiskOk(d) && LogFits(DelAll(d.engine, keys).0.log)
    requires Enumerates(keys, set k | k in View(d.engine) && p(k))
    ensures Writes(d, d.(engine := DelAll(d.engine, keys).0), DelBy(p, None), home)
  {
    hide Sound, View, Replay, LogFits, DelAll, Extends, KeySet, Enumerates;
    MatchingListed(View(d.engine), keys, p);
    DelAllSpec(d.engine, keys);
    DelAllOnce(d.engine, keys);
    var d' := d.(engine := DelAll(d.engine, keys).0);
    MarksGrow(d, d');
    forall k
      ensures Holds(d', k) == Effect(DelBy(p, None), k, Holds(d, k))
      ensures k in KeySet(keys) ==> MayRecord(DelBy(p, None), d, k)
    {
      MatchingPerKey(View(d.engine), keys, p, "", k);
    }
  }

  // --------------------------------------- a crash while the WALs are cleared

  function LastTouch(log: seq<Command>, k: Key): (r: Option<nat>)
    ensures r.Some? ==> r.value < |log| && Touches(log[r.value], k)
  {
    if log == [] then None
    else if Touches(log[|log| - 1], k) then Some(|log| - 1)
    else LastTouch(log[..|log| - 1], k)
  }

  function LastOverwrite(log: seq<Command>, k: Key): (r: Option<nat>)
    ensures r.Some? ==> r.value < |log| && Overwrites(log[r.value], k)
  {
    if log == [] then None
    else if Overwrites(log[|log| - 1], k) then Some(|log| - 1)
    else LastOverwrite(log[..|log| - 1], k)
  }

  /** The key is there after the log: its last set or deletion is a set, or it was there and had none. */
  predicate Ends(log: seq<Command>, k: Key, x: Option<Value>) {
    var o := LastOverwrite(log, k);
    if o.Some? then log[o.value].Set? else x.Some?
  }

  /** The effect of a log on a key, from its last records. */
  lemma {:induction false} LastRecords(log: seq<Command>, k: Key, x: Option<Value>)
    ensures var t := LastTouch(log, k);
            && (Ends(log, k, x) && t.Some? ==> WritesTo(log[t.value], k))
            && Effects(log, k, x) == if !Ends(log, k, x) then None else if t.None? then x else Some(log[t.value].value)
  {
    if log != [] {
      var front, c := log[..|log| - 1], log[|log| - 1];
      LastRecords(front, k, x);
      OverwriteTouches(front, k);
      if LastOverwrite(front, k).Some? {
        assert front[LastOverwrite(front, k).value] == log[LastOverwrite(front, k).value];
      }
      if LastTouch(front, k).Some? {
        assert front[LastTouch(front, k).value] == log[LastTouch(front, k).value];
      }
    }
  }

  /**
   * The surviving records leave a key with value `v` as it is: if it is absent, their last set or
   * deletion of it is none or a deletion; if it is there, that is none or a set, and the last of
   * them to touch it writes just `v`.
   */
  predicate Agrees(log: seq<Command>, k: Key, v: Option<Value>) {
    var o, t := LastOverwrite(log, k), LastTouch(log, k);
    if v.None? then o.None? || !log[o.value].Set?
    else t.None? || ((o.None? || log[o.value].Set?) && WritesTo(log[t.value], k) && log[t.value].value == v.value)
  }

  lemma AgreesExact(log: seq<Command>, k: Key, v: Option<Value>)
    ensures Effects(log, k, v) == v <==> Agrees(log, k, v)
  {
    LastRecords(log, k, v);
    OverwriteTouches(log, k);
  }

  lemma {:induction false} OverwriteTouches(log: seq<Command>, k: Key)
    ensures LastTouch(log, k).None? ==> LastOverwrite(log, k).None?
  {
    if log != [] {
      OverwriteTouches(log[..|log| - 1], k);
    }
  }

  /** The record is still there, and its value fits. */
  predicate Survivor(l: Logged, cleared: set<nat>, size: nat) {
    l.shard !in cleared && Size(l.cmd) <= size
  }

  /** Some records about the key survive, and some do not. */
  ghost predicate Mixed(wal: seq<Logged>, cleared: set<nat>, size: nat, k: Key) {
    && (exists l :: l in wal && Touches(l.cmd, k) && Survivor(l, cleared, size))
    && (exists l :: l in wal && Touches(l.cmd, k) && !Survivor(l, cleared, size))
  }

  function Survivors(wal: seq<Logged>, cleared: set<nat>, size: nat): seq<Command> {
    Fitting(Crash.Commands(Uncleared(wal, cleared)), size)
  }

  lemma SurvivorsAppend(wal: seq<Logged>, l: Logged, cleared: set<nat>, size: nat)
    ensures Survivors(wal + [l], cleared, size)
         == Survivors(wal, cleared, size) + if Survivor(l, cleared, size) then [l.cmd] else []
  {
    assert (wal + [l])[..|wal|] == wal;
    var left := Uncleared(wal, cleared);
    CommandsAppend(left, l);
    assert (Crash.Commands(left) + [l.cmd])[..|left|] == Crash.Commands(left);
    assert Survivors(wal, cleared, size) + [] == Survivors(wal, cleared, size);
  }

  lemma {:induction false} NoneSurvives(wal: seq<Logged>, cleared: set<nat>, size: nat, k: Key, x: Option<Value>)
    requires forall l :: l in wal && Touches(l.cmd, k) ==> !Survivor(l, cleared, size)
    ensures Effects(Survivors(wal, cleared, size), k, x) == x
  {
    if wal != [] {
      var front, l := wal[..|wal| - 1], wal[|wal| - 1];
      assert wal == front + [l];
      NoneSurvives(front, cleared, size, k, x);
      SurvivorsAppend(front, l, cleared, size);
      OverwrittenAppend(Survivors(front, cleared, size), l.cmd, k);
      hide Survivors;
      assert Survivors(front, cleared, size) + [] == Survivors(front, cleared, size);
    }
  }

  lemma {:induction false} AllSurvive(wal: seq<Logged>, cleared: set<nat>, size: nat, k: Key, x: Option<Value>)
    requires forall l :: l in wal && Touches(l.cmd, k) ==> Survivor(l, cleared, size)
    ensures Effects(Survivors(wal, cleared, size), k, x) == Effects(Crash.Commands(wal), k, x)
  {
    if wal != [] {
      var front, l := wal[..|wal| - 1], wal[|wal| - 1];
      assert wal == front + [l];
      AllSurvive(front, cleared, size, k, x);
      SurvivorsAppend(front, l, cleared, size);
      CommandsAppend(front, l);
      OverwrittenAppend(Survivors(front, cleared, size), l.cmd, k);
      OverwrittenAppend(Crash.Commands(front), l.cmd, k);
      hide Survivors, Crash.Commands;
      assert Survivors(front, cleared, size) + [] == Survivors(front, cleared, size);
    }
  }

  /** A whole log is absorbed by the live value it explains. */
  lemma Absorbed(d: Disk, log: seq<Command>, k: Key, v: Option<Value>)
    requires Rebuildable(d, log, k, v) && d.logMark <= |d.engine.log|
    ensures Effects(log, k, v) == v
  {
    if Overwritten(log, k) {
      OverwrittenForgets(log, k, None, v);
    } else {
      NotOverwritten(log, k, v);
      if v.Some? && Touched(log, k) {
        NotOverwritten(log, k, Some(""));
      }
    }
  }

  /** Booting from fully synced files finds every value again. */
  lemma SyncedReboot(d: Disk, img: Image, d': Disk, k: Key)
    requires DiskOk(d) && Synced(d) && IsImage(d, img) && Booted(img, d')
    ensures Holds(d', k) == Holds(d, k)
  {
    SyncedUntouched(d, [], k);
    BootKeeps(d, img, d', [], k, Holds(d, k));
  }

  /**
   * A crash after all data was synced, when the WALs of some shards are already cleared: replaying
   * the records that are left, and fit, on the flushed files gives the live map if and only if
   * they agree with it on each key that has both a surviving record and one that is gone. Keys
   * with all or none of their records left are always right.
   */
  lemma {:induction false} PartialClearExact(c: Config, db: DB, cleared: set<nat>, images: seq<Image>, booted: DB)
    requires Inv(c, db) && db.pending == [] && AllSynced(db)
    requires Crashes(db.(wal := Uncleared(db.wal, cleared)), booted, images)
    ensures (forall k :: Effects(Fitting(booted.pending, booted.segSize), k, Answer(c, booted, k)) == Lookup(db.live, k))
       <==> (forall k :: Mixed(db.wal, cleared, booted.segSize, k) ==>
               Agrees(Survivors(db.wal, cleared, booted.segSize), k, Lookup(db.live, k)))
  {
    var size := booted.segSize;
    forall k
      ensures Effects(Fitting(booted.pending, size), k, Answer(c, booted, k)) == Lookup(db.live, k)
         <==> (Mixed(db.wal, cleared, size, k) ==> Agrees(Survivors(db.wal, cleared, size), k, Lookup(db.live, k)))
    {
      PartialClearKey(c, db, cleared, images, booted, k);
    }
  }

  /** From fully synced files the key is found again, and a log that is only absorbed does not change it. */
  lemma {:induction false} RebootedKey(c: Config, db: DB, cleared: set<nat>, images: seq<Image>, booted: DB, k: Key)
    requires Inv(c, db) && db.pending == [] && AllSynced(db)
    requires Crashes(db.(wal := Uncleared(db.wal, cleared)), booted, images)
    ensures Answer(c, booted, k) == Lookup(db.live, k)
    ensures Effects(Crash.Commands(db.wal), k, Lookup(db.live, k)) == Lookup(db.live, k)
    ensures Fitting(booted.pending, booted.segSize) == Survivors(db.wal, cleared, booted.segSize)
  {
    var v, i := Lookup(db.live, k), HomeOf(c, k);
    assert DiskOk(db.disks[i]) && Booted(images[i], booted.disks[i]) && IsImage(db.disks[i], images[i]) && Synced(db.disks[i]);
    assert Effects(Fitting([], db.segSize), k, Answer(c, db, k)) == v;
    assert Rebuildable(db.disks[i], Crash.Commands(db.wal), k, v);
    hide DiskOk, Sound, LogFits, Synced, IsImage, Booted, Rebuildable, Holds, Crash.Commands, Effects, Fitting, Inv;
    SyncedReboot(db.disks[i], images[i], booted.disks[i], k);
    Absorbed(db.disks[i], Crash.Commands(db.wal), k, v);
  }

  lemma {:induction false} PartialClearKey(c: Config, db: DB, cleared: set<nat>, images: seq<Image>, booted: DB, k: Key)
    requires Inv(c, db) && db.pending == [] && AllSynced(db)
    requires Crashes(db.(wal := Uncleared(db.wal, cleared)), booted, images)
    ensures var size := booted.segSize;
            Effects(Fitting(booted.pending, size), k, Answer(c, booted, k)) == Lookup(db.live, k)
            <==> (Mixed(db.wal, cleared, size, k) ==> Agrees(Survivors(db.wal, cleared, size), k, Lookup(db.live, k)))
  {
    var size, v := booted.segSize, Lookup(db.live, k);
    RebootedKey(c, db, cleared, images, booted, k);
    hide *;
    AgreesExact(Survivors(db.wal, cleared, size), k, v);
    if forall l :: l in db.wal && Touches(l.cmd, k) ==> !Survivor(l, cleared, size) {
      NoneSurvives(db.wal, cleared, size, k, v);
    } else if forall l :: l in db.wal && Touches(l.cmd, k) ==> Survivor(l, cleared, size) {
      AllSurvive(db.wal, cleared, size, k, v);
    }
  }
}
