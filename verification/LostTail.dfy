/**
 * A crash that also loses WAL records: those no sync covered, hence no client was told about.
 * For runs of unlimited commands since the last completed flush: what each key comes back with,
 * and exactly when that is a value it had, at or after its last durable record.
 */
module LostTail {
  import opened Base
  import opened Bytes
  import opened IndexLog
  import opened Storage
  import opened ShardEngine
  import opened C = Commands
  import opened Durability
  import opened Crash

  /** A value the key had after some prefix of the log. */
  ghost predicate PastValue(log: seq<Command>, k: Key, x0: Option<Value>, from: nat, v: Option<Value>) {
    exists i :: from <= i <= |log| && v == Effects(log[..i], k, x0)
  }

  /** What the first `p` index records and the segment bytes make of a key. */
  function ReadsAt(d: Disk, p: nat, k: Key): Option<Value>
    requires p <= |d.engine.log|
  {
    var l := LocAt(d, p, k);
    if l.Some? then Some(ReadAt(d.engine.store.segs, l.value)) else None
  }

  ghost predicate BackedAt(d: Disk, p: nat, k: Key)
    requires p <= |d.engine.log|
  {
    LocAt(d, p, k).Some? ==> Contained(d.engine.store.segs, LocAt(d, p, k).value)
  }

  /** Every version of the index that may be on disk shows a past value of the key. */
  ghost predicate History(d: Disk, log: seq<Command>, k: Key, x0: Option<Value>)
    requires d.logMark <= |d.engine.log|
  {
    forall p :: d.logMark <= p <= |d.engine.log| ==>
      BackedAt(d, p, k) && PastValue(log, k, x0, 0, ReadsAt(d, p, k))
  }

  lemma PastGrows(log: seq<Command>, c: Command, k: Key, x0: Option<Value>, v: Option<Value>)
    requires PastValue(log, k, x0, 0, v)
    ensures PastValue(log + [c], k, x0, 0, v)
  {
    var i :| 0 <= i <= |log| && v == Effects(log[..i], k, x0);
    assert (log + [c])[..i] == log[..i];
  }

  lemma PresentIsPast(log: seq<Command>, k: Key, x0: Option<Value>)
    ensures PastValue(log, k, x0, 0, Effects(log, k, x0))
  {
    assert log[..|log|] == log;
  }

  lemma WholeLogBacked(d: Disk, k: Key)
    requires DiskOk(d)
    ensures BackedAt(d, |d.engine.log|, k) && ReadsAt(d, |d.engine.log|, k) == Holds(d, k)
  {
    assert d.engine.log[..|d.engine.log|] == d.engine.log;
  }

  /** An older version of the index still reads what it read. */
  lemma OldVersionStable(d: Disk, d': Disk, p: nat, k: Key)
    requires d.engine.log <= d'.engine.log && Extends(d.engine.store.segs, d'.engine.store.segs)
    requires p <= |d.engine.log| && BackedAt(d, p, k)
    ensures BackedAt(d', p, k) && ReadsAt(d', p, k) == ReadsAt(d, p, k)
  {
    LocAtPrefix(d, d', p, k);
    if LocAt(d, p, k).Some? {
      ReadStable(d.engine.store.segs, d'.engine.store.segs, LocAt(d, p, k).value);
    }
  }

  /** While a command's records reach the INDEX one by one, a key has its old location or its new one. */
  lemma {:induction false} OldOrNew(d: Disk, d': Disk, p: nat, k: Key)
    requires OneEach(d.engine.log, d'.engine.log) && |d.engine.log| <= p <= |d'.engine.log|
    ensures LocAt(d', p, k) == LocAt(d, |d.engine.log|, k) || LocAt(d', p, k) == LocAt(d', |d'.engine.log|, k)
  {
    var log, log' := d.engine.log, d'.engine.log;
    assert log[..|log|] == log && log'[..|log'|] == log';
    hide Replay;
    if q :| |log| <= q < p && log'[q].key == k {
      assert log' == log'[..p] + log'[p..];
      forall r | r in log'[p..]
        ensures r.key != k
      {
        var i :| 0 <= i < |log'[p..]| && log'[p..][i] == r;
        assert log'[p + i] == r;
      }
      ReplayFrame(log'[..p], log'[p..], k);
    } else {
      assert log'[..p] == log + log'[|log|..p];
      forall r | r in log'[|log|..p]
        ensures r.key != k
      {
        var i :| 0 <= i < p - |log| && log'[|log|..p][i] == r;
        assert log'[|log| + i] == r;
      }
      ReplayFrame(log, log'[|log|..p], k);
    }
  }

  lemma {:induction false} HistoryExecute(d: Disk, d': Disk, c: Command, home: Key -> bool, log: seq<Command>, k: Key, x0: Option<Value>)
    requires DiskOk(d) && Writes(d, d', c, home) && home(k)
    requires History(d, log, k, x0) && Holds(d, k) == Effects(log, k, x0)
    ensures History(d', log + [c], k, x0)
  {
    hide *;
    WritesGrow(d, d', c, home);
    PastValues(d, d', c, home, log, k, x0);
    HistoryIs(d', log + [c], k, x0);
  }

  lemma WritesGrow(d: Disk, d': Disk, c: Command, home: Key -> bool)
    requires DiskOk(d) && Writes(d, d', c, home)
    ensures d'.logMark == d.logMark <= |d.engine.log| <= |d'.engine.log| && d.engine.log <= d'.engine.log
    ensures Extends(d.engine.store.segs, d'.engine.store.segs) && OneEach(d.engine.log, d'.engine.log) && DiskOk(d')
  {
  }

  /** A version that reads a past value. */
  ghost predicate PastVersion(d: Disk, p: nat, log: seq<Command>, k: Key, x0: Option<Value>) {
    p <= |d.engine.log| && BackedAt(d, p, k) && PastValue(log, k, x0, 0, ReadsAt(d, p, k))
  }

  lemma HistoryIs(d: Disk, log: seq<Command>, k: Key, x0: Option<Value>)
    requires d.logMark <= |d.engine.log|
    requires forall p :: d.logMark <= p <= |d.engine.log| ==> PastVersion(d, p, log, k, x0)
    ensures History(d, log, k, x0)
  {
    hide BackedAt, PastValue, ReadsAt;
    forall p | d.logMark <= p <= |d.engine.log|
      ensures BackedAt(d, p, k) && PastValue(log, k, x0, 0, ReadsAt(d, p, k))
    {
      assert PastVersion(d, p, log, k, x0);
    }
  }

  lemma {:induction false} PastValues(d: Disk, d': Disk, c: Command, home: Key -> bool, log: seq<Command>, k: Key, x0: Option<Value>)
    requires DiskOk(d) && Writes(d, d', c, home) && home(k)
    requires History(d, log, k, x0) && Holds(d, k) == Effects(log, k, x0)
    ensures forall p :: d'.logMark <= p <= |d'.engine.log| ==> PastVersion(d', p, log + [c], k, x0)
  {
    WritesGrow(d, d', c, home);
    hide DiskOk, LocAt, PastValue, Effects, Holds, MayRecord, Extends, OneEach, BackedAt, ReadsAt, PastVersion;
    forall p | d'.logMark <= p <= |d'.engine.log|
      ensures PastVersion(d', p, log + [c], k, x0)
    {
      if p <= |d.engine.log| {
        OldVersion(d, d', p, c, log, k, x0);
      } else {
        OldVersion(d, d', |d.engine.log|, c, log, k, x0);
        NewVersion(d', c, log, k, x0);
        OldOrNew(d, d', p, k);
        SameVersion(d, d', p, log + [c], k, x0);
      }
    }
  }

  lemma OldVersion(d: Disk, d': Disk, p: nat, c: Command, log: seq<Command>, k: Key, x0: Option<Value>)
    requires d.engine.log <= d'.engine.log && Extends(d.engine.store.segs, d'.engine.store.segs)
    requires p <= |d.engine.log| && BackedAt(d, p, k) && PastValue(log, k, x0, 0, ReadsAt(d, p, k))
    ensures PastVersion(d', p, log + [c], k, x0)
  {
    hide PastValue, ReadsAt, BackedAt, Extends;
    OldVersionStable(d, d', p, k);
    PastGrows(log, c, k, x0, ReadsAt(d, p, k));
  }

  lemma NewVersion(d': Disk, c: Command, log: seq<Command>, k: Key, x0: Option<Value>)
    requires DiskOk(d') && Holds(d', k) == Effect(c, k, Effects(log, k, x0))
    ensures PastVersion(d', |d'.engine.log|, log + [c], k, x0)
  {
    hide PastValue, ReadsAt, BackedAt, DiskOk, Holds;
    WholeLogBacked(d', k);
    OverwrittenAppend(log, c, k);
    PresentIsPast(log + [c], k, x0);
  }

  lemma SameVersion(d: Disk, d': Disk, p: nat, log: seq<Command>, k: Key, x0: Option<Value>)
    requires d.engine.log <= d'.engine.log && |d.engine.log| <= p <= |d'.engine.log|
    requires PastVersion(d', |d.engine.log|, log, k, x0) && PastVersion(d', |d'.engine.log|, log, k, x0)
    requires LocAt(d', p, k) == LocAt(d, |d.engine.log|, k) || LocAt(d', p, k) == LocAt(d', |d'.engine.log|, k)
    ensures PastVersion(d', p, log, k, x0)
  {
    LocAtPrefix(d, d', |d.engine.log|, k);
    hide LocAt, PastValue;
  }

  /** With the whole log on disk only the present value can come back. */
  lemma {:induction false} HistoryAtEnd(d: Disk, log: seq<Command>, k: Key, x0: Option<Value>)
    requires DiskOk(d) && d.logMark == |d.engine.log| && Holds(d, k) == Effects(log, k, x0)
    ensures History(d, log, k, x0)
  {
    WholeLogBacked(d, k);
    PresentIsPast(log, k, x0);
  }

  // ------------------------------------------ the run since a completed flush

  /** A flush has just completed: everything synced, every WAL empty. */
  ghost predicate JustFlushed(c: Config, db: DB) {
    Inv(c, db) && db.wal == [] && db.pending == [] && AllSynced(db)
  }

  ghost predicate EpochStep(step: Step) {
    step.Execute? || step.FlushData? || step.CompactShard? || step.Configure?
  }

  ghost predicate IsEpoch(c: Config, steps: seq<Step>, states: seq<DB>) {
    && |states| == |steps| + 1 && JustFlushed(c, states[0])
    && forall i :: 0 <= i < |steps| ==>
         c.shards == |states[i].disks| > 0 && EpochStep(steps[i]) && Next(c, states[i], steps[i], states[i + 1])
  }

  ghost predicate EpochInv(c: Config, db: DB, base: map<Key, Value>) {
    && Inv(c, db) && db.pending == []
    && (forall k :: History(db.disks[HomeOf(c, k)], Crash.Commands(db.wal), k, Lookup(base, k)))
    && (forall k :: Lookup(db.live, k) == Effects(Crash.Commands(db.wal), k, Lookup(base, k)))
  }

  lemma {:induction false} AnswersLive(c: Config, db: DB, k: Key)
    requires Inv(c, db) && db.pending == []
    ensures Holds(db.disks[HomeOf(c, k)], k) == Lookup(db.live, k)
  {
    assert Effects(Fitting([], db.segSize), k, Answer(c, db, k)) == Lookup(db.live, k);
  }

  lemma {:induction false} ExecuteEpoch(c: Config, db: DB, cmd: Command, s: nat, db': DB, base: map<Key, Value>)
    requires EpochInv(c, db, base) && Next(c, db, Execute(cmd, s), db')
    ensures EpochInv(c, db', base)
  {
    ExecuteInv(c, db, cmd, s, db');
    CommandsAppend(db.wal, Logged(cmd, s));
    forall k
      ensures History(db'.disks[HomeOf(c, k)], Crash.Commands(db'.wal), k, Lookup(base, k))
      ensures Lookup(db'.live, k) == Effects(Crash.Commands(db'.wal), k, Lookup(base, k))
    {
      var i := HomeOf(c, k);
      var home := x => IsHome(c, i, x);
      AnswersLive(c, db, k);
      ApplyPerKey(cmd, db.live, k);
      OverwrittenAppend(Crash.Commands(db.wal), cmd, k);
      assert Writes(db.disks[i], db'.disks[i], cmd, home) && home(k);
      HistoryExecute(db.disks[i], db'.disks[i], cmd, home, Crash.Commands(db.wal), k, Lookup(base, k));
    }
  }

  lemma {:induction false} MaintenanceEpoch(c: Config, db: DB, step: Step, db': DB, base: map<Key, Value>)
    requires EpochInv(c, db, base) && (step.FlushData? || step.CompactShard?) && Next(c, db, step, db')
    ensures EpochInv(c, db', base)
  {
    NextInv(c, db, step, db');
    assert db'.wal == db.wal && db'.live == db.live && db'.pending == [];
    var i := step.i;
    forall k
      ensures History(db'.disks[HomeOf(c, k)], Crash.Commands(db.wal), k, Lookup(base, k))
    {
      AnswersLive(c, db', k);
      if HomeOf(c, k) == i {
        HistoryAtEnd(db'.disks[i], Crash.Commands(db.wal), k, Lookup(base, k));
      }
    }
  }

  lemma ConfigureEpoch(c: Config, db: DB, segSize: U64, db': DB, base: map<Key, Value>)
    requires EpochInv(c, db, base) && Next(c, db, Configure(segSize), db')
    ensures EpochInv(c, db', base)
  {
    NextInv(c, db, Configure(segSize), db');
  }

  lemma StartEpoch(c: Config, db: DB)
    requires JustFlushed(c, db)
    ensures EpochInv(c, db, db.live)
  {
    assert Crash.Commands([]) == [];
    forall k
      ensures History(db.disks[HomeOf(c, k)], [], k, Lookup(db.live, k))
    {
      AnswersLive(c, db, k);
      HistoryAtEnd(db.disks[HomeOf(c, k)], [], k, Lookup(db.live, k));
    }
  }

  lemma {:induction false} RunEpoch(c: Config, steps: seq<Step>, states: seq<DB>, n: nat)
    requires IsEpoch(c, steps, states) && n <= |steps|
    ensures EpochInv(c, states[n], states[0].live)
  {
    hide EpochInv, JustFlushed, Next;
    if n == 0 {
      StartEpoch(c, states[0]);
    } else {
      RunEpoch(c, steps, states, n - 1);
      if steps[n - 1].Execute? {
        ExecuteEpoch(c, states[n - 1], steps[n - 1].cmd, steps[n - 1].shard, states[n], states[0].live);
      } else if steps[n - 1].Configure? {
        ConfigureEpoch(c, states[n - 1], steps[n - 1].segSize, states[n], states[0].live);
      } else {
        MaintenanceEpoch(c, states[n - 1], steps[n - 1], states[n], states[0].live);
      }
    }
  }

  // -------------------------------------------------------- the lost records

  /** The WAL records that are durable. */
  function Pick(wal: seq<Logged>, keep: nat -> bool): seq<Logged> {
    if wal == [] then []
    else
      var front := Pick(wal[..|wal| - 1], keep);
      if keep(|wal| - 1) then front + [wal[|wal| - 1]] else front
  }

  /** One past the last durable record about the key; 0 when there is none. */
  function DurableUpTo(wal: seq<Logged>, keep: nat -> bool, k: Key): (n: nat)
    ensures n <= |wal|
  {
    if wal == [] then 0
    else if keep(|wal| - 1) && Touches(wal[|wal| - 1].cmd, k) then |wal|
    else DurableUpTo(wal[..|wal| - 1], keep, k)
  }

  /** Replaying the durable records: nothing happens to the key, or what the last one about it does. */
  lemma {:induction false} PickEffects(wal: seq<Logged>, keep: nat -> bool, k: Key, x: Option<Value>)
    ensures var n := DurableUpTo(wal, keep, k); var v := Effects(Crash.Commands(Pick(wal, keep)), k, x);
            v == if n == 0 then x else Effect(wal[n - 1].cmd, k, Effects(Crash.Commands(Pick(wal[..n - 1], keep)), k, x))
  {
    hide Effects, Crash.Commands, Effect, Touches;
    if wal == [] {
      NoCommands(k, x);
    } else {
      var front, last := wal[..|wal| - 1], wal[|wal| - 1];
      PickEffects(front, keep, k, x);
      PickLast(Pick(front, keep), last, k, x);
      var n := DurableUpTo(front, keep, k);
      if n > 0 {
        assert wal[..n - 1] == front[..n - 1];
      }
    }
  }

  lemma NoCommands(k: Key, x: Option<Value>)
    ensures Effects(Crash.Commands([]), k, x) == x
  {
    assert Crash.Commands([]) == [];
  }

  lemma PickLast(wal: seq<Logged>, last: Logged, k: Key, x: Option<Value>)
    ensures var v := Effects(Crash.Commands(wal), k, x);
            && Effects(Crash.Commands(wal + [last]), k, x) == Effect(last.cmd, k, v)
            && (!Touches(last.cmd, k) ==> Effect(last.cmd, k, v) == v)
  {
    CommandsAppend(wal, last);
    OverwrittenAppend(Crash.Commands(wal), last.cmd, k);
  }

  /** The records that are durable and whose value still fits. */
  function Effective(wal: seq<Logged>, keep: nat -> bool, size: nat): nat -> bool {
    (i: nat) => keep(i) && i < |wal| && Size(wal[i].cmd) <= size
  }

  lemma {:induction false} PickSame(wal: seq<Logged>, f: nat -> bool, g: nat -> bool)
    requires forall i :: 0 <= i < |wal| ==> f(i) == g(i)
    ensures Pick(wal, f) == Pick(wal, g)
  {
    if wal != [] {
      PickSame(wal[..|wal| - 1], f, g);
    }
  }

  lemma {:induction false} PickFitting(wal: seq<Logged>, keep: nat -> bool, size: nat)
    ensures Fitting(Crash.Commands(Pick(wal, keep)), size) == Crash.Commands(Pick(wal, Effective(wal, keep, size)))
  {
    if wal != [] {
      var front, last := wal[..|wal| - 1], wal[|wal| - 1];
      PickFitting(front, keep, size);
      PickSame(front, Effective(wal, keep, size), Effective(front, keep, size));
      CommandsAppend(Pick(front, keep), last);
      CommandsAppend(Pick(front, Effective(wal, keep, size)), last);
      var log := Crash.Commands(Pick(front, keep));
      assert (log + [last.cmd])[..|log|] == log;
    }
  }

  /** The crash: files as in module `Crash`, and of the WAL only the durable records. */
  ghost predicate CrashesLosing(db: DB, booted: DB, images: seq<Image>, keep: nat -> bool) {
    Crashes(db.(wal := Pick(db.wal, keep)), booted, images)
  }

  /** What boot finds of a key is what the loaded entry reads, if verification keeps it. */
  lemma {:induction false} BootReads(d: Disk, img: Image, d': Disk, k: Key)
    requires DiskOk(d) && IsImage(d, img) && Booted(img, d') && Survives(img, k)
    ensures Holds(d', k) == if k in Loaded(img) then Some(ReadAt(d.engine.store.segs, Loaded(img)[k])) else None
  {
    BootedOk(d, img, d');
    BootedEntry(img, d', k, |d'.engine.log|);
    HoldsIsLoc(d', k);
    hide LocAt, Loaded, DiskOk, BootLog;
    if k in Loaded(img) {
      ReadStable(img.segs, d.engine.store.segs, Loaded(img)[k]);
    }
  }

  /** What boot finds of a key that verification does not drop is a past value of it. */
  lemma {:induction false} SurvivorIsPast(d: Disk, img: Image, d': Disk, log: seq<Command>, k: Key, x0: Option<Value>)
    requires DiskOk(d) && IsImage(d, img) && Booted(img, d') && History(d, log, k, x0) && Survives(img, k)
    ensures PastValue(log, k, x0, 0, Holds(d', k))
  {
    var j := LoadedIsPrefix(d, img);
    BootReads(d, img, d', k);
    assert ReadsAt(d, j, k) == Holds(d', k);
  }

  lemma {:induction false} DroppedIsAbsent(d: Disk, img: Image, d': Disk, k: Key)
    requires DiskOk(d) && IsImage(d, img) && Booted(img, d') && !Survives(img, k)
    ensures Holds(d', k) == None
  {
    BootedOk(d, img, d');
    assert k !in TableOf(d'.engine);
  }

  /** What the durable records that fit make of a key of which boot finds `x`. */
  function Recovered(wal: seq<Logged>, keep: nat -> bool, size: nat, k: Key, x: Option<Value>): Option<Value> {
    Effects(Fitting(Crash.Commands(Pick(wal, keep)), size), k, x)
  }

  /** Whether they leave it present: their last `set` or deletion is a `set`, or there is none and boot finds it. */
  predicate Present(wal: seq<Logged>, keep: nat -> bool, size: nat, k: Key, x: Option<Value>) {
    PresentAfter(Crash.Commands(Pick(wal, keep)), size, k, x)
  }

  /**
   * The value that comes back, by the last durable record about the key whose value fits. None:
   * what boot finds. A `set` or a deletion: what the key had right after it. A pattern set: its
   * value if the key is present by then, although it may not have been, and nothing otherwise.
   */
  lemma {:induction false} RecoveredValue(wal: seq<Logged>, keep: nat -> bool, size: nat, k: Key, x: Option<Value>, x0: Option<Value>)
    ensures var n, v := DurableUpTo(wal, Effective(wal, keep, size), k), Recovered(wal, keep, size, k, x);
            if n == 0 then v == x
            else if Overwrites(wal[n - 1].cmd, k) then v == Effects(Crash.Commands(wal)[..n], k, x0)
            else wal[n - 1].cmd.SetBy? && v == if Present(wal, keep, size, k, x) then Some(wal[n - 1].cmd.value) else None
  {
    hide *;
    var kept := Effective(wal, keep, size);
    RecoveredEffect(wal, keep, size, k, x);
    LastTouches(wal, kept, k);
    var n := DurableUpTo(wal, kept, k);
    if n > 0 {
      OverwriteFixes(wal[n - 1].cmd, k);
      LastRecordIsPast(wal, kept, k, x0);
      BeforeLast(wal, n, k, x0);
    }
  }

  lemma {:induction false} RecoveredEffect(wal: seq<Logged>, keep: nat -> bool, size: nat, k: Key, x: Option<Value>)
    ensures var n, v := DurableUpTo(wal, Effective(wal, keep, size), k), Recovered(wal, keep, size, k, x);
            && (n == 0 ==> v == x)
            && (n > 0 ==> exists y: Option<Value> {:trigger Effect(wal[n - 1].cmd, k, y)} :: v == Effect(wal[n - 1].cmd, k, y))
            && (v.Some? <==> Present(wal, keep, size, k, x))
  {
    PickFitting(wal, keep, size);
    PickEffects(wal, Effective(wal, keep, size), k, x);
    PresentIs(Crash.Commands(Pick(wal, keep)), size, k, x);
    hide Effects, PresentAfter, Fitting, Crash.Commands, Pick, Effect, Effective, DurableUpTo;
  }

  /** A set or deletion of the key leaves it the same whatever it was; a pattern set leaves it present or absent. */
  lemma OverwriteFixes(c: Command, k: Key)
    ensures Overwrites(c, k) ==> forall x, y :: Effect(c, k, x) == Effect(c, k, y)
    ensures Touches(c, k) && !Overwrites(c, k) ==>
              c.SetBy? && forall x :: Effect(c, k, x) == if x.Some? then Some(c.value) else None
  {
  }

  lemma BeforeLast(wal: seq<Logged>, n: nat, k: Key, x0: Option<Value>)
    requires 0 < n <= |wal|
    ensures var log := Crash.Commands(wal); |log| == |wal| && Effects(log[..n], k, x0) == Effect(wal[n - 1].cmd, k, Effects(log[..n - 1], k, x0))
  {
    var log := Crash.Commands(wal);
    assert log[..n] == log[..n - 1] + [wal[n - 1].cmd];
    OverwrittenAppend(log[..n - 1], wal[n - 1].cmd, k);
  }

  lemma {:induction false} LastTouches(wal: seq<Logged>, keep: nat -> bool, k: Key)
    ensures var n := DurableUpTo(wal, keep, k); n > 0 ==> keep(n - 1) && Touches(wal[n - 1].cmd, k)
  {
    if wal != [] && !(keep(|wal| - 1) && Touches(wal[|wal| - 1].cmd, k)) {
      LastTouches(wal[..|wal| - 1], keep, k);
    }
  }

  /**
   * When a key does not lose anything, by its last durable record that fits. Without one:
   * verification does not drop it, or it was absent at some moment since the flush. With a `set`
   * or a deletion: always. With a pattern set: it is present by then as it was when the command
   * was executed, or the command's value, or absence, was the key's again later.
   */
  ghost predicate NotLost(wal: seq<Logged>, keep: nat -> bool, size: nat, img: Image, k: Key, x0: Option<Value>) {
    var log, n := Crash.Commands(wal), DurableUpTo(wal, Effective(wal, keep, size), k);
    if n == 0 then Survives(img, k) || PastValue(log, k, x0, 0, None)
    else if Overwrites(wal[n - 1].cmd, k) then true
    else
      wal[n - 1].cmd.SetBy?
      && var present := Present(wal, keep, size, k, Found(img, k));
         present == Effects(log[..n - 1], k, x0).Some?
         || PastValue(log, k, x0, n, if present then Some(wal[n - 1].cmd.value) else None)
  }

  /**
   * After any crash of such a run, the key holds a value it had, not older than its last durable
   * record that fits, exactly when `NotLost`. So an acknowledged `set` that fits is never lost or undone; but a value flushed
   * long ago is lost when an unacknowledged overwrite got its index record to disk, and neither
   * its value bytes nor its WAL record; and a pattern set can bring back a key whose deletion was
   * lost, with a value it never had.
   */
  lemma {:induction false} LostTailExact(c: Config, steps: seq<Step>, states: seq<DB>, images: seq<Image>, booted: DB, keep: nat -> bool, k: Key)
    requires IsEpoch(c, steps, states) && CrashesLosing(states[|steps|], booted, images, keep)
    ensures c.shards == |booted.disks| == |images| > 0
    ensures var wal, size, x0 := states[|steps|].wal, booted.segSize, Lookup(states[0].live, k);
            var n, now := DurableUpTo(wal, Effective(wal, keep, size), k), Effects(Fitting(booted.pending, size), k, Answer(c, booted, k));
            PastValue(Crash.Commands(wal), k, x0, n, now) <==> NotLost(wal, keep, size, images[HomeOf(c, k)], k, x0)
  {
    var db, x0 := states[|steps|], Lookup(states[0].live, k);
    RunEpoch(c, steps, states, |steps|);
    hide *;
    CrashedHome(c, db, images, booted, keep, k, states[0].live);
    var i := HomeOf(c, k);
    BootFinds(db.disks[i], images[i], booted.disks[i], k);
    LostTailKey(db.disks[i], images[i], booted.disks[i], db.wal, keep, booted.segSize, k, x0);
  }

  /** The shard of the key, before and after the crash. */
  lemma CrashedHome(c: Config, db: DB, images: seq<Image>, booted: DB, keep: nat -> bool, k: Key, base: map<Key, Value>)
    requires EpochInv(c, db, base) && CrashesLosing(db, booted, images, keep)
    ensures c.shards == |booted.disks| == |images| == |db.disks| > 0 && booted.pending == Crash.Commands(Pick(db.wal, keep))
    ensures var i := HomeOf(c, k);
            && DiskOk(db.disks[i]) && IsImage(db.disks[i], images[i]) && Booted(images[i], booted.disks[i])
            && History(db.disks[i], Crash.Commands(db.wal), k, Lookup(base, k))
            && Answer(c, booted, k) == Holds(booted.disks[i], k)
            && Effects(Fitting(booted.pending, booted.segSize), k, Answer(c, booted, k))
               == Recovered(db.wal, keep, booted.segSize, k, Holds(booted.disks[i], k))
  {
    hide Rebuildable, DiskOk, IsImage, Booted, History, Crash.Commands, Effects, Fitting, Pick;
  }

  lemma {:induction false} LostTailKey(d: Disk, img: Image, d': Disk, wal: seq<Logged>, keep: nat -> bool, size: nat, k: Key, x0: Option<Value>)
    requires DiskOk(d) && IsImage(d, img) && Booted(img, d') && History(d, Crash.Commands(wal), k, x0) && Found(img, k) == Holds(d', k)
    ensures var log, n, v := Crash.Commands(wal), DurableUpTo(wal, Effective(wal, keep, size), k), Recovered(wal, keep, size, k, Holds(d', k));
            PastValue(log, k, x0, n, v) <==> NotLost(wal, keep, size, img, k, x0)
  {
    hide Survives, PastValue, Overwrites, Present, Found, Effects, Effective, DurableUpTo, Crash.Commands, Recovered,
         History, DiskOk, IsImage, Booted, Holds;
    var n, x := DurableUpTo(wal, Effective(wal, keep, size), k), Holds(d', k);
    RecoveredValue(wal, keep, size, k, x, x0);
    if n == 0 {
      UnrecordedIsPast(d, img, d', Crash.Commands(wal), k, x0);
    } else {
      LastRecordIsPast(wal, Effective(wal, keep, size), k, x0);
    }
  }

  lemma {:induction false} UnrecordedIsPast(d: Disk, img: Image, d': Disk, log: seq<Command>, k: Key, x0: Option<Value>)
    requires DiskOk(d) && IsImage(d, img) && Booted(img, d') && History(d, log, k, x0)
    ensures PastValue(log, k, x0, 0, Holds(d', k)) <==> Survives(img, k) || PastValue(log, k, x0, 0, None)
  {
    hide *;
    if Survives(img, k) {
      SurvivorIsPast(d, img, d', log, k, x0);
    } else {
      DroppedIsAbsent(d, img, d', k);
    }
  }

  /** What the key was right after a record about it. */
  lemma {:induction false} LastRecordIsPast(wal: seq<Logged>, keep: nat -> bool, k: Key, x0: Option<Value>)
    ensures var log, n := Crash.Commands(wal), DurableUpTo(wal, keep, k);
            |log| == |wal| && (n > 0 ==>
              var now := Effects(log[..n], k, x0);
              && PastValue(log, k, x0, n, now)
              && (Overwrites(wal[n - 1].cmd, k)
                  || (wal[n - 1].cmd.SetBy?
                      && now == if Effects(log[..n - 1], k, x0).Some? then Some(wal[n - 1].cmd.value) else None)))
  {
    var log, n := Crash.Commands(wal), DurableUpTo(wal, keep, k);
    LastTouches(wal, keep, k);
    if n > 0 {
      var c := wal[n - 1].cmd;
      assert log[..n] == log[..n - 1] + [c];
      OverwrittenAppend(log[..n - 1], c, k);
      AtLeastNow(log, k, x0, n);
    }
  }

  lemma AtLeastNow(log: seq<Command>, k: Key, x0: Option<Value>, n: nat)
    requires n <= |log|
    ensures PastValue(log, k, x0, n, Effects(log[..n], k, x0))
  {
  }

  /**
   * When all records about the key are durable and their values fit, the crash takes nothing from
   * it, unless they are pattern sets only and verification drops it.
   */
  lemma {:induction false} AcknowledgedSurvives(c: Config, steps: seq<Step>, states: seq<DB>, images: seq<Image>, booted: DB, keep: nat -> bool, k: Key)
    requires IsEpoch(c, steps, states) && CrashesLosing(states[|steps|], booted, images, keep)
    requires forall q :: 0 <= q < |states[|steps|].wal| && Touches(states[|steps|].wal[q].cmd, k) ==>
               keep(q) && Size(states[|steps|].wal[q].cmd) <= booted.segSize
    ensures c.shards == |booted.disks| == |images| > 0
    ensures var log := Crash.Commands(states[|steps|].wal);
            Effects(Fitting(booted.pending, booted.segSize), k, Answer(c, booted, k)) == Lookup(states[|steps|].live, k)
            <==> (!Overwritten(log, k) && Touched(log, k) ==> Survives(images[HomeOf(c, k)], k))
  {
    RunEpoch(c, steps, states, |steps|);
    hide IsEpoch, Rebuildable, DiskOk, IsImage, Booted, History, Effects, Fitting, Crash.Commands, Survives, Overwritten, Touched;
    var db := states[|steps|];
    var i := HomeOf(c, k);
    assert DiskOk(db.disks[i]) && IsImage(db.disks[i], images[i]) && Booted(images[i], booted.disks[i]);
    assert Rebuildable(db.disks[i], Crash.Commands(db.wal), k, Lookup(db.live, k));
    KeySurvives(db.disks[i], images[i], booted.disks[i], db.wal, keep, booted.segSize, k, Lookup(db.live, k));
  }

  lemma {:induction false} KeySurvives(d: Disk, img: Image, d': Disk, wal: seq<Logged>, keep: nat -> bool, size: nat, k: Key, v: Option<Value>)
    requires DiskOk(d) && IsImage(d, img) && Booted(img, d') && Rebuildable(d, Crash.Commands(wal), k, v)
    requires forall q :: 0 <= q < |wal| && Touches(wal[q].cmd, k) ==> keep(q) && Size(wal[q].cmd) <= size
    ensures var log := Crash.Commands(wal);
            Effects(Fitting(Crash.Commands(Pick(wal, keep)), size), k, Holds(d', k)) == v
            <==> (!Overwritten(log, k) && Touched(log, k) ==> Survives(img, k))
  {
    hide Rebuildable, DiskOk, IsImage, Booted, Effects, Fitting, Crash.Commands, Pick, Survives, Overwritten, Touched, Restorable, Found, Holds;
    var log := Crash.Commands(wal);
    PickFitting(wal, keep, size);
    PickAll(wal, Effective(wal, keep, size), k, Holds(d', k));
    var all := LargeEnough(log);
    FittingAll(log, all);
    RebuiltExactly(d, img, d', log, all, k, v);
    RestorableIffKept(d, img, log, all, k, v);
  }

  /** A size that all values have room in. */
  lemma {:induction false} LargeEnough(log: seq<Command>) returns (size: nat)
    ensures forall c :: c in log ==> Size(c) <= size
  {
    size := 0;
    if log != [] {
      var rest := LargeEnough(log[..|log| - 1]);
      size := Max(rest, Size(log[|log| - 1]));
      assert forall c :: c in log ==> c in log[..|log| - 1] || c == log[|log| - 1];
    }
  }

  lemma {:induction false} PickAll(wal: seq<Logged>, keep: nat -> bool, k: Key, x: Option<Value>)
    requires forall q :: 0 <= q < |wal| && Touches(wal[q].cmd, k) ==> keep(q)
    ensures Effects(Crash.Commands(Pick(wal, keep)), k, x) == Effects(Crash.Commands(wal), k, x)
  {
    if wal != [] {
      var front, last := wal[..|wal| - 1], wal[|wal| - 1];
      assert wal == front + [last];
      PickAll(front, keep, k, x);
      CommandsAppend(front, last);
      CommandsAppend(Pick(front, keep), last);
      OverwrittenAppend(Crash.Commands(Pick(front, keep)), last.cmd, k);
      OverwrittenAppend(Crash.Commands(front), last.cmd, k);
    }
  }

  // -------------------------------------------------- a second crash, before a flush

  /** Position of the tombstone that boot wrote for a key it dropped; the INDEX is synced only up to `logMark`. */
  ghost predicate DroppedAt(img: Image, d: Disk, k: Key, t: nat) {
    && d.logMark <= t < |d.engine.log| && k in Loaded(img)
    && d.engine.log[t] == Record(k, Loaded(img)[k], true)
    && forall i :: d.logMark <= i < t ==> d.engine.log[i].key != k
  }

  /** What happened since: appends, none about the key, and no sync of the INDEX. */
  ghost predicate UnsyncedSince(d: Disk, d': Disk, k: Key) {
    && d.engine.log <= d'.engine.log && d'.logMark == d.logMark
    && (forall r :: r in d'.engine.log[|d.engine.log|..] ==> r.key != k)
  }

  /** The table after `j` records of such a log: the dropped entry until its tombstone, and then never again. */
  lemma DanglingEntry(img: Image, d: Disk, d': Disk, k: Key, t: nat, j: nat)
    requires Booted(img, d) && DroppedAt(img, d, k, t) && UnsyncedSince(d, d', k) && d.logMark <= j <= |d'.engine.log|
    ensures Lookup(Replay(d'.engine.log[..j]), k) == if j <= t then Some(Loaded(img)[k]) else None
  {
    hide Booted, DroppedAt, UnsyncedSince, Replay, Loaded;
    if j <= t {
      EntryBefore(img, d, d', k, t, j);
    } else {
      EntryBehind(img, d, d', k, t, j);
    }
  }

  lemma {:induction false} EntryBefore(img: Image, d: Disk, d': Disk, k: Key, t: nat, j: nat)
    requires Booted(img, d) && DroppedAt(img, d, k, t) && UnsyncedSince(d, d', k) && d.logMark <= j <= t && j <= |d'.engine.log|
    ensures Lookup(Replay(d'.engine.log[..j]), k) == Some(Loaded(img)[k])
  {
    hide Loaded, Replay, Verified, Tombstones;
    var loaded, base, log := Loaded(img), d.engine.log[..d.logMark], d.engine.log;
    var order :| Enumerates(order, loaded.Keys) && base == Entries(loaded, order);
    CompactPreservesTable(loaded, order);
    var more := log[d.logMark..j];
    assert d'.engine.log[..j] == base + more;
    forall r | r in more
      ensures r.key != k
    {
      var i :| 0 <= i < |more| && more[i] == r;
      assert log[d.logMark + i] == r;
    }
    ReplayFrame(base, more, k);
  }

  lemma {:induction false} EntryBehind(img: Image, d: Disk, d': Disk, k: Key, t: nat, j: nat)
    requires Booted(img, d) && DroppedAt(img, d, k, t) && UnsyncedSince(d, d', k) && t < j <= |d'.engine.log|
    ensures k !in Replay(d'.engine.log[..j])
  {
    var log' := d'.engine.log;
    var front, gone, more := log'[..t], d.engine.log[t], log'[t + 1..j];
    assert gone == log'[t] && log'[..j] == (front + [gone]) + more;
    ReplayAppend(front, gone);
    RemovedBy(Replay(front), gone);
    forall r | r in more && r.key == k
      ensures r.tombstone
    {
      TombstoneOrOther(img, d, d', k, t, j, r);
    }
    hide Replay, Booted, Loaded;
    ReplayStaysAbsent(front + [gone], more, k);
  }

  lemma RemovedBy(t: Table, r: Record)
    requires r.tombstone
    ensures r.key !in ApplyRecord(t, r)
  {
  }

  lemma TombstoneOrOther(img: Image, d: Disk, d': Disk, k: Key, t: nat, j: nat, r: Record)
    requires Booted(img, d) && DroppedAt(img, d, k, t) && UnsyncedSince(d, d', k) && t < j <= |d'.engine.log|
    requires r in d'.engine.log[t + 1..j] && r.key == k
    ensures r.tombstone
  {
    hide Loaded, Replay, Verified, Compacted;
    var log, log' := d.engine.log, d'.engine.log;
    var i :| t + 1 <= i < j && log'[i] == r;
    if i < |log| {
      assert log[i] == r && log[d.logMark..][i - d.logMark] == r;
    }
  }

  /**
   * The tombstones of verification are not synced, the entries they stand for are. A key that boot
   * dropped, and nobody has written since, is there again after a second crash if and only if the
   * crash cuts the INDEX before its tombstone and other values have filled its range of bytes. It
   * then answers with those bytes.
   */
  lemma {:induction false} RevivedExactly(img: Image, d: Disk, d': Disk, img': Image, d2: Disk, k: Key, t: nat)
    requires Booted(img, d) && DroppedAt(img, d, k, t) && UnsyncedSince(d, d', k)
    requires DiskOk(d') && IsImage(d', img') && Booted(img', d2)
    ensures var j := Recoverable(d'.engine.log, |img'.index|); var loc := Loaded(img)[k];
            Holds(d2, k) == if j <= t && Contained(img'.segs, loc) then Some(ReadAt(img'.segs, loc)) else None
  {
    hide Recoverable, Replay, Booted, DiskOk, IsImage, Contained, ReadAt, Holds, Loaded;
    BootFinds(d', img', d2, k);
    var j := LoadedIsPrefix(d', img');
    assert d'.logMark == d.logMark;
    DanglingEntry(img, d, d', k, t, j);
  }
}
