/**
 * Durability over whole runs of the sharded database: commands, flushes, compactions, WAL clears
 * and crashes, with boot and replay. A key lives in one shard, its home.
 */
module Crash {
  import opened Base
  import opened Bytes
  import opened IndexLog
  import opened Storage
  import opened ShardEngine
  import opened Compaction
  import opened Durability
  import opened C = Commands
  import Tokenizer

  // ------------------------------------------------------------- whole runs

  /** The number of shards and the hash that assigns a home to every key. */
  datatype Config = Config(shards: nat, hash: Key -> nat)

  function HomeOf(c: Config, k: Key): nat
    requires c.shards > 0
  {
    c.hash(k) % c.shards
  }

  ghost predicate IsHome(c: Config, i: nat, k: Key)
    requires c.shards > 0
  {
    HomeOf(c, k) == i
  }

  /** A WAL record: the command, and the shard whose WAL it is in. */
  datatype Logged = Logged(cmd: Command, shard: nat)

  /**
   * The database: the shards, the WAL records of all shards in sequence order, the map that
   * clients were told about, the records boot has not replayed yet (none when it serves), and
   * the segment size in force.
   */
  datatype DB = DB(disks: seq<Disk>, wal: seq<Logged>, live: map<Key, Value>, pending: seq<Command>, segSize: U64)

  function Commands(wal: seq<Logged>): seq<Command> {
    seq(|wal|, i requires 0 <= i < |wal| => wal[i].cmd)
  }

  /** The records left when the WALs of some shards are cleared. */
  function Uncleared(wal: seq<Logged>, cleared: set<nat>): seq<Logged> {
    if wal == [] then []
    else
      var front := Uncleared(wal[..|wal| - 1], cleared);
      if wal[|wal| - 1].shard in cleared then front else front + [wal[|wal| - 1]]
  }

  /** What the whole database answers for a key. */
  function Answer(c: Config, db: DB, k: Key): Option<Value>
    requires c.shards == |db.disks| > 0
  {
    Holds(db.disks[HomeOf(c, k)], k)
  }

  /** The words behind `setby` and `delby`: `re`, `sw`, `ct` and `ew`, in any case. */
  predicate IsMode(word: string) {
    Tokenizer.Lower(word) in {"re", "sw", "ct", "ew"}
  }

  /** A `set` or `del` is logged in its key's own shard, a pattern command where its mode word would live as a key. */
  ghost predicate LoggedAt(c: Config, cmd: Command, s: nat)
    requires c.shards > 0
  {
    && Unlimited(cmd) && s < c.shards
    && (if cmd.Set? || cmd.Del? then s == HomeOf(c, cmd.key) else exists mode :: IsMode(mode) && s == HomeOf(c, mode))
  }

  /** Where a command is logged, by the words of its line: the second one decides, taken as a key. */
  lemma LoggedWhere(c: Config, cmd: Command, s: nat)
    requires c.shards > 0 && Unlimited(cmd)
    ensures (cmd.Set? || cmd.Del?) ==> (LoggedAt(c, cmd, s) <==> s == c.hash(cmd.key) % c.shards)
    ensures (cmd.SetBy? || cmd.DelBy?) ==>
              (LoggedAt(c, cmd, s)
               <==> exists mode, low ::
                      && low in ["re", "sw", "ct", "ew"] && Tokenizer.SameButCase(mode, low)
                      && s == c.hash(mode) % c.shards)
  {
    hide IsMode, Tokenizer.SameButCase;
    if cmd.SetBy? || cmd.DelBy? {
      if mode :| IsMode(mode) && s == HomeOf(c, mode) {
        ModeIs(mode);
      }
      if mode, low :| low in ["re", "sw", "ct", "ew"] && Tokenizer.SameButCase(mode, low) && s == c.hash(mode) % c.shards {
        ModeIs(mode);
        assert IsMode(mode) && s == HomeOf(c, mode);
      }
    }
  }

  lemma ModeIs(word: string)
    ensures IsMode(word) <==> exists low :: low in ["re", "sw", "ct", "ew"] && Tokenizer.SameButCase(word, low)
  {
    Tokenizer.LowerIs(word, "re");
    Tokenizer.LowerIs(word, "sw");
    Tokenizer.LowerIs(word, "ct");
    Tokenizer.LowerIs(word, "ew");
    hide Tokenizer.SameButCase, Tokenizer.Lower;
  }

  ghost predicate SingleKey(wal: seq<Logged>) {
    forall l :: l in wal ==> l.cmd.Set? || l.cmd.Del?
  }

  datatype Step =
    | Execute(cmd: Command, shard: nat)      // a client command, applied and logged
    | ReplayNext                             // boot replays its next record
    | FlushData(i: nat)                      // one shard's files are synced
    | CompactShard(i: nat, order: seq<Key>, segSize: U64)
    | ClearShard(s: nat)                     // one WAL file is emptied
    | ClearAll                               // all of them, with no crash in between
    | Configure(segSize: U64)                // SegSize is changed while the database serves
    | CrashAndBoot(images: seq<Image>, segSize: U64)  // SegSize may be changed while it is down

  ghost predicate AllWrite(c: Config, disks: seq<Disk>, disks': seq<Disk>, cmd: Command)
    requires c.shards == |disks| > 0
  {
    && |disks'| == |disks|
    && forall i :: 0 <= i < |disks| ==> Writes(disks[i], disks'[i], cmd, k => IsHome(c, i, k))
  }

  ghost predicate AllRefuse(disks: seq<Disk>, disks': seq<Disk>) {
    |disks'| == |disks| && forall i :: 0 <= i < |disks| ==> Refuses(disks[i], disks'[i])
  }

  ghost predicate AllSynced(db: DB) {
    forall i :: 0 <= i < |db.disks| ==> Synced(db.disks[i])
  }

  /** No key is dropped at boot that the log changes by pattern sets only. */
  ghost predicate NothingDropped(c: Config, db: DB, images: seq<Image>)
    requires c.shards == |db.disks| == |images| > 0
  {
    forall k :: !Overwritten(Commands(db.wal), k) && Touched(Commands(db.wal), k) ==> Survives(images[HomeOf(c, k)], k)
  }

  /** Every key can be restored from the log and what the files say, with segments of the given size. */
  ghost predicate AllRestorable(c: Config, db: DB, images: seq<Image>, segSize: U64)
    requires c.shards == |db.disks| == |images| > 0
  {
    forall k :: Restorable(Commands(db.wal), segSize, k, Found(images[HomeOf(c, k)], k), Lookup(db.live, k))
  }

  ghost predicate Crashes(db: DB, db': DB, images: seq<Image>) {
    && |images| == |db.disks| == |db'.disks|
    && (forall i :: 0 <= i < |images| ==>
         DiskOk(db.disks[i]) && IsImage(db.disks[i], images[i]) && Booted(images[i], db'.disks[i]))
    && db'.wal == db.wal && db'.live == db.live && db'.pending == Commands(db.wal)
  }

  ghost predicate Next(c: Config, db: DB, step: Step, db': DB)
    requires c.shards == |db.disks| > 0
  {
    match step
    case Execute(cmd, s) =>
      && db.pending == [] && LoggedAt(c, cmd, s) && Size(cmd) <= db.segSize
      && AllWrite(c, db.disks, db'.disks, cmd)
      && db' == DB(db'.disks, db.wal + [Logged(cmd, s)], Apply(cmd, db.live), [], db.segSize)
    case ReplayNext =>
      && db.pending != []
      && (if Size(db.pending[0]) <= db.segSize then AllWrite(c, db.disks, db'.disks, db.pending[0])
          else AllRefuse(db.disks, db'.disks))
      && db' == db.(disks := db'.disks, pending := db.pending[1..])
    case FlushData(i) =>
      i < |db.disks| && db' == db.(disks := db.disks[i := FlushDisk(db.disks[i])])
    case CompactShard(i, order, segSize) =>
      && i < |db.disks| && Enumerates(order, TableOf(db.disks[i].engine).Keys)
      && LogFits(CompactDisk(db.disks[i], order, segSize).engine.log)
      && db' == db.(disks := db.disks[i := CompactDisk(db.disks[i], order, segSize)])
    case ClearShard(s) =>
      && db.pending == [] && AllSynced(db) && SingleKey(db.wal)
      && db' == db.(wal := Uncleared(db.wal, {s}))
    case ClearAll =>
      db.pending == [] && AllSynced(db) && db' == db.(wal := [])
    case Configure(segSize) => db.pending == [] && db' == db.(segSize := segSize)
    case CrashAndBoot(images, segSize) =>
      Crashes(db, db', images) && db'.segSize == segSize && AllRestorable(c, db, images, segSize)
  }

  ghost predicate Inv(c: Config, db: DB) {
    && c.shards == |db.disks| > 0
    && (forall i :: 0 <= i < |db.disks| ==> DiskOk(db.disks[i]))
    && (forall i :: 0 <= i < |db.wal| ==> LoggedAt(c, db.wal[i].cmd, db.wal[i].shard))
    && (forall cmd :: cmd in db.pending ==> cmd in Commands(db.wal))
    && (forall k :: Rebuildable(db.disks[HomeOf(c, k)], Commands(db.wal), k, Lookup(db.live, k)))
    && (forall k :: Effects(Fitting(db.pending, db.segSize), k, Answer(c, db, k)) == Lookup(db.live, k))
  }

  lemma CommandsAppend(wal: seq<Logged>, l: Logged)
    ensures Commands(wal + [l]) == Commands(wal) + [l.cmd]
  {
  }

  lemma ExecuteInv(c: Config, db: DB, cmd: Command, s: nat, db': DB)
    requires Inv(c, db) && Next(c, db, Execute(cmd, s), db')
    ensures Inv(c, db')
  {
    ExecuteFiles(c, db, cmd, s, db');
    hide Rebuildable, Effects, Fitting, DiskOk, Apply, Next, LoggedAt, Commands;
    forall k
      ensures Rebuildable(db'.disks[HomeOf(c, k)], Commands(db'.wal), k, Lookup(db'.live, k))
      ensures Effects(Fitting(db'.pending, db'.segSize), k, Answer(c, db', k)) == Lookup(db'.live, k)
    {
      ExecuteKey(c, db, cmd, s, db', k);
    }
  }

  lemma ExecuteFiles(c: Config, db: DB, cmd: Command, s: nat, db': DB)
    requires Inv(c, db) && Next(c, db, Execute(cmd, s), db')
    ensures c.shards == |db'.disks| > 0 && db'.pending == []
    ensures forall i :: 0 <= i < |db'.disks| ==> DiskOk(db'.disks[i])
    ensures forall i :: 0 <= i < |db'.wal| ==> LoggedAt(c, db'.wal[i].cmd, db'.wal[i].shard)
  {
    hide Rebuildable, Effects, Fitting, Apply, LoggedAt, Commands;
    forall i | 0 <= i < |db'.disks|
      ensures DiskOk(db'.disks[i])
    {
      assert Writes(db.disks[i], db'.disks[i], cmd, k => IsHome(c, i, k));
    }
  }

  lemma {:induction false} ExecuteKey(c: Config, db: DB, cmd: Command, s: nat, db': DB, k: Key)
    requires Inv(c, db) && Next(c, db, Execute(cmd, s), db')
    ensures c.shards == |db'.disks| > 0
    ensures Rebuildable(db'.disks[HomeOf(c, k)], Commands(db'.wal), k, Lookup(db'.live, k))
    ensures Effects(Fitting(db'.pending, db'.segSize), k, Answer(c, db', k)) == Lookup(db'.live, k)
  {
    var i := HomeOf(c, k);
    var home := x => IsHome(c, i, x);
    assert Writes(db.disks[i], db'.disks[i], cmd, home) && home(k);
    assert Fitting([], db.segSize) == [] && forall x :: Effects([], k, x) == x;
    CommandsAppend(db.wal, Logged(cmd, s));
    hide Rebuildable, Effects, Fitting, DiskOk, Apply, Commands;
    ApplyPerKey(cmd, db.live, k);
    LoggedWrite(db.disks[i], db'.disks[i], cmd, home, Commands(db.wal), k, Lookup(db.live, k));
  }

  lemma ReplayInv(c: Config, db: DB, db': DB)
    requires Inv(c, db) && Next(c, db, ReplayNext, db')
    ensures Inv(c, db')
  {
    var cmd := db.pending[0];
    var fits := Size(cmd) <= db.segSize;
    FittingFirst(db.pending, db.segSize);
    forall k
      ensures Rebuildable(db'.disks[HomeOf(c, k)], Commands(db'.wal), k, Lookup(db'.live, k))
      ensures Effects(Fitting(db'.pending, db'.segSize), k, Answer(c, db', k)) == Lookup(db'.live, k)
    {
      var i := HomeOf(c, k);
      if fits {
        var home := x => IsHome(c, i, x);
        assert Writes(db.disks[i], db'.disks[i], cmd, home) && home(k);
        ReplayedWrite(db.disks[i], db'.disks[i], cmd, home, Commands(db.wal), k, Lookup(db.live, k));
        EffectsConcat([cmd], Fitting(db'.pending, db.segSize), k, Answer(c, db, k));
        assert [cmd][..0] == [];
      } else {
        assert Refuses(db.disks[i], db'.disks[i]);
        assert [] + Fitting(db'.pending, db.segSize) == Fitting(db'.pending, db.segSize);
        RefusedKeeps(db.disks[i], db'.disks[i], Commands(db.wal), k, Lookup(db.live, k));
      }
    }
  }

  lemma {:induction false} FittingFirst(log: seq<Command>, size: nat)
    requires log != []
    ensures Fitting(log, size) == (if Size(log[0]) <= size then [log[0]] else []) + Fitting(log[1..], size)
  {
    var front, last := log[..|log| - 1], log[|log| - 1];
    if front != [] {
      FittingFirst(front, size);
      assert log[1..][..|log| - 2] == front[1..];
    } else {
      assert log[1..] == [];
    }
  }

  /** A step that changes one shard's files but no answer. */
  lemma OneDiskInv(c: Config, db: DB, i: nat, d': Disk)
    requires Inv(c, db) && i < |db.disks| && DiskOk(d')
    requires forall k :: HomeOf(c, k) == i ==>
               Rebuildable(d', Commands(db.wal), k, Lookup(db.live, k)) && Holds(d', k) == Holds(db.disks[i], k)
    ensures Inv(c, db.(disks := db.disks[i := d']))
  {
    var db' := db.(disks := db.disks[i := d']);
    forall k
      ensures Rebuildable(db'.disks[HomeOf(c, k)], Commands(db'.wal), k, Lookup(db'.live, k))
      ensures Effects(Fitting(db'.pending, db'.segSize), k, Answer(c, db', k)) == Lookup(db'.live, k)
    {
      assert Answer(c, db', k) == Answer(c, db, k);
    }
  }

  lemma FlushInv(c: Config, db: DB, i: nat)
    requires Inv(c, db) && i < |db.disks|
    ensures Inv(c, db.(disks := db.disks[i := FlushDisk(db.disks[i])]))
  {
    var d := db.disks[i];
    forall k | HomeOf(c, k) == i
      ensures Rebuildable(FlushDisk(d), Commands(db.wal), k, Lookup(db.live, k))
    {
      FlushKeeps(d, Commands(db.wal), k, Lookup(db.live, k));
    }
    OneDiskInv(c, db, i, FlushDisk(d));
  }

  lemma {:induction false} CompactInv(c: Config, db: DB, i: nat, order: seq<Key>, segSize: U64, db': DB)
    requires Inv(c, db) && Next(c, db, CompactShard(i, order, segSize), db')
    ensures Inv(c, db')
  {
    var d := db.disks[i];
    var d' := CompactDisk(d, order, segSize);
    CompactedTable(d, order, segSize);
    hide Compact, CompactPass, Rebuildable, CompactDisk;
    CompactMarks(d, order, segSize);
    forall k | HomeOf(c, k) == i
      ensures Rebuildable(d', Commands(db.wal), k, Lookup(db.live, k)) && Holds(d', k) == Holds(d, k)
    {
      CompactKeeps(d, order, segSize, Commands(db.wal), k, Lookup(db.live, k));
    }
    OneDiskInv(c, db, i, d');
  }

  lemma CompactMarks(d: Disk, order: seq<Key>, segSize: U64)
    requires DiskOk(d) && Enumerates(order, TableOf(d.engine).Keys)
    requires LogFits(CompactDisk(d, order, segSize).engine.log)
    ensures DiskOk(CompactDisk(d, order, segSize))
  {
    CompactedTable(d, order, segSize);
    CompactGrows(d.engine, order, segSize);
  }

  /** Once everything is synced, a key that the remaining log does not touch is rebuilt from the files. */
  lemma SyncedUntouched(d: Disk, log: seq<Command>, k: Key)
    requires DiskOk(d) && Synced(d) && !Overwritten(log, k) && !Touched(log, k)
    ensures Rebuildable(d, log, k, Holds(d, k))
  {
    Now(d, log, k, Holds(d, k));
    if k in TableOf(d.engine) {
      assert Contained(d.engine.store.segs, TableOf(d.engine)[k]);
    }
  }

  /** Clearing one WAL takes away all records about a key, or none. */
  lemma {:induction false} UnclearedKey(c: Config, wal: seq<Logged>, s: nat, k: Key)
    requires c.shards > 0 && SingleKey(wal)
    requires forall i :: 0 <= i < |wal| ==> LoggedAt(c, wal[i].cmd, wal[i].shard)
    ensures var wal' := Uncleared(wal, {s});
            && SingleKey(wal')
            && (forall i :: 0 <= i < |wal'| ==> LoggedAt(c, wal'[i].cmd, wal'[i].shard))
            && (HomeOf(c, k) == s ==> !Touched(Commands(wal'), k))
            && (HomeOf(c, k) != s ==>
                 && Effects(Commands(wal'), k, None) == Effects(Commands(wal), k, None)
                 && (Overwritten(Commands(wal'), k) <==> Overwritten(Commands(wal), k)))
  {
    if wal != [] {
      var front, last := wal[..|wal| - 1], wal[|wal| - 1];
      UnclearedKey(c, front, s, k);
      assert wal == front + [last];
      CommandsAppend(front, last);
      OverwrittenAppend(Commands(front), last.cmd, k);
      var front' := Uncleared(front, {s});
      if last.shard != s {
        CommandsAppend(front', last);
        OverwrittenAppend(Commands(front'), last.cmd, k);
        assert LoggedAt(c, last.cmd, last.shard);
      }
    }
  }

  /** A log of `set`s and `del`s that does not overwrite a key does not touch it. */
  lemma SingleKeyTouch(wal: seq<Logged>, k: Key)
    requires SingleKey(wal) && Touched(Commands(wal), k)
    ensures Overwritten(Commands(wal), k)
  {
    var cmd :| cmd in Commands(wal) && Touches(cmd, k);
    var i :| 0 <= i < |wal| && wal[i].cmd == cmd;
    assert wal[i] in wal;
  }

  lemma ClearShardInv(c: Config, db: DB, s: nat)
    requires Inv(c, db) && db.pending == [] && AllSynced(db) && SingleKey(db.wal)
    ensures Inv(c, db.(wal := Uncleared(db.wal, {s})))
  {
    var db' := db.(wal := Uncleared(db.wal, {s}));
    UnclearedKey(c, db.wal, s, "");
    forall k
      ensures Rebuildable(db'.disks[HomeOf(c, k)], Commands(db'.wal), k, Lookup(db'.live, k))
    {
      var d := db.disks[HomeOf(c, k)];
      assert Effects(Fitting([], db.segSize), k, Answer(c, db, k)) == Lookup(db.live, k);
      UnclearedKey(c, db.wal, s, k);
      if Touched(Commands(db'.wal), k) {
        SingleKeyTouch(db'.wal, k);
      } else {
        NotTouched(Commands(db'.wal), k);
        SyncedUntouched(d, Commands(db'.wal), k);
      }
    }
  }

  lemma NotTouched(log: seq<Command>, k: Key)
    requires !Touched(log, k)
    ensures !Overwritten(log, k)
  {
  }

  lemma ClearAllInv(c: Config, db: DB)
    requires Inv(c, db) && db.pending == [] && AllSynced(db)
    ensures Inv(c, db.(wal := []))
  {
    forall k
      ensures Rebuildable(db.disks[HomeOf(c, k)], Commands([]), k, Lookup(db.live, k))
    {
      assert Effects(Fitting([], db.segSize), k, Answer(c, db, k)) == Lookup(db.live, k);
      SyncedUntouched(db.disks[HomeOf(c, k)], Commands([]), k);
    }
  }

  lemma CrashInv(c: Config, db: DB, images: seq<Image>, segSize: U64, db': DB)
    requires Inv(c, db) && Next(c, db, CrashAndBoot(images, segSize), db')
    ensures Inv(c, db')
  {
    forall i | 0 <= i < |db'.disks|
      ensures DiskOk(db'.disks[i])
    {
      BootedOk(db.disks[i], images[i], db'.disks[i]);
    }
    forall k
      ensures Rebuildable(db'.disks[HomeOf(c, k)], Commands(db'.wal), k, Lookup(db'.live, k))
      ensures Effects(Fitting(db'.pending, db'.segSize), k, Answer(c, db', k)) == Lookup(db'.live, k)
    {
      var i := HomeOf(c, k);
      assert DiskOk(db.disks[i]) && Booted(images[i], db'.disks[i]);
      var log, v := Commands(db.wal), Lookup(db.live, k);
      RestorableIffKept(db.disks[i], images[i], log, segSize, k, v);
      BootKeeps(db.disks[i], images[i], db'.disks[i], log, k, v);
      RebuiltExactly(db.disks[i], images[i], db'.disks[i], log, segSize, k, v);
    }
  }

  lemma {:induction false} NextInv(c: Config, db: DB, step: Step, db': DB)
    requires Inv(c, db) && Next(c, db, step, db')
    ensures Inv(c, db')
  {
    match step
    case Execute(cmd, s) => ExecuteInv(c, db, cmd, s, db');
    case ReplayNext => ReplayInv(c, db, db');
    case FlushData(i) => FlushInv(c, db, i);
    case CompactShard(i, order, segSize) => CompactInv(c, db, i, order, segSize, db');
    case ClearShard(s) => ClearShardInv(c, db, s);
    case ClearAll => ClearAllInv(c, db);
    case Configure(_) =>
    case CrashAndBoot(images, segSize) => CrashInv(c, db, images, segSize, db');
  }

  /** A fresh database: one empty segment per shard, nothing logged. */
  function Fresh(c: Config, segSize: U64): DB {
    var d := Disk(Engine([], Store(map[1 := ""], 1)), 0, map[1 := 0]);
    DB(seq(c.shards, _ => d), [], map[], [], segSize)
  }

  lemma FreshInv(c: Config, segSize: U64)
    requires c.shards > 0
    ensures Inv(c, Fresh(c, segSize))
  {
    forall k
      ensures Rebuildable(Fresh(c, segSize).disks[HomeOf(c, k)], Commands([]), k, None)
      ensures Effects(Fitting([], segSize), k, Answer(c, Fresh(c, segSize), k)) == None
    {
      SyncedUntouched(Fresh(c, segSize).disks[HomeOf(c, k)], Commands([]), k);
    }
  }

  ghost predicate IsRun(c: Config, steps: seq<Step>, states: seq<DB>)
    requires c.shards > 0
  {
    && |states| == |steps| + 1 && states[0] == Fresh(c, states[0].segSize)
    && forall i :: 0 <= i < |steps| ==> c.shards == |states[i].disks| && Next(c, states[i], steps[i], states[i + 1])
  }

  lemma {:induction false} RunInv(c: Config, steps: seq<Step>, states: seq<DB>, n: nat)
    requires c.shards > 0 && IsRun(c, steps, states) && n <= |steps|
    ensures Inv(c, states[n])
  {
    if n == 0 {
      FreshInv(c, states[0].segSize);
    } else {
      RunInv(c, steps, states, n - 1);
      NextInv(c, states[n - 1], steps[n - 1], states[n]);
    }
  }

  /**
   * Over every run of commands, flushes, compactions, WAL clears and crashes, a crash during a
   * recovery included, the database answers every key as the live map does whenever no replay is
   * pending.
   */
  lemma {:induction false} RecoveryRebuildsLiveMap(c: Config, steps: seq<Step>, states: seq<DB>, n: nat, k: Key)
    requires c.shards > 0 && IsRun(c, steps, states) && n <= |steps| && states[n].pending == []
    ensures c.shards == |states[n].disks| && Answer(c, states[n], k) == Lookup(states[n].live, k)
  {
    RunInv(c, steps, states, n);
    assert Effects(Fitting([], states[n].segSize), k, Answer(c, states[n], k)) == Lookup(states[n].live, k);
  }

  /** The step that decides the segment size in force. */
  predicate ConfiguresSize(step: Step) {
    step.Configure? || step.CrashAndBoot?
  }

  /** Commands run with the segment size of the last configuration or boot. */
  lemma {:induction false} SegSizeIsLast(c: Config, steps: seq<Step>, states: seq<DB>, i: nat, n: nat)
    requires c.shards > 0 && IsRun(c, steps, states) && i < n <= |steps|
    requires ConfiguresSize(steps[i]) && forall j :: i < j < n ==> !ConfiguresSize(steps[j])
    ensures states[n].segSize == steps[i].segSize
    decreases n
  {
    assert Next(c, states[n - 1], steps[n - 1], states[n]);
    if n > i + 1 {
      SegSizeIsLast(c, steps, states, i, n - 1);
    }
    hide AllWrite, AllRefuse, Crashes, AllRestorable, AllSynced, CompactDisk, LogFits, LoggedAt;
  }

  /** What the pending records will make of a key, as the files are now. */
  ghost function Outcome(c: Config, db: DB, k: Key): Option<Value>
    requires c.shards == |db.disks| > 0
  {
    Effects(Fitting(db.pending, db.segSize), k, Answer(c, db, k))
  }

  /** One crash: what is restorable is restored. */
  lemma {:induction false} CrashOutcome(c: Config, db: DB, images: seq<Image>, booted: DB)
    requires Inv(c, db) && Crashes(db, booted, images)
    ensures c.shards == |booted.disks| == |images| == |db.disks|
    ensures (forall k :: Outcome(c, booted, k) == Lookup(db.live, k)) <==> AllRestorable(c, db, images, booted.segSize)
  {
    forall k
      ensures Outcome(c, booted, k) == Lookup(db.live, k)
         <==> Restorable(Commands(db.wal), booted.segSize, k, Found(images[HomeOf(c, k)], k), Lookup(db.live, k))
    {
      var i := HomeOf(c, k);
      assert DiskOk(db.disks[i]) && Booted(images[i], booted.disks[i]);
      RebuiltExactly(db.disks[i], images[i], booted.disks[i], Commands(db.wal), booted.segSize, k, Lookup(db.live, k));
    }
  }

  /** When all logged values still fit, keys are restorable unless they are dropped. */
  lemma {:induction false} FittingRestorable(c: Config, db: DB, images: seq<Image>, booted: DB)
    requires Inv(c, db) && Crashes(db, booted, images)
    requires forall cmd :: cmd in Commands(db.wal) ==> Size(cmd) <= booted.segSize
    ensures |images| == c.shards
    ensures AllRestorable(c, db, images, booted.segSize) <==> NothingDropped(c, db, images)
  {
    forall k
      ensures Restorable(Commands(db.wal), booted.segSize, k, Found(images[HomeOf(c, k)], k), Lookup(db.live, k))
         <==> (!Overwritten(Commands(db.wal), k) && Touched(Commands(db.wal), k) ==> Survives(images[HomeOf(c, k)], k))
    {
      var i := HomeOf(c, k);
      assert DiskOk(db.disks[i]) && Booted(images[i], booted.disks[i]);
      RestorableIffKept(db.disks[i], images[i], Commands(db.wal), booted.segSize, k, Lookup(db.live, k));
    }
  }

  /**
   * At any point of a run, for any crash and any segment size afterwards: replaying the WAL on what
   * boot finds gives back the live map if and only if every key is restorable from the log, the
   * sizes of its values and what the files say.
   */
  lemma CrashRecoversExactly(c: Config, steps: seq<Step>, states: seq<DB>, n: nat, images: seq<Image>, booted: DB)
    requires c.shards > 0 && IsRun(c, steps, states) && n <= |steps|
    requires Crashes(states[n], booted, images)
    ensures c.shards == |booted.disks| == |images| == |states[n].disks|
    ensures (forall k :: Effects(Fitting(booted.pending, booted.segSize), k, Answer(c, booted, k)) == Lookup(booted.live, k))
       <==> AllRestorable(c, states[n], images, booted.segSize)
  {
    RunInv(c, steps, states, n);
    hide IsRun, Inv, AllRestorable, Effects, Fitting, Answer;
    CrashOutcome(c, states[n], images, booted);
    assert forall k :: Outcome(c, booted, k) == Effects(Fitting(booted.pending, booted.segSize), k, Answer(c, booted, k));
    assert booted.live == states[n].live;
  }

  /**
   * When all logged values still fit, that is if and only if verification drops no key that the
   * WAL changes by pattern sets only.
   */
  lemma FittingCrashExactly(c: Config, steps: seq<Step>, states: seq<DB>, n: nat, images: seq<Image>, booted: DB)
    requires c.shards > 0 && IsRun(c, steps, states) && n <= |steps|
    requires Crashes(states[n], booted, images)
    requires forall cmd :: cmd in Commands(states[n].wal) ==> Size(cmd) <= booted.segSize
    ensures c.shards == |booted.disks| == |images| == |states[n].disks|
    ensures (forall k :: Effects(booted.pending, k, Answer(c, booted, k)) == Lookup(booted.live, k))
       <==> NothingDropped(c, states[n], images)
  {
    RunInv(c, steps, states, n);
    FittingAll(booted.pending, booted.segSize);
    hide IsRun, Inv, AllRestorable, NothingDropped, Effects, Answer;
    CrashRecoversExactly(c, steps, states, n, images, booted);
    FittingRestorable(c, states[n], images, booted);
  }

  // ------------------------------------------------------- complete recoveries

  ghost predicate DisksOk(c: Config, db: DB) {
    c.shards == |db.disks| > 0 && forall i :: 0 <= i < |db.disks| ==> DiskOk(db.disks[i])
  }

  ghost predicate RecoveryStep(step: Step) {
    step.ReplayNext? || step.FlushData? || step.CompactShard?
  }

  /** From boot until the last record is replayed, with flushes and compactions in between. */
  ghost predicate IsRecovery(c: Config, steps: seq<Step>, states: seq<DB>) {
    && |states| == |steps| + 1 && states[|steps|].pending == []
    && forall i :: 0 <= i < |steps| ==>
         c.shards == |states[i].disks| > 0 && RecoveryStep(steps[i]) && Next(c, states[i], steps[i], states[i + 1])
  }

  lemma {:induction false} RecoveryKeeps(c: Config, db: DB, step: Step, db': DB)
    requires DisksOk(c, db) && RecoveryStep(step) && Next(c, db, step, db')
    ensures DisksOk(c, db') && forall k :: Outcome(c, db', k) == Outcome(c, db, k)
  {
    match step
    case ReplayNext => ReplayKeeps(c, db, db');
    case FlushData(i) =>
      forall k
        ensures Answer(c, db', k) == Answer(c, db, k)
      {
      }
    case CompactShard(i, order, segSize) =>
      CompactedTable(db.disks[i], order, segSize);
      CompactMarks(db.disks[i], order, segSize);
      hide CompactDisk, DiskOk;
      forall k
        ensures Answer(c, db', k) == Answer(c, db, k)
      {
      }
  }

  lemma {:induction false} ReplayKeeps(c: Config, db: DB, db': DB)
    requires DisksOk(c, db) && Next(c, db, ReplayNext, db')
    ensures DisksOk(c, db') && forall k :: Outcome(c, db', k) == Outcome(c, db, k)
  {
    var cmd := db.pending[0];
    FittingFirst(db.pending, db.segSize);
    assert DisksOk(c, db') by {
      forall i | 0 <= i < |db.disks|
        ensures DiskOk(db'.disks[i])
      {
        assert Writes(db.disks[i], db'.disks[i], cmd, k => IsHome(c, i, k)) || Refuses(db.disks[i], db'.disks[i]);
      }
    }
    forall k
      ensures Outcome(c, db', k) == Outcome(c, db, k)
    {
      var i := HomeOf(c, k);
      if Size(cmd) <= db.segSize {
        var home := x => IsHome(c, i, x);
        assert Writes(db.disks[i], db'.disks[i], cmd, home) && home(k);
        EffectsConcat([cmd], Fitting(db'.pending, db.segSize), k, Answer(c, db, k));
        assert [cmd][..0] == [];
      } else {
        var e, e' := db.disks[i].engine, db'.disks[i].engine;
        assert Refuses(db.disks[i], db'.disks[i]);
        ViewStable(TableOf(e), e.store.segs, e'.store.segs);
        assert [] + Fitting(db'.pending, db.segSize) == Fitting(db'.pending, db.segSize);
      }
    }
  }

  /** At the end of a recovery every key is what the records were to make of it at boot. */
  lemma {:induction false} RecoveryOutcome(c: Config, steps: seq<Step>, states: seq<DB>, n: nat)
    requires IsRecovery(c, steps, states) && DisksOk(c, states[0]) && n <= |steps|
    ensures DisksOk(c, states[n]) && states[n].live == states[0].live
    ensures forall k :: Outcome(c, states[n], k) == Outcome(c, states[0], k)
  {
    if n > 0 {
      RecoveryOutcome(c, steps, states, n - 1);
      hide DisksOk, Outcome;
      RecoveryKeeps(c, states[n - 1], steps[n - 1], states[n]);
    }
  }

  /**
   * The same on complete recoveries: once boot has replayed the last record, with whatever flushes
   * and compactions in between, the database answers as the live map if and only if every key is
   * restorable.
   */
  lemma {:induction false} RecoveryExact(c: Config, steps: seq<Step>, states: seq<DB>, n: nat, images: seq<Image>,
                                         replay: seq<Step>, booted: seq<DB>)
    requires c.shards > 0 && IsRun(c, steps, states) && n <= |steps|
    requires IsRecovery(c, replay, booted) && Crashes(states[n], booted[0], images)
    ensures c.shards == |booted[|replay|].disks| == |images| == |states[n].disks|
    ensures (forall k :: Answer(c, booted[|replay|], k) == Lookup(states[n].live, k))
       <==> AllRestorable(c, states[n], images, booted[0].segSize)
  {
    var db, first, last := states[n], booted[0], booted[|replay|];
    RunInv(c, steps, states, n);
    hide *;
    InvDisks(c, db);
    CrashOutcome(c, db, images, first);
    CrashBoots(c, db, first, images);
    RecoveryOutcome(c, replay, booted, |replay|);
    RecoveryEnds(c, replay, booted);
  }

  lemma RecoveryEnds(c: Config, steps: seq<Step>, states: seq<DB>)
    requires IsRecovery(c, steps, states) && DisksOk(c, states[|steps|])
    ensures c.shards == |states[|steps|].disks| > 0
    ensures forall k :: Outcome(c, states[|steps|], k) == Answer(c, states[|steps|], k)
  {
    hide Next, Answer;
  }

  lemma InvDisks(c: Config, db: DB)
    requires Inv(c, db)
    ensures c.shards == |db.disks| > 0
  {
  }

  lemma CrashBoots(c: Config, db: DB, booted: DB, images: seq<Image>)
    requires c.shards == |db.disks| > 0 && Crashes(db, booted, images)
    ensures DisksOk(c, booted) && booted.live == db.live
  {
    hide DiskOk, IsImage, Booted;
    forall i | 0 <= i < |images|
      ensures DiskOk(booted.disks[i])
    {
      BootedOk(db.disks[i], images[i], booted.disks[i]);
    }
  }

  /**
   * With `set` and `del` only, and values that fit, every complete recovery gives back the live
   * map, whatever reached the disk.
   */
  lemma {:induction false} SingleKeyCrashRecovers(c: Config, steps: seq<Step>, states: seq<DB>, n: nat, images: seq<Image>,
                                                  replay: seq<Step>, booted: seq<DB>, k: Key)
    requires c.shards > 0 && IsRun(c, steps, states) && n <= |steps| && SingleKey(states[n].wal)
    requires IsRecovery(c, replay, booted) && Crashes(states[n], booted[0], images)
    requires forall l :: l in states[n].wal ==> Size(l.cmd) <= booted[0].segSize
    ensures c.shards == |booted[|replay|].disks| && Answer(c, booted[|replay|], k) == Lookup(states[n].live, k)
  {
    var db, first, fitting := states[n], booted[0], forall cmd :: cmd in Commands(states[n].wal) ==> Size(cmd) <= booted[0].segSize;
    RunInv(c, steps, states, n);
    NothingLost(c, db, images);
    assert fitting;
    hide *;
    FittingRestorable(c, db, images, first);
    RecoveryExact(c, steps, states, n, images, replay, booted);
  }

  lemma NothingLost(c: Config, db: DB, images: seq<Image>)
    requires SingleKey(db.wal)
    ensures c.shards == |db.disks| == |images| > 0 ==> NothingDropped(c, db, images)
  {
    if c.shards == |db.disks| == |images| > 0 {
      forall k | Touched(Commands(db.wal), k)
        ensures Overwritten(Commands(db.wal), k)
      {
        SingleKeyTouch(db.wal, k);
      }
    }
  }
}
