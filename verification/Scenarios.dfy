/**
 * Runs in which the exact conditions of the durability theorems are false: concrete databases
 * that lose a value, each with the step that does it. They also show that the hypotheses of those
 * theorems can be met.
 */
module Scenarios {
  import opened Base
  import opened Bytes
  import opened IndexLog
  import opened Storage
  import opened ShardEngine
  import opened C = Commands
  import opened Durability
  import opened Crash
  import opened Recovery
  import LostTail
  import Tokenizer

  const K: Key := "k"

  const SIZE: U64 := 10

  // ------------------------------------------------- shards with one segment

  function At(offset: nat, size: nat): Record {
    Record(K, Location(offset, 1, size), false)
  }

  /** A shard whose INDEX holds `log` and whose only segment holds `bytes`, with what of them is synced. */
  function Shard(log: seq<Record>, bytes: string, logMark: nat, mark: nat): Disk {
    Disk(Engine(log, Store(map[1 := bytes], 1)), logMark, map[1 := mark])
  }

  /** Live records of the key only, each backed by bytes. */
  ghost predicate Plain(log: seq<Record>, bytes: string) {
    |bytes| <= SIZE
    && forall r :: r in log ==> r.key == K && !r.tombstone && r.loc.seg == 1 && 0 < r.loc.size && r.loc.offset + r.loc.size <= |bytes|
  }

  lemma PlainOk(log: seq<Record>, bytes: string, logMark: nat, mark: nat)
    requires Plain(log, bytes) && logMark <= |log| && mark <= |bytes|
    ensures DiskOk(Shard(log, bytes, logMark, mark))
  {
    forall k | k in Replay(log)
      ensures Record(k, Replay(log)[k], false) in log
    {
      ReplaySource(log, k);
    }
  }

  lemma PlainTable(log: seq<Record>, bytes: string)
    requires Plain(log, bytes) && log != []
    ensures Replay(log) == map[K := log[|log| - 1].loc]
  {
    var front, last := log[..|log| - 1], log[|log| - 1];
    assert log == front + [last] && last in log;
    ReplayAppend(front, last);
    forall k | k in Replay(front)
      ensures k == K
    {
      ReplaySource(front, k);
      assert Record(k, Replay(front)[k], false) in log;
    }
  }

  lemma PlainSet(log: seq<Record>, bytes: string, v: Value)
    requires Plain(log, bytes) && v != "" && |bytes| + |v| <= SIZE
    ensures var e := Engine(log, Store(map[1 := bytes], 1));
            && SetStep(e, K, v, SIZE).0 == Engine(log + [At(|bytes|, |v|)], Store(map[1 := bytes + v], 1))
            && Plain(log + [At(|bytes|, |v|)], bytes + v) && !Refused(e.store, v, SIZE)
  {
    var st := Store(map[1 := bytes], 1);
    SentinelIs(SIZE);
    assert st.segs[1 := bytes + v] == map[1 := bytes + v];
    assert AppendStep(st, v, SIZE) == (Store(map[1 := bytes + v], 1), Some(Location(|bytes|, 1, |v|)));
  }

  lemma SetWrites(log: seq<Record>, bytes: string, v: Value, logMark: nat, mark: nat, home: Key -> bool)
    requires Plain(log, bytes) && v != "" && |bytes| + |v| <= SIZE && logMark <= |log| && mark <= |bytes|
    ensures Writes(Shard(log, bytes, logMark, mark), Shard(log + [At(|bytes|, |v|)], bytes + v, logMark, mark), Set(K, v), home)
  {
    PlainOk(log, bytes, logMark, mark);
    PlainSet(log, bytes, v);
    PlainOk(log + [At(|bytes|, |v|)], bytes + v, logMark, mark);
    hide SetStep, Plain, Refused, Writes;
    SetIsWrite(Shard(log, bytes, logMark, mark), K, v, SIZE, home);
  }

  lemma SetByWrites(log: seq<Record>, bytes: string, v: Value, logMark: nat, mark: nat, all: Key -> bool, home: Key -> bool)
    requires Plain(log, bytes) && v != "" && |bytes| + |v| <= SIZE && logMark <= |log| && mark <= |bytes|
    requires log != [] && forall k :: all(k)
    ensures Writes(Shard(log, bytes, logMark, mark), Shard(log + [At(|bytes|, |v|)], bytes + v, logMark, mark), SetBy(all, v, None), home)
  {
    var d := Shard(log, bytes, logMark, mark);
    PlainOk(log, bytes, logMark, mark);
    PlainSet(log, bytes, v);
    PlainKeys(log, bytes, all);
    hide SetStep, Plain, Refused, Writes, View, Replay, DiskOk, Accepted, SetAll;
    AcceptedAll(d.engine, [K], v, SIZE);
    OneSet(d.engine, v);
    SetByIsWrite(d, [K], all, v, SIZE, home);
  }

  lemma PlainKeys(log: seq<Record>, bytes: string, all: Key -> bool)
    requires Plain(log, bytes) && log != [] && forall k :: all(k)
    ensures var e := Engine(log, Store(map[1 := bytes], 1)); Enumerates([K], set k | k in View(e) && all(k))
  {
    var e := Engine(log, Store(map[1 := bytes], 1));
    PlainTable(log, bytes);
    ViewKeys(e);
    hide View, Replay;
    assert View(e).Keys == {K};
  }

  lemma OneSet(e: Engine, v: Value)
    ensures SetAll(e, [K], v, SIZE).0 == SetStep(e, K, v, SIZE).0
  {
    hide SetStep;
    assert [K][..0] == [];
  }

  // ------------------------------------------------------------ one shard

  function OneShard(): Config {
    Config(1, _ => 0)
  }

  function Database(d: Disk, wal: seq<Logged>, live: map<Key, Value>): DB {
    DB([d], wal, live, [], SIZE)
  }

  lemma StoreStep(log: seq<Record>, bytes: string, logMark: nat, mark: nat, wal: seq<Logged>, live: map<Key, Value>,
                  cmd: Command, v: Value)
    requires Plain(log, bytes) && v != "" && |bytes| + |v| <= SIZE && logMark <= |log| && mark <= |bytes|
    requires cmd == Set(K, v) || (cmd.SetBy? && cmd == SetBy(cmd.matches, v, None) && log != [] && forall k :: cmd.matches(k))
    ensures Next(OneShard(), Database(Shard(log, bytes, logMark, mark), wal, live), Execute(cmd, 0),
                 Database(Shard(log + [At(|bytes|, |v|)], bytes + v, logMark, mark), wal + [Logged(cmd, 0)], Apply(cmd, live)))
  {
    var c, d, d' := OneShard(), Shard(log, bytes, logMark, mark), Shard(log + [At(|bytes|, |v|)], bytes + v, logMark, mark);
    ModeHome();
    hide Writes, Apply, Plain, Crash.IsMode;
    forall i | 0 <= i < 1
      ensures Writes([d][i], [d'][i], cmd, k => IsHome(c, i, k))
    {
      if cmd.Set? {
        SetWrites(log, bytes, v, logMark, mark, k => IsHome(c, i, k));
      } else {
        SetByWrites(log, bytes, v, logMark, mark, cmd.matches, k => IsHome(c, i, k));
      }
    }
  }

  lemma FlushStep(log: seq<Record>, bytes: string, logMark: nat, mark: nat, wal: seq<Logged>, live: map<Key, Value>)
    ensures Next(OneShard(), Database(Shard(log, bytes, logMark, mark), wal, live), FlushData(0),
                 Database(Shard(log, bytes, |log|, |bytes|), wal, live))
  {
    assert Sizes(map[1 := bytes]) == map[1 := |bytes|];
    assert [Shard(log, bytes, logMark, mark)][0 := Shard(log, bytes, |log|, |bytes|)] == [Shard(log, bytes, |log|, |bytes|)];
  }

  lemma ClearStep(log: seq<Record>, bytes: string, wal: seq<Logged>, live: map<Key, Value>)
    ensures Next(OneShard(), Database(Shard(log, bytes, |log|, |bytes|), wal, live), ClearAll,
                 Database(Shard(log, bytes, |log|, |bytes|), [], live))
  {
    assert Sizes(map[1 := bytes]) == map[1 := |bytes|];
  }

  /** `x` was stored, flushed and the WAL cleared. */
  function Flushed(): DB {
    Database(Shard([At(0, 1)], "x", 1, 1), [], map[K := "x"])
  }

  lemma FlushedRun() returns (steps: seq<Step>, states: seq<DB>)
    ensures IsRun(OneShard(), steps, states) && |steps| == 3 && states[3] == Flushed()
  {
    var c, put := OneShard(), Logged(Set(K, "x"), 0);
    var s1 := Database(Shard([At(0, 1)], "x", 0, 0), [put], map[K := "x"]);
    var s2 := Database(Shard([At(0, 1)], "x", 1, 1), [put], map[K := "x"]);
    FirstStep();
    FlushStep([At(0, 1)], "x", 0, 0, [put], map[K := "x"]);
    ClearStep([At(0, 1)], "x", [put], map[K := "x"]);
    EmptyRun(c);
    hide Next, IsRun;
    steps, states := [], [Fresh(c, SIZE)];
    steps, states := ExtendRun(c, steps, states, Execute(Set(K, "x"), 0), s1);
    steps, states := ExtendRun(c, steps, states, FlushData(0), s2);
    steps, states := ExtendRun(c, steps, states, ClearAll, Flushed());
  }

  lemma FirstStep()
    ensures Next(OneShard(), Fresh(OneShard(), SIZE), Execute(Set(K, "x"), 0),
                 Database(Shard([At(0, 1)], "x", 0, 0), [Logged(Set(K, "x"), 0)], map[K := "x"]))
  {
    assert Fresh(OneShard(), SIZE).disks == [Shard([], "", 0, 0)];
    StoreStep([], "", 0, 0, [], map[], Set(K, "x"), "x");
    hide Next;
    assert [] + [At(0, 1)] == [At(0, 1)] && "" + "x" == "x" && [] + [Logged(Set(K, "x"), 0)] == [Logged(Set(K, "x"), 0)];
    SetLive("x", map[]);
    hide Apply;
  }

  lemma EmptyRun(c: Config)
    requires c.shards > 0
    ensures IsRun(c, [], [Fresh(c, SIZE)])
  {
    hide Next;
  }

  /** One more step at the end of a run. */
  lemma ExtendRun(c: Config, steps: seq<Step>, states: seq<DB>, step: Step, db: DB) returns (steps': seq<Step>, states': seq<DB>)
    requires c.shards > 0 && IsRun(c, steps, states)
    requires c.shards == |states[|steps|].disks| && Next(c, states[|steps|], step, db)
    ensures IsRun(c, steps', states') && |steps'| == |steps| + 1 == |states'| - 1 && states'[|steps'|] == db
  {
    hide Next;
    steps', states' := steps + [step], states + [db];
    forall i | 0 <= i < |steps'|
      ensures c.shards == |states'[i].disks| && Next(c, states'[i], steps'[i], states'[i + 1])
    {
      if i < |steps| {
        assert steps'[i] == steps[i] && states'[i] == states[i] && states'[i + 1] == states[i + 1];
      }
    }
  }

  lemma CrashOne(d: Disk, img: Image, d': Disk, wal: seq<Logged>, live: map<Key, Value>, segSize: U64)
    requires DiskOk(d) && IsImage(d, img) && Booted(img, d')
    ensures var booted := DB([d'], wal, live, Crash.Commands(wal), segSize);
            && Crashes(Database(d, wal, live), booted, [img])
            && forall k :: Answer(OneShard(), booted, k) == Holds(d', k)
  {
    hide DiskOk, IsImage, Booted, Holds;
  }

  lemma OneCommand(cmd: Command, shard: nat, size: nat, x: Option<Value>)
    ensures Crash.Commands([Logged(cmd, shard)]) == [cmd]
    ensures Effects(Fitting([cmd], size), K, x) == if Size(cmd) <= size then Effect(cmd, K, x) else x
  {
    assert [cmd][..0] == [];
    OverwrittenAppend([], cmd, K);
    assert [] + [cmd] == [cmd];
  }

  // ------------------------------------------- the index entry without its bytes

  /** A second value was recorded behind the first, and nothing was synced since. */
  function Overwritten2(): Disk {
    Shard([At(0, 1), At(1, 1)], "xy", 1, 1)
  }

  /** The crash kept the whole INDEX, but not the byte of the second value. */
  function TornImage(): Image {
    Image(SerializeAll([At(0, 1), At(1, 1)]), map[1 := "x"])
  }

  /** Boot rewrites the INDEX and drops the entry. */
  function Dropped(): Disk {
    Disk(Engine([At(1, 1), At(1, 1).(tombstone := true)], Store(map[1 := "x"], 1)), 1, map[1 := 1])
  }

  lemma TornIsImage()
    ensures DiskOk(Overwritten2()) && IsImage(Overwritten2(), TornImage())
    ensures Loaded(TornImage()) == map[K := Location(1, 1, 1)]
    ensures !Survives(TornImage(), K) && Found(TornImage(), K) == None
  {
    TornKept();
    TornLoads();
  }

  lemma TornKept()
    ensures DiskOk(Overwritten2()) && IsImage(Overwritten2(), TornImage())
  {
    hide Loaded, SerializeAll, DiskOk, Plain;
    var log := [At(0, 1), At(1, 1)];
    TwoPlain();
    PlainOk(log, "xy", 1, 1);
    TornPrefix(log);
    assert "x" <= "xy";
  }

  lemma TornLoads()
    ensures Loaded(TornImage()) == map[K := Location(1, 1, 1)]
    ensures !Survives(TornImage(), K) && Found(TornImage(), K) == None
  {
    hide Loaded, SerializeAll, Plain;
    TwoPlain();
    PlainLoads([At(0, 1), At(1, 1)], "xy");
  }

  lemma TornPrefix(log: seq<Record>)
    requires log == [At(0, 1), At(1, 1)]
    ensures |SerializeAll(log[..1])| <= |SerializeAll(log)|
  {
    assert log == log[..1] + log[1..];
    SerializeAllConcat(log[..1], log[1..]);
    hide SerializeAll;
  }

  lemma PlainLoads(log: seq<Record>, bytes: string)
    requires Plain(log, bytes) && log != []
    ensures forall segs :: Loaded(Image(SerializeAll(log), segs)) == map[K := log[|log| - 1].loc]
  {
    assert forall r :: r in log ==> IndexLog.Fits(r) && |r.key| <= MAX_KEY_SIZE;
    LoadWhole(log);
    PlainTable(log, bytes);
    hide SerializeAll, Parse, Replay;
  }

  lemma TornBooted()
    ensures Booted(TornImage(), Dropped())
  {
    TornIsImage();
    TornReplay();
    hide Loaded, Replay, SerializeAll;
    var loaded := map[K := Location(1, 1, 1)];
    var base, log := [At(1, 1)], Dropped().engine.log;
    assert Enumerates([K], loaded.Keys) && base == Entries(loaded, [K]);
    assert log[..1] == base;
    assert Compacted(base, loaded);
    assert Tombstones(loaded, map[1 := "x"], base, log) by {
      assert log[1..] == [At(1, 1).(tombstone := true)];
    }
    assert Sizes(map[1 := "x"]) == map[1 := 1];
    hide Compacted, Tombstones;
  }

  lemma TornReplay()
    ensures Replay(Dropped().engine.log) == map[] == Verified(map[K := Location(1, 1, 1)], map[1 := "x"])
  {
    var base, gone := [At(1, 1)], At(1, 1).(tombstone := true);
    ReplayAppend([], At(1, 1));
    assert [] + [At(1, 1)] == base;
    ReplayAppend(base, gone);
    assert Dropped().engine.log == base + [gone];
  }

  lemma DroppedAnswer()
    ensures Holds(Dropped(), K) == None
  {
    TornIsImage();
    TornBooted();
    BootFinds(Overwritten2(), TornImage(), Dropped(), K);
  }

  /** The step that makes `Overwritten2` of the flushed database. */
  lemma OverwriteStep(cmd: Command)
    requires cmd == Set(K, "y") || (cmd.SetBy? && cmd == SetBy(cmd.matches, "y", None) && forall k :: cmd.matches(k))
    ensures Next(OneShard(), Flushed(), Execute(cmd, 0), Database(Overwritten2(), [Logged(cmd, 0)], map[K := "y"]))
  {
    StoreStep([At(0, 1)], "x", 1, 1, [], map[K := "x"], cmd, "y");
    hide Next;
    assert [At(0, 1)] + [At(1, 1)] == [At(0, 1), At(1, 1)] && "x" + "y" == "xy" && [] + [Logged(cmd, 0)] == [Logged(cmd, 0)];
    assert Apply(cmd, map[K := "x"]) == map[K := "y"];
  }

  /**
   * The condition of `CrashRecoversExactly` is false of this run: `x` stored and flushed, then all
   * keys set to `y` by pattern, then a crash that keeps the index record but not the value byte.
   * Every logged value fits, the WAL is complete, and still the key is lost.
   */
  lemma PatternSetLost(all: Key -> bool) returns (steps: seq<Step>, states: seq<DB>, images: seq<Image>, booted: DB)
    requires forall k :: all(k)
    ensures IsRun(OneShard(), steps, states) && |steps| == 4 && Crashes(states[4], booted, images)
    ensures |booted.disks| == 1 && booted.segSize == SIZE && Lookup(states[4].live, K) == Some("y")
    ensures Effects(Fitting(booted.pending, SIZE), K, Answer(OneShard(), booted, K)) == None
  {
    var cmd := SetBy(all, "y", None);
    var wal, live := [Logged(cmd, 0)], map[K := "y"];
    OverwriteStep(cmd);
    TornIsImage();
    TornBooted();
    DroppedAnswer();
    OneCommand(cmd, 0, SIZE, None);
    hide Next, IsRun, Booted, IsImage, DiskOk, Holds, Effects, Fitting, Crash.Commands, Loaded;
    var last := Database(Overwritten2(), wal, live);
    steps, states := FlushedRun();
    steps, states := ExtendRun(OneShard(), steps, states, Execute(cmd, 0), last);
    CrashOne(Overwritten2(), TornImage(), Dropped(), wal, live, SIZE);
    images, booted := [TornImage()], DB([Dropped()], wal, live, Crash.Commands(wal), SIZE);
  }

  /**
   * The condition of `LostTailExact` is false of this run: `x` flushed, then `set` to `y` without
   * a sync of the WAL, then the same crash. The key is absent, though it was never deleted.
   */
  lemma UnsyncedOverwriteLost() returns (steps: seq<Step>, states: seq<DB>, images: seq<Image>, booted: DB)
    ensures LostTail.IsEpoch(OneShard(), steps, states) && |steps| == 1 && |booted.disks| == 1
    ensures LostTail.CrashesLosing(states[1], booted, images, _ => false)
    ensures var log := Crash.Commands(states[1].wal); var now := Effects(Fitting(booted.pending, booted.segSize), K, Answer(OneShard(), booted, K));
            now == None && !LostTail.PastValue(log, K, Lookup(states[0].live, K), 0, now)
  {
    hide *;
    var cmd := Set(K, "y");
    var wal, live := [Logged(cmd, 0)], map[K := "y"];
    steps, states := OverwriteEpoch(cmd);
    TornIsImage();
    TornBooted();
    DroppedAnswer();
    OneCommand(cmd, 0, SIZE, None);
    NeverAbsent(cmd);
    NothingReplayed();
    CrashOne(Overwritten2(), TornImage(), Dropped(), [], live, SIZE);
    LosesAll(wal, live);
    images, booted := [TornImage()], DB([Dropped()], [], live, Crash.Commands([]), SIZE);
  }

  lemma OverwriteEpoch(cmd: Command) returns (steps: seq<Step>, states: seq<DB>)
    requires cmd == Set(K, "y")
    ensures LostTail.IsEpoch(OneShard(), steps, states) && |steps| == 1
    ensures states == [Flushed(), Database(Overwritten2(), [Logged(cmd, 0)], map[K := "y"])]
    ensures Lookup(states[0].live, K) == Some("x") && states[1].wal == [Logged(cmd, 0)]
  {
    OverwriteStep(cmd);
    FlushedStart();
    FlushedLive();
    hide *;
    var last := Database(Overwritten2(), [Logged(cmd, 0)], map[K := "y"]);
    EpochOne(Flushed(), last, cmd);
    steps, states := [Execute(cmd, 0)], [Flushed(), last];
    DatabaseWal(Overwritten2(), [Logged(cmd, 0)], map[K := "y"]);
  }

  lemma FlushedLive()
    ensures Lookup(Flushed().live, K) == Some("x") && |Flushed().disks| == 1
  {
  }

  lemma DatabaseWal(d: Disk, wal: seq<Logged>, live: map<Key, Value>)
    ensures Database(d, wal, live).wal == wal
  {
  }

  lemma EpochOne(db: DB, db': DB, cmd: Command)
    requires LostTail.JustFlushed(OneShard(), db) && |db.disks| == 1 && cmd.Set? && Next(OneShard(), db, Execute(cmd, 0), db')
    ensures LostTail.IsEpoch(OneShard(), [Execute(cmd, 0)], [db, db'])
  {
    hide Next, LostTail.JustFlushed;
  }

  lemma NothingReplayed()
    ensures Crash.Commands([]) == [] && Effects(Fitting([], SIZE), K, None) == None
  {
  }

  lemma LosesAll(wal: seq<Logged>, live: map<Key, Value>)
    requires |wal| == 1
    requires Crashes(Database(Overwritten2(), [], live), DB([Dropped()], [], live, Crash.Commands([]), SIZE), [TornImage()])
    ensures LostTail.CrashesLosing(Database(Overwritten2(), wal, live), DB([Dropped()], [], live, Crash.Commands([]), SIZE),
                                   [TornImage()], _ => false)
  {
    NothingPicked(wal);
    hide Crashes;
    assert Database(Overwritten2(), wal, live).(wal := []) == Database(Overwritten2(), [], live);
  }

  lemma FlushedStart()
    ensures LostTail.JustFlushed(OneShard(), Flushed())
  {
    var steps, states := FlushedRun();
    RunInv(OneShard(), steps, states, 3);
    assert Sizes(map[1 := "x"]) == map[1 := 1];
    hide Inv, IsRun;
  }

  lemma NothingPicked(wal: seq<Logged>)
    requires |wal| == 1
    ensures LostTail.Pick(wal, _ => false) == []
  {
    assert LostTail.Pick(wal[..0], _ => false) == [];
  }

  lemma NeverAbsent(cmd: Command)
    requires cmd == Set(K, "y")
    ensures !LostTail.PastValue([cmd], K, Some("x"), 0, None)
  {
    assert [cmd][..0] == [] && [cmd][..1] == [cmd];
    OverwrittenAppend([], cmd, K);
    assert [] + [cmd] == [cmd];
    assert forall i :: 0 <= i <= 1 ==> Effects([cmd][..i], K, Some("x")).Some?;
  }

  /** After the crash of `UnsyncedOverwriteLost`, another key's value goes where the lost byte was. */
  function Refilled(): Disk {
    Disk(Engine(Dropped().engine.log + [Record("j", Location(1, 1, 1), false)], Store(map[1 := "xq"], 1)), 1, map[1 := 1])
  }

  /**
   * The condition of `RevivedExactly` is true of this run: boot has dropped the key, `j` is set to
   * `q`, and the second crash keeps the bytes but only the synced part of the INDEX. The key, of
   * which nobody was told anything since, then answers `q`.
   */
  lemma AnotherKeysValue(home: Key -> bool) returns (img: Image, d: Disk)
    ensures Booted(TornImage(), Dropped()) && LostTail.DroppedAt(TornImage(), Dropped(), K, 1)
    ensures Writes(Dropped(), Refilled(), Set("j", "q"), home) && LostTail.UnsyncedSince(Dropped(), Refilled(), K)
    ensures DiskOk(Refilled()) && IsImage(Refilled(), img) && Booted(img, d) && Holds(d, K) == Some("q")
  {
    hide *;
    DroppedUnsynced();
    RefillStep(home);
    RefilledImage();
    RefilledBoot();
    img, d := Image(SerializeAll([At(1, 1)]), map[1 := "xq"]), Shard([At(1, 1)], "xq", 1, 2);
  }

  lemma RefilledBoot()
    ensures var d := Shard([At(1, 1)], "xq", 1, 2);
            Booted(Image(SerializeAll([At(1, 1)]), map[1 := "xq"]), d) && Holds(d, K) == Some("q")
  {
    var r := At(1, 1);
    assert Plain([r], "xq") && ReadAt(map[1 := "xq"], r.loc) == "q";
    hide Booted, Holds, Loaded, Replay, SerializeAll, ReadAt;
    PlainLoads([r], "xq");
    PlainTable([r], "xq");
    RewrittenBoot(r, "xq");
    RewrittenAnswer(r, "xq");
  }

  lemma DroppedUnsynced()
    ensures Booted(TornImage(), Dropped()) && LostTail.DroppedAt(TornImage(), Dropped(), K, 1)
    ensures LostTail.UnsyncedSince(Dropped(), Refilled(), K)
  {
    TornIsImage();
    TornBooted();
    hide Booted, Loaded, DiskOk, IsImage;
    assert Refilled().engine.log[2..] == [Record("j", Location(1, 1, 1), false)];
  }

  lemma RefillStep(home: Key -> bool)
    ensures Writes(Dropped(), Refilled(), Set("j", "q"), home) && DiskOk(Refilled())
  {
    hide *;
    TornIsImage();
    TornBooted();
    BootedOk(Overwritten2(), TornImage(), Dropped());
    RefillAppend();
    SetIsWrite(Dropped(), "j", "q", SIZE, home);
    WritesOk(Dropped(), Refilled(), Set("j", "q"), home);
  }

  lemma WritesOk(d: Disk, d': Disk, c: Command, home: Key -> bool)
    requires Writes(d, d', c, home)
    ensures DiskOk(d')
  {
  }

  lemma RefillAppend()
    ensures var e := Dropped().engine;
            && !Refused(e.store, "q", SIZE) && LogFits(SetStep(e, "j", "q", SIZE).0.log)
            && Dropped().(engine := SetStep(e, "j", "q", SIZE).0) == Refilled()
  {
    var st := Dropped().engine.store;
    SentinelIs(SIZE);
    assert "x" + "q" == "xq" && st.segs[1 := "xq"] == map[1 := "xq"];
    assert AppendStep(st, "q", SIZE) == (Store(map[1 := "xq"], 1), Some(Location(1, 1, 1)));
  }

  lemma RefilledImage()
    ensures DiskOk(Refilled()) ==> IsImage(Refilled(), Image(SerializeAll([At(1, 1)]), map[1 := "xq"]))
  {
    var log := Refilled().engine.log;
    assert log[..1] == [At(1, 1)] && log == log[..1] + log[1..];
    SerializeAllConcat(log[..1], log[1..]);
    hide SerializeAll, DiskOk;
  }

  /** A value accepted and acknowledged is refused by the replay once SegSize was lowered below it. */
  lemma SmallerSegmentsLose() returns (steps: seq<Step>, states: seq<DB>, images: seq<Image>, booted: DB)
    ensures IsRun(OneShard(), steps, states) && |steps| == 1 && Crashes(states[1], booted, images)
    ensures |booted.disks| == 1 && booted.segSize == 2 && Lookup(states[1].live, K) == Some("xyz")
    ensures Effects(Fitting(booted.pending, 2), K, Answer(OneShard(), booted, K)) == None
  {
    var c, cmd := OneShard(), Set(K, "xyz");
    var wal, live := [Logged(cmd, 0)], map[K := "xyz"];
    var last := Database(Shard([At(0, 3)], "xyz", 0, 0), wal, live);
    LargeStep(cmd);
    EmptyImage();
    OneCommand(cmd, 0, 2, None);
    EmptyRun(c);
    hide Next, IsRun, Booted, IsImage, DiskOk, Holds, Effects, Fitting, Crash.Commands, Loaded;
    steps, states := ExtendRun(c, [], [Fresh(c, SIZE)], Execute(cmd, 0), last);
    CrashOne(Shard([At(0, 3)], "xyz", 0, 0), Image("", map[1 := ""]), Shard([], "", 0, 0), wal, live, 2);
    images, booted := [Image("", map[1 := ""])], DB([Shard([], "", 0, 0)], wal, live, Crash.Commands(wal), 2);
  }

  lemma LargeStep(cmd: Command)
    requires cmd == Set(K, "xyz")
    ensures Next(OneShard(), Fresh(OneShard(), SIZE), Execute(cmd, 0),
                 Database(Shard([At(0, 3)], "xyz", 0, 0), [Logged(cmd, 0)], map[K := "xyz"]))
  {
    assert Fresh(OneShard(), SIZE).disks == [Shard([], "", 0, 0)];
    StoreStep([], "", 0, 0, [], map[], cmd, "xyz");
    hide Next;
    assert [] + [At(0, 3)] == [At(0, 3)] && "" + "xyz" == "xyz" && [] + [Logged(cmd, 0)] == [Logged(cmd, 0)];
    assert Apply(cmd, map[]) == map[K := "xyz"];
  }

  lemma EmptyImage()
    ensures var d, img := Shard([At(0, 3)], "xyz", 0, 0), Image("", map[1 := ""]);
            DiskOk(d) && IsImage(d, img) && Booted(img, Shard([], "", 0, 0))
    ensures Holds(Shard([], "", 0, 0), K) == None
  {
    EmptyBooted();
    var log := [At(0, 3)];
    PlainOk(log, "xyz", 0, 0);
    assert log[..0] == [] && SerializeAll([]) == "";
    NothingLoaded();
    hide Loaded, SerializeAll, DiskOk, Booted;
  }

  lemma EmptyBooted()
    ensures Booted(Image("", map[1 := ""]), Shard([], "", 0, 0))
  {
    NothingLoaded();
    hide Loaded, Replay;
    var none: seq<Key>, table: Table := [], map[];
    assert Enumerates(none, table.Keys) && [] == Entries(table, none);
    assert Sizes(map[1 := ""]) == map[1 := 0];
  }

  lemma NothingLoaded()
    ensures Loaded(Image("", map[1 := ""])) == map[] && Replay([]) == map[]
  {
    DeserializeShort("");
  }

  // ----------------------------------------------------------- two shards

  /** Where a pattern command of mode `sw` is logged. */
  lemma ModeHome()
    ensures IsMode("sw") && HomeOf(OneShard(), "sw") == 0 && HomeOf(TwoShards(), "sw") == 0
  {
    assert Tokenizer.Lower("sw") == "sw";
  }

  /** The key lives in shard 1, all other words in shard 0, which stays empty. */
  function TwoShards(): Config {
    Config(2, (k: Key) => if k == K then 1 else 0)
  }

  function Pair(d: Disk, wal: seq<Logged>, live: map<Key, Value>): DB {
    DB([Shard([], "", 0, 0), d], wal, live, [], SIZE)
  }

  /** A pattern command is logged in shard 0, that of its mode word; a `set` in the key's own. */
  lemma PairStep(log: seq<Record>, bytes: string, wal: seq<Logged>, live: map<Key, Value>, cmd: Command, v: Value)
    requires Plain(log, bytes) && v != "" && |bytes| + |v| <= SIZE
    requires cmd == Set(K, v) || (cmd.SetBy? && cmd == SetBy(cmd.matches, v, None) && log != [] && forall k :: cmd.matches(k))
    ensures var s := if cmd.Set? then 1 else 0;
            Next(TwoShards(), Pair(Shard(log, bytes, 0, 0), wal, live), Execute(cmd, s),
                 Pair(Shard(log + [At(|bytes|, |v|)], bytes + v, 0, 0), wal + [Logged(cmd, s)], Apply(cmd, live)))
  {
    var c, e, d, d' := TwoShards(), Shard([], "", 0, 0), Shard(log, bytes, 0, 0), Shard(log + [At(|bytes|, |v|)], bytes + v, 0, 0);
    PlainOk([], "", 0, 0);
    ModeHome();
    hide Writes, Apply, Plain, DiskOk, Crash.IsMode;
    forall i | 0 <= i < 2
      ensures Writes([e, d][i], [e, d'][i], cmd, k => IsHome(c, i, k))
    {
      if i == 0 {
        IdleIsWrite(e, cmd, k => IsHome(c, i, k));
      } else if cmd.Set? {
        SetWrites(log, bytes, v, 0, 0, k => IsHome(c, i, k));
      } else {
        SetByWrites(log, bytes, v, 0, 0, cmd.matches, k => IsHome(c, i, k));
      }
    }
  }

  lemma PairFlush(log: seq<Record>, bytes: string, wal: seq<Logged>, live: map<Key, Value>)
    ensures Next(TwoShards(), Pair(Shard(log, bytes, 0, 0), wal, live), FlushData(1), Pair(Shard(log, bytes, |log|, |bytes|), wal, live))
    ensures AllSynced(Pair(Shard(log, bytes, |log|, |bytes|), wal, live))
  {
    assert Sizes(map[1 := bytes]) == map[1 := |bytes|] && Sizes(map[1 := ""]) == map[1 := 0];
    var e, d, d' := Shard([], "", 0, 0), Shard(log, bytes, 0, 0), Shard(log, bytes, |log|, |bytes|);
    assert [e, d][1 := d'] == [e, d'];
  }

  /** `x`, then `y` by pattern, then `z`, and a flush. */
  function PairWal(all: Key -> bool): seq<Logged> {
    [Logged(Set(K, "x"), 1), Logged(SetBy(all, "y", None), 0), Logged(Set(K, "z"), 1)]
  }

  /** The database after the first `n` of these commands. */
  function PairState(all: Key -> bool, n: nat): DB
    requires 1 <= n <= 3
  {
    var r0, r1, r2, w := At(0, 1), At(1, 1), At(2, 1), PairWal(all);
    match n
    case 1 => Pair(Shard([r0], "x", 0, 0), [w[0]], map[K := "x"])
    case 2 => Pair(Shard([r0, r1], "xy", 0, 0), [w[0], w[1]], map[K := "y"])
    case _ => Pair(Shard([r0, r1, r2], "xyz", 0, 0), w, map[K := "z"])
  }

  lemma PairFirst(all: Key -> bool)
    ensures Next(TwoShards(), Fresh(TwoShards(), SIZE), Execute(Set(K, "x"), 1), PairState(all, 1))
  {
    assert Fresh(TwoShards(), SIZE) == Pair(Shard([], "", 0, 0), [], map[]);
    assert Plain([], "");
    PairStep([], "", [], map[], Set(K, "x"), "x");
    SetLive("x", map[]);
    PairConcat(all);
    hide Next, Apply, Plain;
  }

  lemma PairSecond(all: Key -> bool)
    requires forall k :: all(k)
    ensures Next(TwoShards(), PairState(all, 1), Execute(SetBy(all, "y", None), 0), PairState(all, 2))
  {
    assert Plain([At(0, 1)], "x");
    PairStep([At(0, 1)], "x", [PairWal(all)[0]], map[K := "x"], SetBy(all, "y", None), "y");
    SetByLive(all, "y", map[K := "x"]);
    PairConcat(all);
    hide Next, Apply, Plain;
  }

  lemma PairThird(all: Key -> bool)
    ensures Next(TwoShards(), PairState(all, 2), Execute(Set(K, "z"), 1), PairState(all, 3))
  {
    TwoPlain();
    hide Next, Apply, Plain, At;
    PairStep([At(0, 1), At(1, 1)], "xy", [PairWal(all)[0], PairWal(all)[1]], map[K := "y"], Set(K, "z"), "z");
    SetLive("z", map[K := "y"]);
    PairConcat(all);
  }

  lemma TwoPlain()
    ensures Plain([At(0, 1), At(1, 1)], "xy")
  {
    var log := [At(0, 1), At(1, 1)];
    assert forall r :: r in log ==> r == log[0] || r == log[1];
  }

  lemma PairConcat(all: Key -> bool)
    ensures var r0, r1, r2 := At(0, 1), At(1, 1), At(2, 1); var w := PairWal(all);
            && PairState(all, 1) == Pair(Shard([] + [r0], "" + "x", 0, 0), [] + [w[0]], map[K := "x"])
            && PairState(all, 2) == Pair(Shard([r0] + [r1], "x" + "y", 0, 0), [w[0]] + [w[1]], map[K := "y"])
            && PairState(all, 3) == Pair(Shard([r0, r1] + [r2], "xy" + "z", 0, 0), [w[0], w[1]] + [w[2]], map[K := "z"])
  {
    assert "xyz" == "xy" + "z" && "x" + "y" == "xy" && "" + "x" == "x";
    var r0, r1, r2, w := At(0, 1), At(1, 1), At(2, 1), PairWal(all);
    assert [] + [r0] == [r0] && [r0] + [r1] == [r0, r1] && [r0, r1] + [r2] == [r0, r1, r2];
    assert [] + [w[0]] == [w[0]] && [w[0]] + [w[1]] == [w[0], w[1]] && [w[0], w[1]] + [w[2]] == w;
    hide At;
  }

  lemma SetLive(v: Value, live: map<Key, Value>)
    requires live.Keys <= {K}
    ensures Apply(Set(K, v), live) == map[K := v]
  {
  }

  lemma SetByLive(all: Key -> bool, v: Value, live: map<Key, Value>)
    requires live.Keys <= {K}
    ensures (forall k :: all(k)) && K in live ==> Apply(SetBy(all, v, None), live) == map[K := v]
  {
  }

  /** The database after the three commands and the flush. */
  function PairSynced(all: Key -> bool): DB {
    Pair(Shard([At(0, 1), At(1, 1), At(2, 1)], "xyz", 3, 3), PairWal(all), map[K := "z"])
  }

  lemma PairLast(all: Key -> bool)
    ensures Next(TwoShards(), PairState(all, 3), FlushData(1), PairSynced(all)) && AllSynced(PairSynced(all))
  {
    PairFlush([At(0, 1), At(1, 1), At(2, 1)], "xyz", PairWal(all), map[K := "z"]);
    hide Next, AllSynced;
  }

  lemma PairSizes(all: Key -> bool)
    ensures 0 < TwoShards().shards == |Fresh(TwoShards(), SIZE).disks| == 2
    ensures forall n :: 1 <= n <= 3 ==> |PairState(all, n).disks| == 2
  {
  }

  lemma PairRun(all: Key -> bool) returns (steps: seq<Step>, states: seq<DB>)
    requires forall k :: all(k)
    ensures IsRun(TwoShards(), steps, states) && |steps| == 4 && states[4] == PairSynced(all) && AllSynced(states[4])
  {
    hide *;
    var c := TwoShards();
    PairSizes(all);
    EmptyRun(c);
    PairFirst(all);
    PairSecond(all);
    PairThird(all);
    PairLast(all);
    steps, states := [], [Fresh(c, SIZE)];
    steps, states := ExtendRun(c, steps, states, Execute(Set(K, "x"), 1), PairState(all, 1));
    steps, states := ExtendRun(c, steps, states, Execute(SetBy(all, "y", None), 0), PairState(all, 2));
    steps, states := ExtendRun(c, steps, states, Execute(Set(K, "z"), 1), PairState(all, 3));
    steps, states := ExtendRun(c, steps, states, FlushData(1), PairSynced(all));
  }

  /** Boot from a shard that was fully synced. */
  lemma SyncedBoot(log: seq<Record>, bytes: string)
    requires Plain(log, bytes) && log != []
    ensures var d, img := Shard(log, bytes, |log|, |bytes|), Image(SerializeAll(log), map[1 := bytes]);
            DiskOk(d) && IsImage(d, img)
    ensures Booted(Image(SerializeAll(log), map[1 := bytes]), Shard([log[|log| - 1]], bytes, 1, |bytes|))
  {
    hide *;
    var last := log[|log| - 1];
    PlainOk(log, bytes, |log|, |bytes|);
    PlainLoads(log, bytes);
    PlainLast(log, bytes);
    PlainTable([last], bytes);
    RewrittenBoot(last, bytes);
    SyncedShard(log, bytes);
    WholeImage(Shard(log, bytes, |log|, |bytes|), Image(SerializeAll(log), map[1 := bytes]));
  }

  lemma SyncedShard(log: seq<Record>, bytes: string)
    ensures var d := Shard(log, bytes, |log|, |bytes|); Synced(d) && d.engine.log == log && d.engine.store.segs == map[1 := bytes]
    ensures Shard(log, bytes, |log|, |bytes|).logMark == |log|
  {
    assert Sizes(map[1 := bytes]) == map[1 := |bytes|];
  }

  lemma PlainLast(log: seq<Record>, bytes: string)
    requires Plain(log, bytes) && log != []
    ensures var last := log[|log| - 1]; Plain([last], bytes) && last.key == K && !last.tombstone && Contained(map[1 := bytes], last.loc)
  {
    assert log[|log| - 1] in log;
  }

  lemma RewrittenBoot(last: Record, bytes: string)
    requires last.key == K && !last.tombstone && Contained(map[1 := bytes], last.loc) && Replay([last]) == map[K := last.loc]
    ensures forall img :: Loaded(img) == map[K := last.loc] && img.segs == map[1 := bytes] ==>
              Booted(img, Shard([last], bytes, 1, |bytes|))
  {
    var loaded := map[K := last.loc];
    assert Enumerates([K], loaded.Keys) && [last] == Entries(loaded, [K]);
    assert [last][..1] == [last];
    assert Sizes(map[1 := bytes]) == map[1 := |bytes|];
    assert Verified(loaded, map[1 := bytes]) == loaded;
    NoTombstones(loaded, map[1 := bytes], [last]);
    hide Loaded, Replay, Verified, Tombstones, Entries;
  }

  lemma RewrittenAnswer(r: Record, bytes: string)
    requires r.key == K && !r.tombstone && Contained(map[1 := bytes], r.loc)
    ensures Holds(Shard([r], bytes, 1, |bytes|), K) == Some(ReadAt(map[1 := bytes], r.loc))
  {
    ReplayAppend([], r);
    assert [] + [r] == [r];
    hide ReadAt;
  }

  /**
   * A run that breaks the condition of `PartialClearExact`: the pattern command is logged in the
   * shard of its mode, the key's `set`s in another. The flush has completed, only the other WAL is
   * cleared when the crash comes, and the pattern set that `z` had overwritten is replayed over it.
   */
  lemma PatternOutlivesSet(all: Key -> bool) returns (steps: seq<Step>, states: seq<DB>, images: seq<Image>, booted: DB)
    requires forall k :: all(k)
    ensures IsRun(TwoShards(), steps, states) && |steps| == 4 && AllSynced(states[4]) && states[4].pending == []
    ensures Crashes(states[4].(wal := Uncleared(states[4].wal, {1})), booted, images)
    ensures |booted.disks| == 2 && booted.segSize == SIZE && Lookup(states[4].live, K) == Some("z")
    ensures Effects(Fitting(booted.pending, SIZE), K, Answer(TwoShards(), booted, K)) == Some("y")
  {
    hide *;
    var d, cmd := Shard([At(0, 1), At(1, 1), At(2, 1)], "xyz", 3, 3), SetBy(all, "y", None);
    var rest, live := [Logged(cmd, 0)], map[K := "z"];
    steps, states := PairRun(all);
    PairFinal(all);
    var img, d' := PairBoot();
    CrashTwo(d, img, d', rest, live);
    OneCommand(cmd, 0, SIZE, Some("z"));
    Overwrites2(cmd);
    images := [Image("", map[1 := ""]), img];
    booted := DB([Shard([], "", 0, 0), d'], rest, live, Crash.Commands(rest), SIZE);
  }

  lemma Overwrites2(cmd: Command)
    requires cmd.SetBy? && cmd.value == "y" && forall k :: cmd.matches(k)
    ensures Size(cmd) <= SIZE && Effect(cmd, K, Some("z")) == Some("y")
  {
  }

  lemma PairBoot() returns (img: Image, d': Disk)
    ensures var d := Shard([At(0, 1), At(1, 1), At(2, 1)], "xyz", 3, 3); DiskOk(d) && IsImage(d, img)
    ensures Booted(img, d') && Holds(d', K) == Some("z")
  {
    var log := [At(0, 1), At(1, 1), At(2, 1)];
    assert Plain(log, "xyz") && ReadAt(map[1 := "xyz"], At(2, 1).loc) == "z";
    RewrittenAnswer(At(2, 1), "xyz");
    SyncedBoot(log, "xyz");
    hide Booted, IsImage, DiskOk, Holds, Plain, SerializeAll, ReadAt;
    img, d' := Image(SerializeAll(log), map[1 := "xyz"]), Shard([At(2, 1)], "xyz", 1, 3);
  }

  lemma PairFinal(all: Key -> bool)
    ensures var db := PairSynced(all);
            && db.pending == [] && Lookup(db.live, K) == Some("z")
            && db.(wal := Uncleared(db.wal, {1}))
               == Pair(Shard([At(0, 1), At(1, 1), At(2, 1)], "xyz", 3, 3), [Logged(SetBy(all, "y", None), 0)], map[K := "z"])
  {
    LeftInZero(all);
  }

  lemma CrashTwo(d: Disk, img: Image, d': Disk, wal: seq<Logged>, live: map<Key, Value>)
    requires DiskOk(d) && IsImage(d, img) && Booted(img, d')
    ensures var e := Shard([], "", 0, 0); var booted := DB([e, d'], wal, live, Crash.Commands(wal), SIZE);
            && Crashes(Pair(d, wal, live), booted, [Image("", map[1 := ""]), img])
            && Answer(TwoShards(), booted, K) == Holds(d', K)
  {
    EmptyBoot();
    hide DiskOk, IsImage, Booted, Holds;
  }

  lemma EmptyBoot()
    ensures var d, img := Shard([], "", 0, 0), Image("", map[1 := ""]); DiskOk(d) && IsImage(d, img) && Booted(img, d)
  {
    PlainOk([], "", 0, 0);
    EmptyBooted();
    hide Booted, DiskOk;
  }

  lemma LeftInZero(all: Key -> bool)
    ensures Uncleared(PairWal(all), {1}) == [Logged(SetBy(all, "y", None), 0)]
  {
    var wal := PairWal(all);
    assert wal[..2] == [wal[0], wal[1]] && wal[..2][..1] == [wal[0]] && wal[..2][..1][..0] == [];
    assert Uncleared([wal[0]], {1}) == [];
    assert Uncleared(wal[..2], {1}) == [wal[1]];
  }

  // ------------------------------------- a deletion lost, a pattern set not

  /** The shard of the key once everything is synced, and after a deletion that is not. */
  function Kept(): Disk {
    Shard([At(0, 1), At(1, 1), At(2, 1)], "xyz", 3, 3)
  }

  function Deleted(): Disk {
    Shard([At(0, 1), At(1, 1), At(2, 1), At(2, 1).(tombstone := true)], "xyz", 3, 3)
  }

  lemma PairCleared(all: Key -> bool)
    requires forall k :: all(k)
    ensures LostTail.JustFlushed(TwoShards(), Pair(Kept(), [], map[K := "z"]))
  {
    hide *;
    var steps, states := PairRun(all);
    var db := Pair(Kept(), [], map[K := "z"]);
    PairSizes(all);
    PairClear(all);
    steps, states := ExtendRun(TwoShards(), steps, states, ClearAll, db);
    RunInv(TwoShards(), steps, states, 5);
    JustFlushedIs(db);
  }

  lemma PairClear(all: Key -> bool)
    requires AllSynced(PairSynced(all))
    ensures var db := Pair(Kept(), [], map[K := "z"]);
            && Next(TwoShards(), PairSynced(all), ClearAll, db) && |PairSynced(all).disks| == 2
            && AllSynced(db) && db.wal == [] && db.pending == []
  {
    hide Synced;
  }

  lemma JustFlushedIs(db: DB)
    requires Inv(TwoShards(), db) && AllSynced(db) && db.wal == [] && db.pending == []
    ensures LostTail.JustFlushed(TwoShards(), db)
  {
    hide Inv, AllSynced;
  }

  lemma KeptView()
    ensures DiskOk(Kept()) && View(Kept().engine).Keys == {K} && TableOf(Kept().engine) == map[K := Location(2, 1, 1)]
  {
    var log := [At(0, 1), At(1, 1), At(2, 1)];
    assert Plain(log, "xyz");
    PlainOk(log, "xyz", 3, 3);
    PlainTable(log, "xyz");
    ViewKeys(Kept().engine);
    hide View, Replay, DiskOk;
  }

  /** The deletion, as the engine does it. */
  lemma Deletes()
    ensures Kept().(engine := DelStep(Kept().engine, K).0) == Deleted() && LogFits(Deleted().engine.log)
    ensures View(Deleted().engine) == map[]
  {
    KeptView();
    DelSpec(Kept().engine, K);
    var log := [At(0, 1), At(1, 1), At(2, 1)];
    hide View, Replay;
    assert DelStep(Kept().engine, K).0.log == log + [At(2, 1).(tombstone := true)] == Deleted().engine.log;
    assert View(Deleted().engine).Keys == {};
  }

  lemma DeleteWrites(home: Key -> bool)
    ensures Writes(Kept(), Deleted(), Del(K), home) && DiskOk(Deleted())
  {
    hide *;
    KeptView();
    Deletes();
    DelIsWrite(Kept(), K, home);
    WritesOk(Kept(), Deleted(), Del(K), home);
  }

  lemma EmptyIdle(d: Disk, cmd: Command, home: Key -> bool)
    requires DiskOk(d) && View(d.engine) == map[] && !cmd.Set?
    ensures Writes(d, d, cmd, home)
  {
    hide DiskOk, Writes, View;
    IdleIsWrite(d, cmd, home);
  }

  lemma EmptyShard()
    ensures DiskOk(Shard([], "", 0, 0)) && View(Shard([], "", 0, 0).engine) == map[]
  {
    PlainOk([], "", 0, 0);
    NothingLoaded();
    hide DiskOk;
  }

  lemma PairDelete()
    ensures Next(TwoShards(), Pair(Kept(), [], map[K := "z"]), Execute(Del(K), 1), Pair(Deleted(), [Logged(Del(K), 1)], map[]))
  {
    var c, e := TwoShards(), Shard([], "", 0, 0);
    EmptyShard();
    assert Apply(Del(K), map[K := "z"]) == map[];
    hide Writes, Apply, DiskOk, View;
    forall i | 0 <= i < 2
      ensures Writes([e, Kept()][i], [e, Deleted()][i], Del(K), k => IsHome(c, i, k))
    {
      if i == 0 {
        EmptyIdle(e, Del(K), k => IsHome(c, i, k));
      } else {
        DeleteWrites(k => IsHome(c, i, k));
      }
    }
    assert [] + [Logged(Del(K), 1)] == [Logged(Del(K), 1)];
  }

  lemma PairNoMatch(all: Key -> bool)
    ensures var wal := [Logged(Del(K), 1)];
            Next(TwoShards(), Pair(Deleted(), wal, map[]), Execute(SetBy(all, "y", None), 0),
                 Pair(Deleted(), wal + [Logged(SetBy(all, "y", None), 0)], map[]))
  {
    var c, cmd := TwoShards(), SetBy(all, "y", None);
    var db := Pair(Deleted(), [Logged(Del(K), 1)], map[]);
    AllIdle(cmd);
    ModeHome();
    NothingSet(cmd);
    hide AllWrite, Apply, Crash.IsMode, Shard, Deleted;
  }

  lemma NothingSet(cmd: Command)
    requires cmd.SetBy?
    ensures Apply(cmd, map[]) == map[]
  {
  }

  lemma AllIdle(cmd: Command)
    requires cmd.SetBy?
    ensures var disks := [Shard([], "", 0, 0), Deleted()]; AllWrite(TwoShards(), disks, disks, cmd)
  {
    var c, disks := TwoShards(), [Shard([], "", 0, 0), Deleted()];
    EmptyShard();
    Deletes();
    DeleteWrites(_ => false);
    hide Writes, DiskOk, View;
    forall i | 0 <= i < 2
      ensures Writes(disks[i], disks[i], cmd, k => IsHome(c, i, k))
    {
      EmptyIdle(disks[i], cmd, k => IsHome(c, i, k));
    }
  }

  /** The crash keeps what was synced: the INDEX without the tombstone. */
  lemma DeletedBoot() returns (img: Image, d': Disk)
    ensures DiskOk(Deleted()) && IsImage(Deleted(), img) && Booted(img, d') && Holds(d', K) == Some("z")
  {
    hide *;
    DeleteWrites(_ => false);
    img, d' := PairBoot();
    DeletedFiles();
    SameImage(Kept(), Deleted(), img);
  }

  lemma DeletedFiles()
    ensures Kept() == Shard([At(0, 1), At(1, 1), At(2, 1)], "xyz", 3, 3)
    ensures Kept().logMark == Deleted().logMark == |Kept().engine.log| && Kept().engine.log <= Deleted().engine.log
    ensures Kept().segMark == Deleted().segMark && Kept().engine.store.segs == Deleted().engine.store.segs
  {
  }

  /** What a crash may leave of a synced INDEX it may leave when records follow. */
  lemma SameImage(d: Disk, d': Disk, img: Image)
    requires d.logMark == d'.logMark == |d.engine.log| && d.engine.log <= d'.engine.log && IsImage(d, img)
    requires d.segMark == d'.segMark && d.engine.store.segs == d'.engine.store.segs
    ensures IsImage(d', img)
  {
    var log, log' := d.engine.log, d'.engine.log;
    assert log'[..|log|] == log == log[..|log|] && log' == log + log'[|log|..];
    SerializeAllConcat(log, log'[|log|..]);
    hide SerializeAll;
  }

  /** Only the record of shard 0 is durable. */
  function SecondOnly(): nat -> bool {
    (i: nat) => i == 1
  }

  lemma PickSecond(wal: seq<Logged>)
    requires |wal| == 2
    ensures LostTail.Pick(wal, SecondOnly()) == [wal[1]]
  {
    assert wal[..1][..0] == [] && LostTail.Pick(wal[..1], SecondOnly()) == [];
  }

  lemma NeverY(cmd: Command)
    requires cmd.SetBy? && cmd == SetBy(cmd.matches, "y", None)
    ensures !LostTail.PastValue([Del(K), cmd], K, Some("z"), 0, Some("y"))
  {
    var log := [Del(K), cmd];
    assert log[..0] == [] && log[..1] == [Del(K)] && log[..2] == log;
    OverwrittenAppend([], Del(K), K);
    OverwrittenAppend([Del(K)], cmd, K);
    assert [] + [Del(K)] == [Del(K)] && [Del(K)] + [cmd] == log;
    assert Effects([], K, Some("z")) == Some("z") && Effects([Del(K)], K, Some("z")) == None == Effects(log, K, Some("z"));
    hide Effects;
    assert forall i :: 0 <= i <= 2 ==> Effects(log[..i], K, Some("z")) != Some("y");
  }

  lemma EpochTwo(a: DB, b: DB, c: DB, first: Step, second: Step)
    requires LostTail.JustFlushed(TwoShards(), a) && |a.disks| == |b.disks| == 2 && first.Execute? && second.Execute?
    requires Next(TwoShards(), a, first, b) && Next(TwoShards(), b, second, c)
    ensures LostTail.IsEpoch(TwoShards(), [first, second], [a, b, c])
  {
    hide Next, LostTail.JustFlushed;
  }

  /**
   * The case of a pattern set in `LostTailExact`: the key is deleted, then all keys are set to `y`,
   * which finds none. The deletion is logged in one shard and lost; the pattern set is logged in
   * another and durable. Its replay finds the key, which comes back with a value it never had.
   */
  lemma PatternRevives(all: Key -> bool) returns (steps: seq<Step>, states: seq<DB>, images: seq<Image>, booted: DB)
    requires forall k :: all(k)
    ensures LostTail.IsEpoch(TwoShards(), steps, states) && |steps| == 2 && |booted.disks| == 2
    ensures LostTail.CrashesLosing(states[2], booted, images, SecondOnly()) && Lookup(states[2].live, K) == None
    ensures var log := Crash.Commands(states[2].wal); var now := Effects(Fitting(booted.pending, booted.segSize), K, Answer(TwoShards(), booted, K));
            now == Some("y") && !LostTail.PastValue(log, K, Lookup(states[0].live, K), 0, now)
  {
    hide *;
    var cmd := SetBy(all, "y", None);
    var first, wal, rest := [Logged(Del(K), 1)], [Logged(Del(K), 1), Logged(cmd, 0)], [Logged(cmd, 0)];
    PairCleared(all);
    PairDelete();
    PairNoMatch(all);
    assert first + [Logged(cmd, 0)] == wal;
    var img, d' := DeletedBoot();
    CrashTwo(Deleted(), img, d', rest, map[]);
    OneCommand(cmd, 0, SIZE, Some("z"));
    Overwrites2(cmd);
    NeverY(cmd);
    PickSecond(wal);
    var s0, s1, s2 := Pair(Kept(), [], map[K := "z"]), Pair(Deleted(), first, map[]), Pair(Deleted(), wal, map[]);
    PairFields(Kept(), [], map[K := "z"]);
    PairFields(Deleted(), first, map[]);
    PairFields(Deleted(), wal, map[]);
    EpochTwo(s0, s1, s2, Execute(Del(K), 1), Execute(cmd, 0));
    steps, states := [Execute(Del(K), 1), Execute(cmd, 0)], [s0, s1, s2];
    images := [Image("", map[1 := ""]), img];
    booted := DB([Shard([], "", 0, 0), d'], rest, map[], Crash.Commands(rest), SIZE);
    LosesFirst(wal, rest, images, booted);
    TwoCommands(wal);
    NoLive();
  }

  lemma PairFields(d: Disk, wal: seq<Logged>, live: map<Key, Value>)
    ensures var db := Pair(d, wal, live); |db.disks| == 2 && db.wal == wal && db.live == live
  {
  }

  lemma NoLive()
    ensures Lookup<Key, Value>(map[], K) == None && Lookup(map[K := "z"], K) == Some("z")
  {
  }

  lemma TwoCommands(wal: seq<Logged>)
    requires |wal| == 2
    ensures Crash.Commands(wal) == [wal[0].cmd, wal[1].cmd]
  {
  }

  lemma LosesFirst(wal: seq<Logged>, rest: seq<Logged>, images: seq<Image>, booted: DB)
    requires LostTail.Pick(wal, SecondOnly()) == rest && Crashes(Pair(Deleted(), rest, map[]), booted, images)
    ensures LostTail.CrashesLosing(Pair(Deleted(), wal, map[]), booted, images, SecondOnly())
  {
    hide Crashes, LostTail.Pick;
    assert Pair(Deleted(), wal, map[]).(wal := rest) == Pair(Deleted(), rest, map[]);
  }
}
