/**
 * Group commit against the flush cycle: sessions apply commands, log them, sync every WAL once
 * per batch and only then acknowledge, while the flusher writes all data and clears the WALs.
 */
module GroupCommit {
  import opened Base
  import opened Bytes
  import opened WalLog
  import Misread
  import Tokenizer

  /** A write: its command line, the shards its effects are in, and the shard whose WAL records it. */
  datatype Write = Write(cmd: string, home: nat, touched: set<nat>)

  datatype SessionState =
    | Ready
    | Applied(id: nat)               // holds writeMtx shared
    | Syncing(next: nat, ok: bool)
    | Closed

  /** `mine`: the successful writes of the current batch. */
  datatype Session = Session(state: SessionState, mine: set<nat>)

  datatype FlusherState =
    | Resting
    | Flushing(todo: set<nat>, ok: bool)  // holds writeMtx exclusively
    | Clearing(next: nat)                 // still holds it

  datatype World = World(
    writes: seq<Write>,            // write number i is writes[i]
    wals: seq<Wal>,
    nextSeq: nat,                  // the next sequence number, shared by all WALs
    records: map<nat, WalEntry>,   // the record of each write whose append reported success
    behind: set<nat>,              // those whose WAL ended clean before it
    applied: seq<set<nat>>,        // per shard: the writes its memory shows
    flushed: seq<set<nat>>,        // per shard: the writes its synced data files show
    sessions: seq<Session>,
    flusher: FlusherState,
    acked: set<nat>)

  datatype Step =
    | Apply(session: nat, write: Write)
    | Append(session: nat, fault: Option<nat>)  // with a fault only so many bytes arrive
    | BeginSync(session: nat)
    | SyncNext(session: nat, ioOk: bool)
    | Acknowledge(session: nat)
    | BeginFlush
    | FlushShard(shard: nat, ioOk: bool)
    | EndFlush
    | ClearNext

  function Start(shards: nat, sessions: nat): World {
    World([], seq(shards, _ => Wal("", 0, false, true)), 0, map[], {}, seq(shards, _ => {}), seq(shards, _ => {}),
          seq(sessions, _ => Session(Ready, {})), Resting, {})
  }

  predicate NoReaders(w: World) {
    forall i :: 0 <= i < |w.sessions| ==> !w.sessions[i].state.Applied?
  }

  /** One atomic step; a step whose guard does not hold leaves the world as it is. */
  function Next(w: World, step: Step): World {
    match step
    case Apply(i, write) =>
      // shared lock: only while the flusher does not hold it exclusively
      if i < |w.sessions| && w.sessions[i].state.Ready? && w.flusher.Resting?
         && write.home < |w.wals| && (forall s :: s in write.touched ==> s < |w.wals|)
      then
        var id := |w.writes|;
        w.(writes := w.writes + [write],
           applied := seq(|w.applied|, s requires 0 <= s < |w.applied| =>
             if s in write.touched then w.applied[s] + {id} else w.applied[s]),
           sessions := w.sessions[i := w.sessions[i].(state := Applied(id))])
      else w
    case Append(i, fault) =>
      if i < |w.sessions| && w.sessions[i].state.Applied? && w.sessions[i].state.id < |w.writes|
         && w.writes[w.sessions[i].state.id].home < |w.wals|
         && Fits(WalEntry(w.writes[w.sessions[i].state.id].cmd, w.nextSeq))
      then
        var id := w.sessions[i].state.id;
        var home := w.writes[id].home;
        var e, l := WalEntry(w.writes[id].cmd, w.nextSeq), w.wals[home];
        var w1 := w.(wals := w.wals[home := AppendBytes(l, Arrived(e, fault))], nextSeq := w.nextSeq + 1);
        if fault.None?
        then w1.(records := w.records[id := e],
                 behind := if EndsClean(l.file) then w.behind + {id} else w.behind,
                 sessions := w.sessions[i := Session(Ready, w.sessions[i].mine + {id})])
        else w1.(sessions := w.sessions[i := w.sessions[i].(state := Ready)])
      else w
    case BeginSync(i) =>
      if i < |w.sessions| && w.sessions[i].state.Ready?
      then w.(sessions := w.sessions[i := w.sessions[i].(state := Syncing(0, true))])
      else w
    case SyncNext(i, ioOk) =>
      if i < |w.sessions| && w.sessions[i].state.Syncing? && w.sessions[i].state.next < |w.wals|
      then
        var j := w.sessions[i].state.next;
        var (l, ok) := SyncWal(w.wals[j], ioOk);
        w.(wals := w.wals[j := l],
           sessions := w.sessions[i := w.sessions[i].(state := Syncing(j + 1, w.sessions[i].state.ok && ok))])
      else w
    case Acknowledge(i) =>
      if i < |w.sessions| && w.sessions[i].state.Syncing? && w.sessions[i].state.next >= |w.wals|
      then
        if w.sessions[i].state.ok
        then w.(acked := w.acked + w.sessions[i].mine, sessions := w.sessions[i := Session(Ready, {})])
        else w.(sessions := w.sessions[i := w.sessions[i].(state := Closed)])
      else w
    case BeginFlush =>
      if w.flusher.Resting? && NoReaders(w)
      then w.(flusher := Flushing(Below(|w.wals|), true))
      else w
    case FlushShard(s, ioOk) =>
      if w.flusher.Flushing? && s in w.flusher.todo && s < |w.flushed| && s < |w.applied|
      then
        var flusher := Flushing(w.flusher.todo - {s}, w.flusher.ok && ioOk);
        if ioOk then w.(flushed := w.flushed[s := w.applied[s]], flusher := flusher)
        else w.(flusher := flusher)
      else w
    case EndFlush =>
      if w.flusher.Flushing? && w.flusher.todo == {}
      then w.(flusher := if w.flusher.ok then Clearing(0) else Resting)
      else w
    case ClearNext =>
      if w.flusher.Clearing?
      then
        var j := w.flusher.next;
        if j < |w.wals| then w.(wals := w.wals[j := ClearWal(w.wals[j])], flusher := Clearing(j + 1))
        else w.(flusher := Resting)
      else w
  }

  function Run(shards: nat, sessions: nat, steps: seq<Step>): World {
    if steps == [] then Start(shards, sessions)
    else Next(Run(shards, sessions, steps[..|steps| - 1]), steps[|steps| - 1])
  }

  // -------------------------------------------------------------- the claim

  /** The reader finds its record among the bytes of the WAL that are on disk. */
  ghost predicate Durable(w: World, id: nat) {
    && id < |w.writes| && w.writes[id].home < |w.wals| && id in w.records
    && var l := w.wals[w.writes[id].home];
       l.synced <= |l.file| && w.records[id] in Decode(l.file[..l.synced])
  }

  /** All its effects are in synced data files. */
  ghost predicate Covered(w: World, id: nat) {
    && id < |w.writes|
    && forall s :: s in w.writes[id].touched ==> s < |w.flushed| && id in w.flushed[s]
  }

  ghost predicate Safe(w: World, id: nat) {
    Durable(w, id) || Covered(w, id)
  }

  /** Readable from its WAL, synced or not, or already covered. */
  ghost predicate Kept(w: World, id: nat) {
    || Covered(w, id)
    || (id < |w.writes| && w.writes[id].home < |w.wals| && id in w.records
        && w.records[id] in Decode(w.wals[w.writes[id].home].file))
  }

  /** All its effects are in the shards' memory. */
  ghost predicate InMemory(w: World, id: nat) {
    && id < |w.writes|
    && forall s :: s in w.writes[id].touched ==> s < |w.applied| && id in w.applied[s]
  }

  ghost predicate Shape(w: World) {
    && |w.wals| == |w.applied| == |w.flushed|
    && (forall j :: 0 <= j < |w.wals| ==> WalOk(w.wals[j]))
    && (forall id :: 0 <= id < |w.writes| ==> w.writes[id].home < |w.wals|)
    && (forall id :: 0 <= id < |w.writes| ==> InMemory(w, id))
    && (forall s :: 0 <= s < |w.wals| ==> w.flushed[s] <= w.applied[s])
    && (forall id :: id in w.behind ==> id in w.records) && (forall id :: id in w.records ==> id < |w.writes|)
  }

  /** What the flusher has achieved; nothing is applied while it holds the lock. */
  ghost predicate FlusherOk(w: World)
    requires Shape(w)
  {
    && (!w.flusher.Resting? ==> NoReaders(w))
    && (w.flusher.Flushing? && w.flusher.ok ==>
         forall s :: 0 <= s < |w.wals| && s !in w.flusher.todo ==> w.flushed[s] == w.applied[s])
    && (w.flusher.Clearing? ==> forall s :: 0 <= s < |w.wals| ==> w.flushed[s] == w.applied[s])
  }

  /** The batch of a session: logged or covered, and safe as far as its syncs have come. */
  ghost predicate SessionOk(w: World, me: Session) {
    && (me.state.Applied? ==> me.state.id < |w.writes| && me.state.id !in w.records)
    && (forall id :: id in me.mine ==> id in w.records && id < |w.writes| && (id in w.behind ==> Kept(w, id)))
    && (me.state.Syncing? && me.state.ok ==>
         forall id :: id in me.mine && id in w.behind && w.writes[id].home < me.state.next ==> Safe(w, id))
  }

  ghost predicate Inv(w: World) {
    && Shape(w) && FlusherOk(w)
    && (forall i :: 0 <= i < |w.sessions| ==> SessionOk(w, w.sessions[i]))
    && (forall i, j :: 0 <= i < j < |w.sessions| && w.sessions[i].state.Applied? && w.sessions[j].state.Applied? ==>
         w.sessions[i].state.id != w.sessions[j].state.id)
    && (forall id :: id in w.acked ==> id in w.records && id < |w.writes| && (id in w.behind ==> Safe(w, id)))
  }

  /** Progress that no step ever undoes for a write that has it. */
  ghost predicate Keeps(w: World, w': World) {
    && |w.writes| <= |w'.writes| && (forall id :: 0 <= id < |w.writes| ==> w'.writes[id] == w.writes[id])
    && (forall id :: id in w.records ==> id in w'.records && (id in w'.behind ==> id in w.behind))
    && (forall id :: Covered(w, id) ==> Covered(w', id))
    && (forall id :: id in w.records && Kept(w, id) ==> Kept(w', id))
    && (forall id :: id in w.records && Safe(w, id) ==> Safe(w', id))
  }

  lemma SessionKept(w: World, w': World, me: Session)
    requires Keeps(w, w') && SessionOk(w, me) && (me.state.Applied? ==> me.state.id !in w'.records)
    ensures SessionOk(w', me)
  {
  }

  /** Enough for the invariant: no progress is undone, and the one session that moved is fine. */
  lemma Combine(w: World, w': World, i: nat)
    requires Inv(w) && Keeps(w, w') && Shape(w') && FlusherOk(w')
    requires |w'.sessions| == |w.sessions|
    requires forall j :: 0 <= j < |w.sessions| && j != i ==> w'.sessions[j] == w.sessions[j]
    requires forall j :: 0 <= j < |w.sessions| && j != i && w.sessions[j].state.Applied? ==>
               && w.sessions[j].state.id !in w'.records
               && (i < |w.sessions| && w'.sessions[i].state.Applied? ==> w'.sessions[i].state.id != w.sessions[j].state.id)
    requires i < |w.sessions| ==> SessionOk(w', w'.sessions[i])
    requires forall id :: id in w'.acked && id !in w.acked ==> id in w'.records && id < |w'.writes| && (id in w'.behind ==> Safe(w', id))
    ensures Inv(w')
  {
    forall j | 0 <= j < |w'.sessions|
      ensures SessionOk(w', w'.sessions[j])
    {
      if j != i {
        SessionKept(w, w', w.sessions[j]);
      }
    }
    forall id | id in w'.acked
      ensures id in w'.records && id < |w'.writes| && (id in w'.behind ==> Safe(w', id))
    {
      if id in w.acked {
        assert id in w.records && id < |w.writes|;
      }
    }
  }

  /** Memory only grows. */
  lemma MemoryKept(w: World, w': World)
    requires Shape(w) && |w.applied| == |w'.applied| && |w.writes| <= |w'.writes|
    requires forall id :: 0 <= id < |w.writes| ==> w'.writes[id] == w.writes[id]
    requires forall s :: 0 <= s < |w.applied| ==> w.applied[s] <= w'.applied[s]
    ensures forall id :: 0 <= id < |w.writes| ==> InMemory(w', id)
  {
    forall id | 0 <= id < |w.writes|
      ensures InMemory(w', id)
    {
      assert InMemory(w, id);
    }
  }

  /** The WALs as they were, and data files that show no less. */
  lemma FilesKept(w: World, w': World)
    requires w'.wals == w.wals && w'.records == w.records && w'.behind == w.behind && w.writes <= w'.writes
    requires |w.flushed| == |w'.flushed| && forall s :: 0 <= s < |w.flushed| ==> w.flushed[s] <= w'.flushed[s]
    requires forall id :: id in w.records ==> id < |w.writes|
    ensures Keeps(w, w')
  {
    hide Decode;
  }

  lemma ApplyInv(w: World, i: nat, write: Write)
    requires Inv(w)
    ensures Inv(Next(w, Apply(i, write)))
  {
    var w' := Next(w, Apply(i, write));
    if w' != w {
      MemoryKept(w, w');
      FilesKept(w, w');
      hide Kept, Safe, Covered, Keeps;
      assert forall j :: 0 <= j < |w.sessions| && w.sessions[j].state.Applied? ==> SessionOk(w, w.sessions[j]);
      Combine(w, w', i);
    }
  }

  /** Bytes appended to one WAL: what was readable or durable in it stays so. */
  lemma BytesKept(w: World, home: nat, bytes: string)
    requires home < |w.wals| && WalOk(w.wals[home])
    ensures var w' := w.(wals := w.wals[home := AppendBytes(w.wals[home], bytes)]);
            && (forall id :: Kept(w, id) ==> Kept(w', id))
            && (forall id :: Safe(w, id) ==> Safe(w', id))
            && WalOk(w'.wals[home])
  {
    var l := w.wals[home];
    var l' := AppendBytes(l, bytes);
    DecodeMonotone(l.file, bytes);
    assert forall e :: e in Decode(l.file) ==> e in Decode(l'.file);
    assert l'.file[..l.synced] == l.file[..l.synced];
    hide Decode;
  }

  lemma AppendInv(w: World, i: nat, fault: Option<nat>)
    requires Inv(w)
    ensures Inv(Next(w, Step.Append(i, fault)))
  {
    var w' := Next(w, Step.Append(i, fault));
    if w' != w {
      AppendKeeps(w, w', i, fault);
      AppendSession(w, w', i, fault);
      MemoryKept(w, w');
      SessionsOk(w);
      hide Decode, EndsClean, Arrived, Kept, Safe, Covered, SessionOk, Keeps;
      Combine(w, w', i);
    }
  }

  /** The session that appended: its record, if it is one of those that count, is readable. */
  lemma AppendSession(w: World, w': World, i: nat, fault: Option<nat>)
    requires Inv(w) && w' == Next(w, Step.Append(i, fault)) && w' != w
    ensures i < |w'.sessions| && SessionOk(w', w'.sessions[i])
  {
    AppendReadable(w, w', i, fault);
    AppendKeeps(w, w', i, fault);
    assert SessionOk(w, w.sessions[i]);
    hide Decode, EndsClean, Encode, Arrived, Safe, Covered, Kept, Shape, FlusherOk;
  }

  lemma AppendReadable(w: World, w': World, i: nat, fault: Option<nat>)
    requires Inv(w) && w' == Next(w, Step.Append(i, fault)) && w' != w
    ensures var id := w.sessions[i].state.id; fault.None? && id in w'.behind ==> Kept(w', id)
  {
    assert SessionOk(w, w.sessions[i]);
    var id := w.sessions[i].state.id;
    var home := w.writes[id].home;
    var e, l := WalEntry(w.writes[id].cmd, w.nextSeq), w.wals[home];
    if fault.None? && id in w'.behind {
      assert EndsClean(l.file);
      OneRecord(e);
      DecodeBehind(l.file, Encode(e));
      assert e in Decode(l.file + Encode(e));
      assert w'.wals[home].file == l.file + Encode(e);
    }
    hide Decode, EndsClean, Encode, Safe, Covered, Shape, FlusherOk, SessionOk;
  }

  lemma AppendKeeps(w: World, w': World, i: nat, fault: Option<nat>)
    requires Inv(w) && w' == Next(w, Step.Append(i, fault)) && w' != w
    ensures Keeps(w, w')
  {
    var id := w.sessions[i].state.id;
    var home := w.writes[id].home;
    var bytes := Arrived(WalEntry(w.writes[id].cmd, w.nextSeq), fault);
    var w1 := w.(wals := w.wals[home := AppendBytes(w.wals[home], bytes)]);
    BytesKept(w, home, bytes);
    hide Decode, EndsClean, Arrived;
    assert SessionOk(w, w.sessions[i]);
    forall x | x in w.records
      ensures Kept(w1, x) ==> Kept(w', x)
      ensures Safe(w1, x) ==> Safe(w', x)
    {
      assert x != id;
    }
  }

  /** A sync loses nothing, and makes safe what is readable, if it succeeds. */
  lemma SyncKept(w: World, j: nat, ioOk: bool)
    requires j < |w.wals| && WalOk(w.wals[j])
    ensures var (l, ok) := SyncWal(w.wals[j], ioOk); var w' := w.(wals := w.wals[j := l]);
            && WalOk(l)
            && (forall id :: Kept(w, id) ==> Kept(w', id))
            && (forall id :: Safe(w, id) ==> Safe(w', id))
            && (ok ==> forall id :: 0 <= id < |w.writes| && w.writes[id].home == j && Kept(w, id) ==> Safe(w', id))
  {
    var l := w.wals[j];
    assert l.file[..|l.file|] == l.file;
    DecodeMonotone(l.file[..l.synced], l.file[l.synced..]);
    assert l.file[..l.synced] + l.file[l.synced..] == l.file;
    assert forall e :: e in Decode(l.file[..l.synced]) ==> e in Decode(l.file);
    hide Decode;
  }

  lemma SyncInv(w: World, i: nat, ioOk: bool)
    requires Inv(w)
    ensures Inv(Next(w, SyncNext(i, ioOk)))
  {
    var w' := Next(w, SyncNext(i, ioOk));
    if w' != w {
      var me, j := w.sessions[i], w.sessions[i].state.next;
      SyncKept(w, j, ioOk);
      var w1 := w.(wals := w'.wals);
      FilesKept(w1, w');
      MemoryKept(w, w');
      assert SessionOk(w, me);
      hide Kept, Safe, Covered;
      CoveredSame(w, w');
      SessionsOk(w);
      Combine(w, w', i);
    }
  }

  lemma CoveredSame(w: World, w': World)
    requires w'.writes == w.writes && w'.flushed == w.flushed
    ensures forall id :: Covered(w, id) ==> Covered(w', id)
  {
  }

  lemma SessionStepInv(w: World, i: nat, step: Step)
    requires Inv(w) && (step == BeginSync(i) || step == Acknowledge(i))
    ensures Inv(Next(w, step))
  {
    var w' := Next(w, step);
    if w' != w {
      MemoryKept(w, w');
      FilesKept(w, w');
      SessionKept(w, w', w.sessions[i]);
      SafeIsKept(w, w');
      hide Kept, Covered, Safe;
      Combine(w, w', i);
    }
  }

  lemma FlushInv(w: World, step: Step)
    requires Inv(w) && (step.BeginFlush? || step.FlushShard? || step.EndFlush?)
    ensures Inv(Next(w, step))
  {
    var w' := Next(w, step);
    if w' != w {
      MemoryKept(w, w');
      FilesKept(w, w');
      hide Kept, Safe, Covered, Keeps, SessionOk;
      SessionsOk(w);
      Combine(w, w', |w.sessions|);
    }
  }

  lemma SessionsOk(w: World)
    requires Inv(w)
    ensures forall j :: 0 <= j < |w.sessions| && w.sessions[j].state.Applied? ==> w.sessions[j].state.id !in w.records
  {
    assert forall j :: 0 <= j < |w.sessions| ==> SessionOk(w, w.sessions[j]);
  }

  lemma SafeIsKept(w: World, w': World)
    requires Keeps(w, w')
    ensures forall id :: id in w.records && Safe(w, id) ==> Safe(w', id)
  {
  }

  /** Clearing a WAL loses nothing: while the flusher clears, every logged write is covered. */
  lemma ClearInv(w: World)
    requires Inv(w)
    ensures Inv(Next(w, ClearNext))
  {
    var w' := Next(w, ClearNext);
    if w' != w {
      MemoryKept(w, w');
      forall id | 0 <= id < |w.writes| && w.flusher.Clearing?
        ensures Covered(w, id) && Covered(w', id)
      {
        assert InMemory(w, id);
      }
      assert Keeps(w, w');
      Combine(w, w', |w.sessions|);
    }
  }

  lemma {:induction false} RunInv(shards: nat, sessions: nat, steps: seq<Step>)
    ensures Inv(Run(shards, sessions, steps))
  {
    if steps != [] {
      RunInv(shards, sessions, steps[..|steps| - 1]);
      var w, step := Run(shards, sessions, steps[..|steps| - 1]), steps[|steps| - 1];
      match step
      case Apply(i, write) => ApplyInv(w, i, write);
      case Append(i, fault) => AppendInv(w, i, fault);
      case BeginSync(i) => SessionStepInv(w, i, step);
      case SyncNext(i, ioOk) => SyncInv(w, i, ioOk);
      case Acknowledge(i) => SessionStepInv(w, i, step);
      case BeginFlush => FlushInv(w, step);
      case FlushShard(_, _) => FlushInv(w, step);
      case EndFlush => FlushInv(w, step);
      case ClearNext => ClearInv(w);
    }
  }

  /**
   * In every interleaving of sessions and flusher, failed and partial appends, failed syncs and
   * flushes included: an acknowledged write has a record that the reader finds on disk, or all its
   * effects in synced data files, if its WAL ended clean when it was appended.
   */
  lemma {:induction false} AcknowledgedIsSafe(shards: nat, sessions: nat, steps: seq<Step>, id: nat)
    requires id in Run(shards, sessions, steps).acked && id in Run(shards, sessions, steps).behind
    ensures Safe(Run(shards, sessions, steps), id)
  {
    RunInv(shards, sessions, steps);
  }

  /** A step that leaves part of a record: an append with a fault that some but not all bytes survive. */
  predicate Tears(w: World, step: Step) {
    && step.Append? && step.fault.Some? && step.session < |w.sessions|
    && w.sessions[step.session].state.Applied? && w.sessions[step.session].state.id < |w.writes|
    && 0 < step.fault.value < 13 + |w.writes[w.sessions[step.session].state.id].cmd|
  }

  ghost predicate Untorn(shards: nat, sessions: nat, steps: seq<Step>) {
    forall i :: 0 <= i < |steps| ==> !Tears(Run(shards, sessions, steps[..i]), steps[i])
  }

  /** All WALs end clean, and did so whenever a record was appended. */
  ghost predicate AllClean(w: World) {
    && (forall s :: 0 <= s < |w.wals| ==> EndsClean(w.wals[s].file))
    && (forall id :: id in w.records ==> id in w.behind)
  }

  /** Without such a step every acknowledged write is safe, other failures notwithstanding. */
  lemma UntornIsSafe(shards: nat, sessions: nat, steps: seq<Step>)
    requires Untorn(shards, sessions, steps)
    ensures forall id :: id in Run(shards, sessions, steps).acked ==> Safe(Run(shards, sessions, steps), id)
  {
    hide Run, Untorn, Safe, SessionOk, EndsClean;
    UntornIsClean(shards, sessions, steps);
    RunInv(shards, sessions, steps);
  }

  /** Every WAL ends clean all the time then. */
  lemma {:induction false} UntornIsClean(shards: nat, sessions: nat, steps: seq<Step>)
    requires Untorn(shards, sessions, steps)
    ensures AllClean(Run(shards, sessions, steps))
  {
    hide AllClean, Tears, Next, Start;
    if steps == [] {
      StartClean(shards, sessions);
    } else {
      var n := |steps| - 1;
      var front := steps[..n];
      assert forall i :: 0 <= i < n ==> front[..i] == steps[..i] && front[i] == steps[i];
      UntornIsClean(shards, sessions, front);
      UntornStep(Run(shards, sessions, front), steps[n]);
    }
  }

  lemma StartClean(shards: nat, sessions: nat)
    ensures AllClean(Start(shards, sessions))
  {
  }

  lemma {:induction false} UntornStep(w: World, step: Step)
    requires !Tears(w, step) && AllClean(w)
    ensures AllClean(Next(w, step))
  {
    CleanIs("");
    if step.Append? {
      UntornAppend(w, step.session, step.fault);
    }
    hide EndsClean, Encode, Arrived;
  }

  lemma {:induction false} UntornAppend(w: World, i: nat, fault: Option<nat>)
    requires !Tears(w, Step.Append(i, fault)) && AllClean(w)
    ensures AllClean(Next(w, Step.Append(i, fault)))
  {
    var w' := Next(w, Step.Append(i, fault));
    if w' != w {
      var id := w.sessions[i].state.id;
      var e := WalEntry(w.writes[id].cmd, w.nextSeq);
      var l := w.wals[w.writes[id].home];
      assert EndsClean(l.file + Arrived(e, fault)) by {
        assert Encode(e)[..|Encode(e)|] == Encode(e) && l.file + Encode(e)[..0] == l.file;
        OneRecord(e);
        DecodeBehind(l.file, Encode(e));
        hide Encode, EndsClean;
      }
      hide EndsClean, Arrived;
    }
  }

  // ------------------------------------------------ the next acknowledged write

  /** A session takes one write through: applied, logged, every WAL synced, acknowledged. */
  function Commit(i: nat, write: Write, wals: nat): seq<Step> {
    [Apply(i, write), Step.Append(i, None), BeginSync(i)] + seq(wals, _ => SyncNext(i, true)) + [Acknowledge(i)]
  }

  function RunFrom(w: World, steps: seq<Step>): World {
    if steps == [] then w else Next(RunFrom(w, steps[..|steps| - 1]), steps[|steps| - 1])
  }

  lemma {:induction false} RunConcat(shards: nat, sessions: nat, a: seq<Step>, b: seq<Step>)
    ensures Run(shards, sessions, a + b) == RunFrom(Run(shards, sessions, a), b)
  {
    hide Next;
    if b == [] {
      assert a + b == a;
    } else {
      assert (a + b)[..|a + b| - 1] == a + b[..|b| - 1];
      RunConcat(shards, sessions, a, b[..|b| - 1]);
    }
  }

  lemma RunStep(w: World, steps: seq<Step>, step: Step)
    ensures RunFrom(w, steps + [step]) == Next(RunFrom(w, steps), step)
  {
    hide Next;
    assert (steps + [step])[..|steps|] == steps;
  }

  /** A session may begin a write, and its record fits. */
  ghost predicate MayCommit(w: World, i: nat, write: Write) {
    && i < |w.sessions| && w.sessions[i].state.Ready? && w.flusher.Resting?
    && write.home < |w.wals| && write.touched == {write.home}
    && (forall id :: id in w.records ==> id < |w.writes|)
    && Fits(WalEntry(write.cmd, w.nextSeq))
  }

  /** The write is logged, the first `n` WALs are synced since, and nothing else has changed. */
  ghost predicate Committing(w: World, w': World, i: nat, write: Write, n: nat)
    requires MayCommit(w, i, write)
  {
    var id, e := |w.writes|, WalEntry(write.cmd, w.nextSeq);
    && w'.writes == w.writes + [write] && w'.records == w.records[id := e] && w'.flushed == w.flushed
    && (EndsClean(w.wals[write.home].file) ==> id in w'.behind)
    && |w'.wals| == |w.wals| && w'.wals[write.home].file == w.wals[write.home].file + Encode(e)
    && |w'.sessions| == |w.sessions| && id in w'.sessions[i].mine && w'.sessions[i].state == Syncing(n, true)
  }

  lemma Logs(w: World, i: nat, write: Write)
    requires MayCommit(w, i, write)
    ensures Committing(w, RunFrom(w, [Apply(i, write), Step.Append(i, None), BeginSync(i)]), i, write, 0)
  {
    hide Encode, EndsClean, Fits;
    var a, b, c := Apply(i, write), Step.Append(i, None), BeginSync(i);
    RunStep(w, [], a);
    RunStep(w, [a], b);
    RunStep(w, [a, b], c);
    assert [] + [a] == [a] && [a] + [b] == [a, b] && [a, b] + [c] == [a, b, c];
    hide RunFrom;
    var w1 := Next(w, a);
    var w2 := Next(w1, b);
    Applies(w, i, write);
    Appends(w, w1, i, write);
    hide MayCommit;
    assert Next(w2, c) == w2.(sessions := w2.sessions[i := w2.sessions[i].(state := Syncing(0, true))]);
  }

  lemma Applies(w: World, i: nat, write: Write)
    requires MayCommit(w, i, write)
    ensures var w1 := Next(w, Apply(i, write));
            && w1.writes == w.writes + [write] && w1.records == w.records && w1.flushed == w.flushed && w1.behind == w.behind
            && w1.wals == w.wals && w1.nextSeq == w.nextSeq
            && w1.sessions == w.sessions[i := w.sessions[i].(state := Applied(|w.writes|))]
  {
    hide Fits;
  }

  lemma Appends(w: World, w1: World, i: nat, write: Write)
    requires MayCommit(w, i, write)
    requires w1.writes == w.writes + [write] && w1.records == w.records && w1.flushed == w.flushed && w1.behind == w.behind
    requires w1.wals == w.wals && w1.nextSeq == w.nextSeq
    requires w1.sessions == w.sessions[i := w.sessions[i].(state := Applied(|w.writes|))]
    ensures var w2, id, e := Next(w1, Step.Append(i, None)), |w.writes|, WalEntry(write.cmd, w.nextSeq);
            && w2.writes == w1.writes && w2.records == w.records[id := e] && w2.flushed == w.flushed
            && (EndsClean(w.wals[write.home].file) ==> id in w2.behind)
            && |w2.wals| == |w.wals| && w2.wals[write.home].file == w.wals[write.home].file + Encode(e)
            && |w2.sessions| == |w.sessions| && w2.sessions[i] == Session(Ready, w.sessions[i].mine + {id})
  {
    hide Encode, EndsClean, Fits;
    assert w1.writes[|w.writes|] == write;
  }

  lemma Syncs(w: World, w': World, i: nat, write: Write, n: nat)
    requires MayCommit(w, i, write) && Committing(w, w', i, write, n) && n < |w.wals|
    ensures Committing(w, Next(w', SyncNext(i, true)), i, write, n + 1)
  {
    hide Encode, EndsClean, Fits;
  }

  lemma {:induction false} SyncsAll(w: World, w': World, i: nat, write: Write, n: nat)
    requires MayCommit(w, i, write) && Committing(w, w', i, write, 0) && n <= |w.wals|
    ensures Committing(w, RunFrom(w', seq(n, _ => SyncNext(i, true))), i, write, n)
  {
    hide Committing, Next;
    if n > 0 {
      var front := seq(n - 1, _ => SyncNext(i, true));
      SyncsAll(w, w', i, write, n - 1);
      assert seq(n, _ => SyncNext(i, true)) == front + [SyncNext(i, true)];
      RunStep(w', front, SyncNext(i, true));
      Syncs(w, RunFrom(w', front), i, write, n - 1);
    }
  }

  lemma {:induction false} RunFromConcat(w: World, a: seq<Step>, b: seq<Step>)
    ensures RunFrom(w, a + b) == RunFrom(RunFrom(w, a), b)
  {
    hide Next;
    if b == [] {
      assert a + b == a;
    } else {
      assert (a + b)[..|a + b| - 1] == a + b[..|b| - 1];
      RunFromConcat(w, a, b[..|b| - 1]);
    }
  }

  /** The world after a commit, as far as the write is concerned. */
  lemma Committed(w: World, i: nat, write: Write)
    requires MayCommit(w, i, write)
    ensures var w', id, e := RunFrom(w, Commit(i, write, |w.wals|)), |w.writes|, WalEntry(write.cmd, w.nextSeq);
            && id in w'.acked && w'.writes == w.writes + [write] && w'.records == w.records[id := e] && w'.flushed == w.flushed
            && (EndsClean(w.wals[write.home].file) ==> id in w'.behind)
            && |w'.wals| == |w.wals| && w'.wals[write.home].file == w.wals[write.home].file + Encode(e)
  {
    hide EndsClean, Encode, Fits;
    var first, syncs := [Apply(i, write), Step.Append(i, None), BeginSync(i)], seq(|w.wals|, _ => SyncNext(i, true));
    Logs(w, i, write);
    SyncsAll(w, RunFrom(w, first), i, write, |w.wals|);
    RunFromConcat(w, first, syncs);
    RunStep(w, first + syncs, Acknowledge(i));
    hide RunFrom;
  }

  /** Logged in WAL `s`, synced and acknowledged next, the command is safe. */
  ghost predicate SafeNext(shards: nat, sessions: nat, steps: seq<Step>, i: nat, s: nat, cmd: string) {
    var w := Run(shards, sessions, steps);
    var w' := Run(shards, sessions, steps + Commit(i, Write(cmd, s, {s}), |w.wals|));
    |w.writes| in w'.acked && Safe(w', |w.writes|)
  }

  ghost predicate ReadsAsSet(cmd: string) {
    Tokenizer.Parse(cmd).Set? && |cmd| < POW32
  }

  /** The effects that memory or files show are those of writes there are. */
  ghost predicate Named(w: World) {
    && |w.flushed| == |w.applied|
    && forall s, id :: 0 <= s < |w.applied| && (id in w.applied[s] || id in w.flushed[s]) ==> id < |w.writes|
  }

  lemma {:induction false} RunNamed(shards: nat, sessions: nat, steps: seq<Step>)
    ensures Named(Run(shards, sessions, steps))
  {
    hide Named, Next;
    if steps == [] {
      StartNamed(shards, sessions);
    } else {
      RunNamed(shards, sessions, steps[..|steps| - 1]);
      StepNamed(Run(shards, sessions, steps[..|steps| - 1]), steps[|steps| - 1]);
    }
  }

  lemma StartNamed(shards: nat, sessions: nat)
    ensures Named(Start(shards, sessions))
  {
  }

  lemma StepNamed(w: World, step: Step)
    requires Named(w)
    ensures Named(Next(w, step))
  {
    hide Encode, EndsClean, Arrived, Fits, AppendBytes, SyncWal, ClearWal, Below, NoReaders;
    var w' := Next(w, step);
    if !step.Apply? && !step.FlushShard? {
      assert w'.applied == w.applied && w'.flushed == w.flushed && w'.writes == w.writes;
    }
  }

  /**
   * When a session is about to write and the flusher rests, in any reachable world: every `set`
   * logged in WAL `s`, synced and acknowledged next is safe if and only if that WAL ends clean. In
   * any case it is acknowledged.
   */
  lemma {:induction false} NextSetIsSafeExact(shards: nat, sessions: nat, steps: seq<Step>, i: nat, s: nat)
    requires var w := Run(shards, sessions, steps);
             && i < |w.sessions| && w.sessions[i].state.Ready? && w.flusher.Resting?
             && s < |w.wals| && |w.wals[s].file| < POW64 - 4 && w.nextSeq < POW64
    ensures (forall cmd :: ReadsAsSet(cmd) ==> SafeNext(shards, sessions, steps, i, s, cmd))
       <==> EndsClean(Run(shards, sessions, steps).wals[s].file)
  {
    hide *;
    var w := Run(shards, sessions, steps);
    if EndsClean(w.wals[s].file) {
      forall cmd | ReadsAsSet(cmd)
        ensures SafeNext(shards, sessions, steps, i, s, cmd)
      {
        SafeBehindClean(shards, sessions, steps, i, s, cmd);
      }
    } else {
      var cmd := LostBehindTorn(shards, sessions, steps, i, s);
    }
  }

  lemma CommitIn(shards: nat, sessions: nat, steps: seq<Step>, i: nat, s: nat, cmd: string)
    requires var w := Run(shards, sessions, steps);
             i < |w.sessions| && w.sessions[i].state.Ready? && w.flusher.Resting? && s < |w.wals| && w.nextSeq < POW64
    requires |cmd| < POW32
    ensures var w := Run(shards, sessions, steps); var b := Write(cmd, s, {s});
            MayCommit(w, i, b) && Run(shards, sessions, steps + Commit(i, b, |w.wals|)) == RunFrom(w, Commit(i, b, |w.wals|))
  {
    hide Run, SessionOk, Safe;
    RunInv(shards, sessions, steps);
    RunConcat(shards, sessions, steps, Commit(i, Write(cmd, s, {s}), |Run(shards, sessions, steps).wals|));
  }

  lemma SafeBehindClean(shards: nat, sessions: nat, steps: seq<Step>, i: nat, s: nat, cmd: string)
    requires var w := Run(shards, sessions, steps);
             && i < |w.sessions| && w.sessions[i].state.Ready? && w.flusher.Resting?
             && s < |w.wals| && w.nextSeq < POW64 && EndsClean(w.wals[s].file)
    requires ReadsAsSet(cmd)
    ensures SafeNext(shards, sessions, steps, i, s, cmd)
  {
    hide Run, RunFrom, EndsClean, Encode, Safe, Tokenizer.Parse, Commit, MayCommit;
    var w, b := Run(shards, sessions, steps), Write(cmd, s, {s});
    CommitIn(shards, sessions, steps, i, s, cmd);
    Committed(w, i, b);
    AcknowledgedIsSafe(shards, sessions, steps + Commit(i, b, |w.wals|), |w.writes|);
  }

  lemma LostBehindTorn(shards: nat, sessions: nat, steps: seq<Step>, i: nat, s: nat) returns (cmd: string)
    requires var w := Run(shards, sessions, steps);
             && i < |w.sessions| && w.sessions[i].state.Ready? && w.flusher.Resting?
             && s < |w.wals| && |w.wals[s].file| < POW64 - 4 && w.nextSeq < POW64 && !EndsClean(w.wals[s].file)
    ensures var w := Run(shards, sessions, steps);
            var w' := Run(shards, sessions, steps + Commit(i, Write(cmd, s, {s}), |w.wals|));
            |w.writes| in w'.acked && !Safe(w', |w.writes|)
    ensures ReadsAsSet(cmd) && !SafeNext(shards, sessions, steps, i, s, cmd)
  {
    hide Run, RunFrom, EndsClean, Encode, Safe, Decode, Tokenizer.Parse, Commit, MayCommit;
    var w := Run(shards, sessions, steps);
    var v := Misread.UnreadableSet(w.wals[s].file, w.nextSeq);
    cmd := "set k " + v;
    SetOfDigits(v);
    CommitIn(shards, sessions, steps, i, s, cmd);
    Committed(w, i, Write(cmd, s, {s}));
    RunNamed(shards, sessions, steps);
    Unfound(RunFrom(w, Commit(i, Write(cmd, s, {s}), |w.wals|)), |w.writes|, s);
  }

  /** A record the reader does not find in the whole file is not found in its durable part. */
  lemma Unfound(w: World, id: nat, s: nat)
    requires id < |w.writes| && w.writes[id].home == s && s in w.writes[id].touched && s < |w.wals| && id in w.records
    requires w.records[id] !in Decode(w.wals[s].file) && (s < |w.flushed| ==> id !in w.flushed[s])
    ensures !Safe(w, id)
  {
    var l := w.wals[s];
    if l.synced <= |l.file| {
      DecodeMonotone(l.file[..l.synced], l.file[l.synced..]);
      assert l.file[..l.synced] + l.file[l.synced..] == l.file;
    }
    hide Decode;
  }

  lemma SetOfDigits(v: string)
    requires |v| == 260 && Misread.Digits(v)
    ensures ReadsAsSet("set k " + v)
  {
    var cmd := "set k " + v;
    assert v[0] in v && v[259] in v;
    assert Tokenizer.SetLine(cmd, "", "set", " ", "k", " ", v, "");
    hide Tokenizer.SetLine, Tokenizer.Parse;
    Tokenizer.SetRoundTrip(cmd, "", "set", " ", "k", " ", v, "");
  }

  // ------------------------------------------------------------ the flush cycle

  /** One flush: every shard, with success or not, then every WAL. */
  function FlushCycle(shards: nat, ok: nat -> bool): seq<Step> {
    [BeginFlush] + Flushes(shards, ok) + [EndFlush] + Clears(shards + 1)
  }

  function Flushes(n: nat, ok: nat -> bool): seq<Step> {
    if n == 0 then [] else Flushes(n - 1, ok) + [FlushShard(n - 1, ok(n - 1))]
  }

  function Clears(n: nat): seq<Step> {
    if n == 0 then [] else Clears(n - 1) + [ClearNext]
  }

  /** The first `n` shards are flushed, those that can be. */
  ghost predicate Flushed(w: World, w': World, n: nat, ok: nat -> bool) {
    && w'.wals == w.wals && w'.applied == w.applied && w'.acked == w.acked && |w'.flushed| == |w.flushed| == |w.applied|
    && w'.flusher.Flushing? && (forall s :: s in w'.flusher.todo <==> n <= s < |w.wals|)
    && (w'.flusher.ok <==> forall s :: 0 <= s < n ==> ok(s))
    && (forall s :: 0 <= s < |w.flushed| ==> w'.flushed[s] == if s < n && ok(s) then w.applied[s] else w.flushed[s])
  }

  lemma FlushOne(w: World, w': World, n: nat, ok: nat -> bool)
    requires Flushed(w, w', n, ok) && n < |w.wals| == |w.flushed| == |w.applied|
    ensures Flushed(w, Next(w', FlushShard(n, ok(n))), n + 1, ok)
  {
  }

  lemma {:induction false} FlushEach(w: World, w': World, n: nat, ok: nat -> bool)
    requires Flushed(w, w', 0, ok) && n <= |w.wals| == |w.flushed| == |w.applied|
    ensures Flushed(w, RunFrom(w', Flushes(n, ok)), n, ok)
  {
    hide Flushed, Next;
    if n > 0 {
      var front := Flushes(n - 1, ok);
      FlushEach(w, w', n - 1, ok);
      RunStep(w', front, FlushShard(n - 1, ok(n - 1)));
      FlushOne(w, RunFrom(w', front), n - 1, ok);
    }
  }

  /** The first `n` WALs are cleared. */
  ghost predicate Cleared(w: World, w': World, n: nat) {
    && w'.flushed == w.flushed && w'.applied == w.applied && w'.acked == w.acked && |w'.wals| == |w.wals|
    && w'.flusher == Clearing(n)
    && (forall s :: 0 <= s < |w.wals| ==> if s < n then w'.wals[s].file == "" else w'.wals[s] == w.wals[s])
  }

  lemma ClearOne(w: World, w': World, n: nat)
    requires Cleared(w, w', n) && n < |w.wals| && WalOk(w.wals[n])
    ensures Cleared(w, Next(w', ClearNext), n + 1)
  {
  }

  lemma {:induction false} ClearEach(w: World, w': World, n: nat)
    requires Cleared(w, w', 0) && n <= |w.wals| && forall s :: 0 <= s < |w.wals| ==> WalOk(w.wals[s])
    ensures Cleared(w, RunFrom(w', Clears(n)), n)
  {
    hide Cleared, Next;
    if n > 0 {
      var front := Clears(n - 1);
      ClearEach(w, w', n - 1);
      RunStep(w', front, ClearNext);
      ClearOne(w, RunFrom(w', front), n - 1);
    }
  }

  lemma {:induction false} RestingClears(w: World, n: nat)
    requires !w.flusher.Clearing?
    ensures RunFrom(w, Clears(n)) == w
  {
    if n > 0 {
      var front := Clears(n - 1);
      RestingClears(w, n - 1);
      RunStep(w, front, ClearNext);
    }
  }

  /** The cycle after its flushes. */
  lemma {:induction false} EndOfCycle(w: World, w': World, shards: nat, ok: nat -> bool)
    requires Flushed(w, w', shards, ok) && shards == |w.wals| == |w.flushed| == |w.applied|
    requires forall s :: 0 <= s < |w.wals| ==> WalOk(w.wals[s])
    ensures var end := RunFrom(Next(w', EndFlush), Clears(shards + 1));
            && |end.flushed| == shards && end.flusher.Resting? && end.applied == w.applied && end.acked == w.acked && |end.wals| == |w.wals|
            && (forall s :: 0 <= s < shards ==> end.flushed[s] == if ok(s) then w.applied[s] else w.flushed[s])
            && (if forall s :: 0 <= s < shards ==> ok(s) then forall s :: 0 <= s < shards ==> end.wals[s].file == "" else end.wals == w.wals)
  {
    assert w'.flusher.todo == {};
    var w1 := Next(w', EndFlush);
    RunStep(w1, Clears(shards), ClearNext);
    hide RunFrom;
    if forall s :: 0 <= s < shards ==> ok(s) {
      ClearEach(w1, w1, shards);
    } else {
      RestingClears(w1, shards);
      RestingClears(w1, shards + 1);
    }
  }

  /**
   * A flush that nobody disturbs: if all shards could be flushed, every WAL is empty afterwards
   * and the files show what the shards hold; if any failed, no WAL has lost a byte. In both
   * cases the flusher rests again.
   */
  lemma {:induction false} FlushEmptiesWals(shards: nat, sessions: nat, steps: seq<Step>, ok: nat -> bool)
    requires var w := Run(shards, sessions, steps); w.flusher.Resting? && NoReaders(w)
    ensures var w := Run(shards, sessions, steps); var n := |w.wals|; var end := Run(shards, sessions, steps + FlushCycle(n, ok));
            && |end.wals| == |end.flushed| == n == |w.flushed| == |w.applied|
            && end.flusher.Resting? && end.applied == w.applied && end.acked == w.acked
            && (forall s :: 0 <= s < n ==> end.flushed[s] == if ok(s) then w.applied[s] else w.flushed[s])
            && (if forall s :: 0 <= s < n ==> ok(s) then forall s :: 0 <= s < n ==> end.wals[s].file == "" else end.wals == w.wals)
  {
    var w := Run(shards, sessions, steps);
    var n := |w.wals|;
    RunInv(shards, sessions, steps);
    RunInv(shards, sessions, steps + FlushCycle(n, ok));
    RunConcat(shards, sessions, steps, FlushCycle(n, ok));
    CycleFrom(w, ok);
    hide Run, RunFrom, SessionOk, Safe, FlushCycle;
  }

  lemma {:induction false} CycleFrom(w: World, ok: nat -> bool)
    requires w.flusher.Resting? && NoReaders(w) && Shape(w)
    ensures var n := |w.wals|; var end := RunFrom(w, FlushCycle(n, ok));
            && end.flusher.Resting? && end.applied == w.applied && end.acked == w.acked && |end.wals| == n
            && |end.flushed| == n
            && (forall s :: 0 <= s < n ==> end.flushed[s] == if ok(s) then w.applied[s] else w.flushed[s])
            && (if forall s :: 0 <= s < n ==> ok(s) then forall s :: 0 <= s < n ==> end.wals[s].file == "" else end.wals == w.wals)
  {
    var n := |w.wals|;
    var flushes, clears := Flushes(n, ok), Clears(n + 1);
    ShapeOf(w);
    BeginsCycle(w, ok);
    hide *;
    var w1 := Next(w, BeginFlush);
    StartIs(w);
    RunStep(w, [], BeginFlush);
    assert [] + [BeginFlush] == [BeginFlush];
    RunFromConcat(w, [BeginFlush], flushes);
    RunStep(w, [BeginFlush] + flushes, EndFlush);
    RunFromConcat(w, [BeginFlush] + flushes + [EndFlush], clears);
    CycleIs(n, ok);
    FlushEach(w, w1, n, ok);
    EndOfCycle(w, RunFrom(w1, flushes), n, ok);
  }

  lemma CycleIs(n: nat, ok: nat -> bool)
    ensures FlushCycle(n, ok) == [BeginFlush] + Flushes(n, ok) + [EndFlush] + Clears(n + 1)
  {
  }

  lemma BeginsCycle(w: World, ok: nat -> bool)
    requires w.flusher.Resting? && NoReaders(w) && |w.wals| == |w.applied| == |w.flushed|
    ensures Flushed(w, Next(w, BeginFlush), 0, ok)
  {
  }

  lemma StartIs(w: World)
    ensures RunFrom(w, []) == w
  {
  }

  lemma ShapeOf(w: World)
    requires Shape(w)
    ensures |w.wals| == |w.applied| == |w.flushed| && forall s :: 0 <= s < |w.wals| ==> WalOk(w.wals[s])
  {
  }

  // ------------------------------------------------------------- torn appends

  /** What a torn append leaves behind a file that ended clean does not end clean. */
  lemma TearIsUnclean(s: string, e: WalEntry, n: nat)
    requires EndsClean(s) && Fits(e) && 0 < n < |Encode(e)|
    ensures !EndsClean(s + Encode(e)[..n])
  {
    hide EndsClean, Encode;
    TornClean([e], n);
    assert [e][1..] == [] && EncodeAll([e]) == Encode(e) by {
      assert Encode(e) + "" == Encode(e);
    }
    TornWhole(e, n);
    CleanBehind(s, Encode(e)[..n]);
  }

  lemma TornWhole(e: WalEntry, n: nat)
    requires 0 < n < |Encode(e)|
    ensures n != |EncodeAll([e][..WholeRecords([e], n)])|
  {
    hide Encode;
    var j := WholeRecords([e], n);
    assert [e][..0] == [] && [e][..1] == [e] && [e][1..] == [];
  }

  /**
   * Whatever a run did before: when an append is torn, in a WAL that ended clean, then some `set`
   * that is logged behind it, synced and acknowledged is lost.
   */
  lemma {:induction false} TornAppendLoses(shards: nat, sessions: nat, steps: seq<Step>, i: nat, fault: nat) returns (cmd: string)
    requires var w := Run(shards, sessions, steps);
             && Tears(w, Step.Append(i, Some(fault)))
             && var b := w.writes[w.sessions[i].state.id];
                && b.home < |w.wals| && EndsClean(w.wals[b.home].file) && Fits(WalEntry(b.cmd, w.nextSeq))
                && |w.wals[b.home].file| + fault < POW64 - 4 && w.nextSeq < POW64 - 1
    ensures var w := Run(shards, sessions, steps); var s := w.writes[w.sessions[i].state.id].home;
            var torn := steps + [Step.Append(i, Some(fault))];
            var w' := Run(shards, sessions, torn + Commit(i, Write(cmd, s, {s}), |w.wals|));
            ReadsAsSet(cmd) && |w.writes| in w'.acked && !Safe(w', |w.writes|)
  {
    hide Run, EndsClean, Encode, Fits, Safe, Decode, Commit, ReadsAsSet, SafeNext, SessionOk;
    var w, step := Run(shards, sessions, steps), Step.Append(i, Some(fault));
    var id := w.sessions[i].state.id;
    var e := WalEntry(w.writes[id].cmd, w.nextSeq);
    RunInv(shards, sessions, steps);
    RunConcat(shards, sessions, steps, [step]);
    RunStep(w, [], step);
    assert [] + [step] == [step];
    hide RunFrom;
    assert Arrived(e, Some(fault)) == Encode(e)[..fault];
    TearIsUnclean(w.wals[w.writes[id].home].file, e, fault);
    assert w.flusher.Resting?;
    cmd := LostBehindTorn(shards, sessions, steps + [step], i, w.writes[id].home);
  }

  /** The shortest such run: the first append of a new database is torn behind its size. */
  lemma {:induction false} FirstAppendTorn(a: Write) returns (cmd: string)
    requires a.home == 0 && a.touched == {0} && |a.cmd| < POW32
    ensures var w := Run(1, 1, [Apply(0, a), Step.Append(0, Some(4))] + Commit(0, Write(cmd, 0, {0}), 1));
            ReadsAsSet(cmd) && 1 in w.acked && !Safe(w, 1)
  {
    hide Safe, Commit, ReadsAsSet, EndsClean;
    CleanIs("");
    assert [Apply(0, a)][..0] == [];
    assert Run(1, 1, [Apply(0, a)]) == Next(Run(1, 1, []), Apply(0, a));
    cmd := TornAppendLoses(1, 1, [Apply(0, a)], 0, 4);
    assert [Apply(0, a)] + [Step.Append(0, Some(4))] == [Apply(0, a), Step.Append(0, Some(4))];
  }
}
