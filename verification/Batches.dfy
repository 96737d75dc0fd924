/**
 * What a session replies for the batches it syncs, over every interleaving: each write is
 * acknowledged at most once, and one whose sync failed never.
 */
module Batches {
  import opened Base
  import opened WalLog
  import opened G = GroupCommit

  /** No write is in two batches, and none in a batch is acknowledged. */
  ghost predicate Apart(w: World) {
    && (forall i, id :: 0 <= i < |w.sessions| && id in w.sessions[i].mine ==> id in w.records && id !in w.acked)
    && (forall i, j, id :: 0 <= i < |w.sessions| && 0 <= j < |w.sessions| && i != j && id in w.sessions[i].mine ==>
         id !in w.sessions[j].mine)
    && w.acked <= w.records.Keys
  }

  /** What a step leaves of the batches and the acknowledgements: all, but for the session that appends or replies. */
  ghost predicate SameBatches(w: World, w': World) {
    && w'.records == w.records && w'.acked == w.acked && |w'.sessions| == |w.sessions|
    && forall i :: 0 <= i < |w.sessions| ==> w'.sessions[i].mine == w.sessions[i].mine
  }

  lemma BatchesAfter(w: World, step: G.Step)
    ensures var w' := Next(w, step);
            || SameBatches(w, w')
            || (step.Append? && step.session < |w.sessions| && Appended(w, w', step.session))
            || (step.Acknowledge? && step.session < |w.sessions| && Replied(w, w', step.session))
  {
    hide SyncWal, AppendBytes, Arrived, Fits, EndsClean;
  }

  /** A write that had no record yet joins its session's batch. */
  ghost predicate Appended(w: World, w': World, i: nat)
    requires i < |w.sessions|
  {
    && w.sessions[i].state.Applied? && w'.records.Keys == w.records.Keys + {w.sessions[i].state.id} && w'.acked == w.acked
    && w'.sessions == w.sessions[i := G.Session(Ready, w.sessions[i].mine + {w.sessions[i].state.id})]
  }

  /** The session's batch is acknowledged, and the next one starts empty. */
  ghost predicate Replied(w: World, w': World, i: nat)
    requires i < |w.sessions|
  {
    && w'.records == w.records && w'.acked == w.acked + w.sessions[i].mine
    && w.sessions[i].state.Syncing? && w.sessions[i].state.ok && w.sessions[i].state.next >= |w.wals|
    && w'.sessions == w.sessions[i := G.Session(Ready, {})]
  }

  lemma StaysApart(w: World, step: G.Step)
    requires Inv(w) && Apart(w)
    ensures Apart(Next(w, step))
  {
    BatchesAfter(w, step);
    if step.Append? && step.session < |w.sessions| && w.sessions[step.session].state.Applied? {
      assert SessionOk(w, w.sessions[step.session]);
    }
    hide Next, Inv, SessionOk;
  }

  lemma {:induction false} RunApart(shards: nat, sessions: nat, steps: seq<G.Step>)
    ensures Apart(G.Run(shards, sessions, steps))
  {
    if steps != [] {
      var front := steps[..|steps| - 1];
      RunApart(shards, sessions, front);
      RunInv(shards, sessions, front);
      StaysApart(G.Run(shards, sessions, front), steps[|steps| - 1]);
    }
  }

  /**
   * Over every interleaving: a step acknowledges nothing, or one session replies after all its
   * syncs succeeded and acknowledges exactly its batch, none of which was acknowledged before;
   * no batch, of this or another session, holds any acknowledged write.
   */
  lemma {:induction false} AcknowledgedOnce(shards: nat, sessions: nat, steps: seq<G.Step>, step: G.Step)
    ensures var w, w' := G.Run(shards, sessions, steps), G.Run(shards, sessions, steps + [step]);
            && (w'.acked == w.acked
                || (step.Acknowledge? && step.session < |w.sessions| && Replied(w, w', step.session)
                    && w.acked !! w.sessions[step.session].mine))
            && forall i :: 0 <= i < |w'.sessions| ==> w'.sessions[i].mine !! w'.acked
  {
    var w := G.Run(shards, sessions, steps);
    assert (steps + [step])[..|steps|] == steps;
    RunApart(shards, sessions, steps);
    RunApart(shards, sessions, steps + [step]);
    BatchesAfter(w, step);
    hide Next;
  }

  // ------------------------------------------------------------- a failed sync

  lemma ClosedStays(w: World, step: G.Step, i: nat)
    requires i < |w.sessions| && w.sessions[i].state.Closed?
    ensures i < |Next(w, step).sessions| && Next(w, step).sessions[i] == w.sessions[i]
  {
    hide SyncWal, AppendBytes, Arrived, Fits, EndsClean, ClearWal;
  }

  lemma {:induction false} ClosedForGood(w: World, steps: seq<G.Step>, i: nat)
    requires i < |w.sessions| && w.sessions[i].state.Closed?
    ensures i < |RunFrom(w, steps).sessions| && RunFrom(w, steps).sessions[i] == w.sessions[i]
  {
    hide Next;
    if steps != [] {
      ClosedForGood(w, steps[..|steps| - 1], i);
      ClosedStays(RunFrom(w, steps[..|steps| - 1]), steps[|steps| - 1], i);
    }
  }

  /** A session that was closed stays closed, and no write of its last batch is ever acknowledged. */
  lemma {:induction false} NeverAcknowledged(shards: nat, sessions: nat, steps: seq<G.Step>, more: seq<G.Step>, i: nat)
    requires var w := G.Run(shards, sessions, steps); i < |w.sessions| && w.sessions[i].state.Closed?
    ensures var w, later := G.Run(shards, sessions, steps), G.Run(shards, sessions, steps + more);
            && i < |later.sessions| && later.sessions[i] == w.sessions[i]
            && w.sessions[i].mine !! later.acked
  {
    RunConcat(shards, sessions, steps, more);
    ClosedForGood(G.Run(shards, sessions, steps), more, i);
    RunApart(shards, sessions, steps + more);
    hide Next, G.Run;
  }

  // ---------------------------------------------------- the outcome of one batch

  /** A session syncs every WAL, with success or not, and replies. */
  function SyncBatch(i: nat, n: nat, ok: nat -> bool): seq<G.Step> {
    [BeginSync(i)] + Syncs(i, n, ok) + [Acknowledge(i)]
  }

  function Syncs(i: nat, n: nat, ok: nat -> bool): seq<G.Step> {
    if n == 0 then [] else Syncs(i, n - 1, ok) + [SyncNext(i, ok(n - 1))]
  }

  /** The first `n` WALs are synced, those that can be; one that is not dirty needs no I/O. */
  ghost predicate Synced(w: World, w': World, i: nat, n: nat, ok: nat -> bool)
    requires i < |w.sessions|
  {
    && w' == w.(wals := w'.wals, sessions := w'.sessions) && |w'.wals| == |w.wals|
    && (forall j :: 0 <= j < |w.wals| ==> w'.wals[j] == if j < n then SyncWal(w.wals[j], ok(j)).0 else w.wals[j])
    && w'.sessions == w.sessions[i := w.sessions[i].(state := Syncing(n, forall j :: 0 <= j < n && j < |w.wals| && w.wals[j].dirty ==> ok(j)))]
  }

  lemma SyncsOne(w: World, w': World, i: nat, n: nat, ok: nat -> bool)
    requires i < |w.sessions| && n < |w.wals| && Synced(w, w', i, n, ok)
    ensures Synced(w, Next(w', SyncNext(i, ok(n))), i, n + 1, ok)
  {
  }

  lemma {:induction false} SyncsEach(w: World, w1: World, i: nat, n: nat, ok: nat -> bool)
    requires i < |w.sessions| && n <= |w.wals| && Synced(w, w1, i, 0, ok)
    ensures Synced(w, RunFrom(w1, Syncs(i, n, ok)), i, n, ok)
  {
    hide Synced, Next;
    if n > 0 {
      SyncsEach(w, w1, i, n - 1, ok);
      RunStep(w1, Syncs(i, n - 1, ok), SyncNext(i, ok(n - 1)));
      SyncsOne(w, RunFrom(w1, Syncs(i, n - 1, ok)), i, n - 1, ok);
    }
  }

  lemma BeginsSync(w: World, i: nat, ok: nat -> bool)
    requires i < |w.sessions| && w.sessions[i].state.Ready?
    ensures Synced(w, Next(w, BeginSync(i)), i, 0, ok)
  {
  }

  lemma Replies(w: World, w': World, i: nat, ok: nat -> bool)
    requires i < |w.sessions| && Synced(w, w', i, |w.wals|, ok) && forall j :: 0 <= j < |w.wals| ==> WalOk(w.wals[j])
    ensures Outcome(w, Next(w', Acknowledge(i)), i, ok)
  {
  }

  ghost predicate Outcome(w: World, w': World, i: nat, ok: nat -> bool)
    requires i < |w.sessions|
  {
    && |w'.wals| == |w.wals| && |w'.sessions| == |w.sessions|
    && (forall j :: 0 <= j < |w.wals| ==>
         && w'.wals[j].file == w.wals[j].file
         && w'.wals[j].synced == if w.wals[j].dirty && !ok(j) then w.wals[j].synced else |w.wals[j].file|)
    && if forall j :: 0 <= j < |w.wals| && w.wals[j].dirty ==> ok(j)
       then w'.acked == w.acked + w.sessions[i].mine && w'.sessions[i] == G.Session(Ready, {})
       else w'.acked == w.acked && w'.sessions[i] == G.Session(Closed, w.sessions[i].mine)
  }

  /**
   * A session whose syncs nobody disturbs: every WAL is on disk but those that are dirty and
   * failed. If none did, exactly the batch is acknowledged; otherwise nothing is, and the session
   * is closed.
   */
  lemma {:induction false} SyncOutcome(shards: nat, sessions: nat, steps: seq<G.Step>, i: nat, ok: nat -> bool)
    requires var w := G.Run(shards, sessions, steps); i < |w.sessions| && w.sessions[i].state.Ready?
    ensures var w := G.Run(shards, sessions, steps);
            Outcome(w, G.Run(shards, sessions, steps + SyncBatch(i, |w.wals|, ok)), i, ok)
  {
    var w := G.Run(shards, sessions, steps);
    RunInv(shards, sessions, steps);
    RunConcat(shards, sessions, steps, SyncBatch(i, |w.wals|, ok));
    WalsOk(w);
    hide *;
    var n, w1 := |w.wals|, Next(w, BeginSync(i));
    BeginsSync(w, i, ok);
    SyncsEach(w, w1, i, n, ok);
    Replies(w, RunFrom(w1, Syncs(i, n, ok)), i, ok);
    BatchIs(w, i, n, ok);
  }

  lemma WalsOk(w: World)
    requires Inv(w)
    ensures forall j :: 0 <= j < |w.wals| ==> WalOk(w.wals[j])
  {
  }

  lemma BatchIs(w: World, i: nat, n: nat, ok: nat -> bool)
    ensures RunFrom(w, SyncBatch(i, n, ok)) == Next(RunFrom(Next(w, BeginSync(i)), Syncs(i, n, ok)), Acknowledge(i))
  {
    hide Next, Syncs;
    var syncs := Syncs(i, n, ok);
    RunStep(w, [], BeginSync(i));
    assert [] + [BeginSync(i)] == [BeginSync(i)];
    RunFromConcat(w, [BeginSync(i)], syncs);
    RunStep(w, [BeginSync(i)] + syncs, Acknowledge(i));
  }

  // -------------------------------------------------- what memory and files show

  ghost predicate Shows(w: World) {
    && |w.applied| == |w.wals|
    && forall s :: 0 <= s < |w.wals| ==> w.applied[s] == set id | 0 <= id < |w.writes| && s in w.writes[id].touched
  }

  lemma ShowsAfter(w: World, step: G.Step)
    requires Shows(w)
    ensures Shows(Next(w, step))
  {
    var w' := Next(w, step);
    hide SyncWal, AppendBytes, Arrived, Fits, EndsClean, ClearWal;
    if step.Apply? && w'.writes != w.writes {
      forall s | 0 <= s < |w.wals|
        ensures w'.applied[s] == set id | 0 <= id < |w'.writes| && s in w'.writes[id].touched
      {
      }
    }
  }

  /** In every interleaving, the memory of a shard shows exactly the writes that have effects in it. */
  lemma {:induction false} AppliedExactly(shards: nat, sessions: nat, steps: seq<G.Step>, s: nat)
    requires s < |G.Run(shards, sessions, steps).wals|
    ensures var w := G.Run(shards, sessions, steps);
            && |w.applied| == |w.wals|
            && w.applied[s] == set id | 0 <= id < |w.writes| && s in w.writes[id].touched
  {
    RunShows(shards, sessions, steps);
    hide G.Run;
  }

  lemma {:induction false} RunShows(shards: nat, sessions: nat, steps: seq<G.Step>)
    ensures Shows(G.Run(shards, sessions, steps))
  {
    hide Next, Shows;
    if steps == [] {
      StartShows(shards, sessions);
    } else {
      RunShows(shards, sessions, steps[..|steps| - 1]);
      ShowsAfter(G.Run(shards, sessions, steps[..|steps| - 1]), steps[|steps| - 1]);
    }
  }

  lemma StartShows(shards: nat, sessions: nat)
    ensures Shows(G.Start(shards, sessions))
  {
  }
}
