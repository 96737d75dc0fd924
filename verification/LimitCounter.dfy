/**
 * `getby ... lim n`: one worker per shard, all counting accepted entries in one atomic counter.
 * A state machine whose steps are the atomic accesses, taken by the workers in any order.
 */
module LimitCounter {
  import opened Base

  const UINT_RANGE: nat := 0x1_0000_0000

  /** Each worker's table in its iteration order, the pattern and the limit. */
  datatype Config = Config(tables: seq<seq<Key>>, matches: Key -> bool, limit: nat)

  datatype Phase =
    | Scanning    // in findMatching, before the next stopEarly test
    | Accepting   // in the entry loop, before the next fetch_add
    | Undoing     // its fetch_add was refused, the fetch_sub is still to come
    | Finished

  /** `found` are the matches collected so far, the first `taken` of which were accepted. */
  datatype Worker = Worker(phase: Phase, scanned: nat, found: seq<Key>, taken: nat)

  datatype World = World(counter: nat, workers: seq<Worker>)

  function Start(c: Config): World {
    World(0, seq(|c.tables|, _ => Worker(Scanning, 0, [], 0)))
  }

  function MatchesOf(keys: seq<Key>, matches: Key -> bool): (r: seq<Key>)
    ensures |r| <= |keys|
  {
    if keys == [] then []
    else
      var front := MatchesOf(keys[..|keys| - 1], matches);
      if matches(keys[|keys| - 1]) then front + [keys[|keys| - 1]] else front
  }

  /** One atomic step of worker `i`. */
  function Step(c: Config, w: World, i: nat): (w': World)
    requires i < |w.workers| == |c.tables|
    ensures |w'.workers| == |w.workers|
  {
    var me, table := w.workers[i], c.tables[i];
    match me.phase
    case Scanning =>
      if me.scanned >= |table| || w.counter >= c.limit
      then w.(workers := w.workers[i := me.(phase := Accepting)])
      else
        var key := table[me.scanned];
        var found := if c.matches(key) then me.found + [key] else me.found;
        w.(workers := w.workers[i := me.(scanned := me.scanned + 1, found := found)])
    case Accepting =>
      if me.taken >= |me.found| then w.(workers := w.workers[i := me.(phase := Finished)])
      else
        var counter := if w.counter + 1 == UINT_RANGE then 0 else w.counter + 1;
        var me' := if w.counter >= c.limit then me.(phase := Undoing) else me.(taken := me.taken + 1);
        World(counter, w.workers[i := me'])
    case Undoing =>
      World(if w.counter == 0 then UINT_RANGE - 1 else w.counter - 1, w.workers[i := me.(phase := Finished)])
    case Finished => w
  }

  // ------------------------------------------------------------------- sums

  function Sum(ws: seq<Worker>, f: Worker -> nat): nat {
    if ws == [] then 0 else Sum(ws[..|ws| - 1], f) + f(ws[|ws| - 1])
  }

  lemma {:induction false} SumUpdate(ws: seq<Worker>, i: nat, w: Worker, f: Worker -> nat)
    requires i < |ws|
    ensures Sum(ws[i := w], f) + f(ws[i]) == Sum(ws, f) + f(w)
  {
    var n := |ws| - 1;
    if i < n {
      SumUpdate(ws[..n], i, w, f);
      assert ws[i := w][..n] == ws[..n][i := w];
    } else {
      assert ws[i := w][..n] == ws[..n];
    }
  }

  lemma {:induction false} SumZero(ws: seq<Worker>, f: Worker -> nat)
    requires forall i :: 0 <= i < |ws| ==> f(ws[i]) == 0
    ensures Sum(ws, f) == 0
  {
    if ws != [] {
      SumZero(ws[..|ws| - 1], f);
    }
  }

  lemma {:induction false} SumMember(ws: seq<Worker>, i: nat, f: Worker -> nat)
    requires i < |ws|
    ensures f(ws[i]) <= Sum(ws, f)
  {
    if i < |ws| - 1 {
      SumMember(ws[..|ws| - 1], i, f);
    }
  }

  const Taken: Worker -> nat := (w: Worker) => w.taken
  const Pending: Worker -> nat := (w: Worker) => if w.phase == Undoing then 1 else 0

  lemma {:induction false} PendingBound(ws: seq<Worker>)
    ensures Sum(ws, Pending) <= |ws|
  {
    if ws != [] {
      PendingBound(ws[..|ws| - 1]);
    }
  }

  /** How many entries match in all shards together. */
  function TotalMatches(c: Config): nat {
    Total(c.tables, c.matches)
  }

  function Total(tables: seq<seq<Key>>, matches: Key -> bool): nat {
    if tables == [] then 0
    else Total(tables[..|tables| - 1], matches) + |MatchesOf(tables[|tables| - 1], matches)|
  }

  /** The entries a worker accepted. */
  function AcceptedOf(me: Worker): seq<Key> {
    me.found[..Min(me.taken, |me.found|)]
  }

  function Accepted(w: World): nat {
    Sum(w.workers, Taken)
  }

  /** A worker's accepted entries are a prefix of its shard's matches, and all of them unless it stopped. */
  ghost predicate WorkerOk(c: Config, i: nat, me: Worker)
    requires i < |c.tables|
  {
    && me.scanned <= |c.tables[i]|
    && me.found == MatchesOf(c.tables[i][..me.scanned], c.matches)
    && me.taken <= |me.found|
  }

  /** The worker gave up although there were, or might have been, more matches. */
  predicate StoppedEarly(c: Config, i: nat, me: Worker)
    requires i < |c.tables|
  {
    || (me.phase != Scanning && me.scanned < |c.tables[i]|)
    || me.phase == Undoing
    || (me.phase == Finished && me.taken < |me.found|)
  }

  /**
   * The counter is the accepted entries plus the refused increments not yet undone, and a worker
   * that stopped early, in particular one with a pending increment, implies a reached limit.
   */
  ghost predicate Inv(c: Config, w: World) {
    && |w.workers| == |c.tables|
    && (forall i :: 0 <= i < |w.workers| ==> WorkerOk(c, i, w.workers[i]))
    && w.counter == Accepted(w) + Sum(w.workers, Pending)
    && Accepted(w) <= c.limit
    && (forall i :: 0 <= i < |w.workers| && StoppedEarly(c, i, w.workers[i]) ==> Accepted(w) == c.limit)
  }

  lemma {:induction false} MatchesPrefix(keys: seq<Key>, n: nat, matches: Key -> bool)
    requires n <= |keys|
    ensures |MatchesOf(keys[..n], matches)| <= |MatchesOf(keys, matches)|
  {
    if n < |keys| {
      MatchesPrefix(keys[..|keys| - 1], n, matches);
      assert keys[..n] == keys[..|keys| - 1][..n];
    } else {
      assert keys[..n] == keys;
    }
  }

  lemma {:induction false} TakenBound(c: Config, ws: seq<Worker>, n: nat)
    requires n == |ws| <= |c.tables|
    requires forall i :: 0 <= i < n ==> WorkerOk(c, i, ws[i])
    ensures Sum(ws, Taken) <= Total(c.tables[..n], c.matches)
    ensures (forall i :: 0 <= i < n ==> ws[i].scanned == |c.tables[i]| && ws[i].taken == |ws[i].found|) ==>
              Sum(ws, Taken) == Total(c.tables[..n], c.matches)
  {
    if n > 0 {
      TakenBound(c, ws[..n - 1], n - 1);
      assert c.tables[..n][..n - 1] == c.tables[..n - 1];
      MatchesPrefix(c.tables[n - 1], ws[n - 1].scanned, c.matches);
      assert c.tables[n - 1][..|c.tables[n - 1]|] == c.tables[n - 1];
    }
  }

  /** No wrap-around: fewer than 2^32 increments can be outstanding. */
  ghost predicate CounterFits(c: Config) {
    Min(c.limit, TotalMatches(c)) + |c.tables| < UINT_RANGE
  }

  lemma StartInv(c: Config)
    ensures Inv(c, Start(c))
  {
    SumZero(Start(c).workers, Taken);
    SumZero(Start(c).workers, Pending);
  }

  /** A pending increment implies that the limit is reached. */
  lemma PendingImpliesLimit(c: Config, w: World)
    requires Inv(c, w) && w.counter >= c.limit
    ensures Accepted(w) == c.limit
  {
    if Sum(w.workers, Pending) > 0 {
      if forall i :: 0 <= i < |w.workers| ==> w.workers[i].phase != Undoing {
        SumZero(w.workers, Pending);
      }
    }
  }

  /** While a worker is not itself pending, one more increment does not wrap around. */
  lemma RoomToIncrement(c: Config, w: World, i: nat)
    requires Inv(c, w) && CounterFits(c) && i < |w.workers| && w.workers[i].phase == Accepting
    ensures w.counter + 1 < UINT_RANGE
  {
    TakenBound(c, w.workers, |w.workers|);
    assert c.tables[..|c.tables|] == c.tables;
    var pending := w.workers[i].(phase := Undoing);
    SumUpdate(w.workers, i, pending, Pending);
    PendingBound(w.workers[i := pending]);
  }

  /** What a step does to the counter and to the two sums it stands for. */
  lemma StepCounter(c: Config, w: World, i: nat)
    requires Inv(c, w) && CounterFits(c) && i < |w.workers|
    ensures var w' := Step(c, w, i);
            && w'.counter == Accepted(w') + Sum(w'.workers, Pending)
            && Accepted(w) <= Accepted(w') <= c.limit
  {
    var me, w' := w.workers[i], Step(c, w, i);
    var me' := w'.workers[i];
    assert w'.workers == w.workers[i := me'];
    SumUpdate(w.workers, i, me', Taken);
    SumUpdate(w.workers, i, me', Pending);
    SumMember(w.workers, i, Pending);
    if me.phase == Accepting {
      RoomToIncrement(c, w, i);
    }
    hide Sum, MatchesOf, WorkerOk, Total, StoppedEarly;
  }

  lemma StepInv(c: Config, w: World, i: nat)
    requires Inv(c, w) && CounterFits(c) && i < |w.workers|
    ensures Inv(c, Step(c, w, i))
  {
    StepCounter(c, w, i);
    StepWorker(c, w, i);
    if w.counter >= c.limit {
      PendingImpliesLimit(c, w);
    }
    hide Sum, MatchesOf, WorkerOk, StoppedEarly, CounterFits;
    var w' := Step(c, w, i);
    forall j | 0 <= j < |w'.workers|
      ensures WorkerOk(c, j, w'.workers[j])
      ensures StoppedEarly(c, j, w'.workers[j]) ==> Accepted(w') == c.limit
    {
      if j != i {
        assert w'.workers[j] == w.workers[j];
      }
    }
  }

  lemma StepWorker(c: Config, w: World, i: nat)
    requires Inv(c, w) && i < |w.workers|
    ensures WorkerOk(c, i, Step(c, w, i).workers[i])
    ensures StoppedEarly(c, i, Step(c, w, i).workers[i]) ==> StoppedEarly(c, i, w.workers[i]) || w.counter >= c.limit
  {
    var me, table := w.workers[i], c.tables[i];
    if me.scanned < |table| {
      assert table[..me.scanned + 1][..me.scanned] == table[..me.scanned];
    }
  }

  /** Any interleaving: `schedule` says whose step comes next; a number that is no worker's idles. */
  function Run(c: Config, schedule: seq<nat>): (w: World)
    ensures |w.workers| == |c.tables|
  {
    if schedule == [] then Start(c)
    else
      var w, i := Run(c, schedule[..|schedule| - 1]), schedule[|schedule| - 1];
      if i < |w.workers| then Step(c, w, i) else w
  }

  lemma {:induction false} RunInv(c: Config, schedule: seq<nat>)
    requires CounterFits(c)
    ensures Inv(c, Run(c, schedule))
  {
    if schedule == [] {
      StartInv(c);
    } else {
      var w, i := Run(c, schedule[..|schedule| - 1]), schedule[|schedule| - 1];
      RunInv(c, schedule[..|schedule| - 1]);
      if i < |w.workers| {
        StepInv(c, w, i);
      }
    }
  }

  /** A reached limit stays reached, and no worker collects another match. */
  lemma StaysReached(c: Config, w: World, i: nat)
    requires Inv(c, w) && CounterFits(c) && i < |w.workers| && w.counter >= c.limit
    ensures var w' := Step(c, w, i);
            && w'.counter >= c.limit
            && forall j :: 0 <= j < |w.workers| ==>
                 w'.workers[j].found == w.workers[j].found && w'.workers[j].scanned == w.workers[j].scanned
  {
    PendingImpliesLimit(c, w);
    StepCounter(c, w, i);
    hide Inv, CounterFits;
  }

  /** In every interleaving, once the counter has reached the limit, `stopEarly` ends every scan. */
  lemma {:induction false} ReachedStopsScans(c: Config, schedule: seq<nat>, more: seq<nat>, j: nat)
    requires CounterFits(c) && Run(c, schedule).counter >= c.limit && j < |c.tables|
    ensures var w, later := Run(c, schedule), Run(c, schedule + more);
            && later.counter >= c.limit
            && later.workers[j].found == w.workers[j].found && later.workers[j].scanned == w.workers[j].scanned
  {
    if more == [] {
      assert schedule + more == schedule;
    } else {
      var front, i := more[..|more| - 1], more[|more| - 1];
      ReachedStopsScans(c, schedule, front, j);
      assert (schedule + more)[..|schedule + more| - 1] == schedule + front;
      RunInv(c, schedule + front);
      if i < |c.tables| {
        StaysReached(c, Run(c, schedule + front), i);
      }
      hide Step, Inv, CounterFits;
    }
  }

  /**
   * In every interleaving no more than `limit` entries are ever accepted, each worker's are
   * distinct positions of its own matches, and once all workers are finished exactly
   * min(limit, number of matches) were accepted.
   */
  lemma LimitExact(c: Config, schedule: seq<nat>)
    requires CounterFits(c)
    ensures var w := Run(c, schedule);
            && Accepted(w) <= c.limit
            && (forall i :: 0 <= i < |w.workers| ==> AcceptedOf(w.workers[i]) <= MatchesOf(c.tables[i], c.matches))
            && ((forall i :: 0 <= i < |w.workers| ==> w.workers[i].phase == Finished) ==>
                 Accepted(w) == Min(c.limit, TotalMatches(c)))
  {
    RunInv(c, schedule);
    var w := Run(c, schedule);
    TakenBound(c, w.workers, |w.workers|);
    assert c.tables[..|c.tables|] == c.tables;
    forall i | 0 <= i < |w.workers|
      ensures AcceptedOf(w.workers[i]) <= MatchesOf(c.tables[i], c.matches)
    {
      MatchesGrow(c.tables[i], w.workers[i].scanned, c.matches);
    }
    if forall i :: 0 <= i < |w.workers| ==> w.workers[i].phase == Finished {
      if forall i :: 0 <= i < |w.workers| ==> !StoppedEarly(c, i, w.workers[i]) {
        assert Accepted(w) == TotalMatches(c);
      } else {
        assert Accepted(w) == c.limit <= TotalMatches(c);
      }
    }
  }

  lemma {:induction false} MatchesGrow(keys: seq<Key>, n: nat, matches: Key -> bool)
    requires n <= |keys|
    ensures MatchesOf(keys[..n], matches) <= MatchesOf(keys, matches)
  {
    if n < |keys| {
      MatchesGrow(keys[..|keys| - 1], n, matches);
      assert keys[..n] == keys[..|keys| - 1][..n];
    } else {
      assert keys[..n] == keys;
    }
  }

  // ------------------------------------------------------- the response as a set

  /** No key twice, in one list or in two. */
  ghost predicate Apart(lists: seq<seq<Key>>) {
    && (forall i, a, b :: 0 <= i < |lists| && 0 <= a < b < |lists[i]| ==> lists[i][a] != lists[i][b])
    && (forall i, j, k :: 0 <= i < j < |lists| && k in lists[i] ==> k !in lists[j])
  }

  function Members(lists: seq<seq<Key>>): set<Key> {
    set i, k | 0 <= i < |lists| && k in lists[i] :: k
  }

  function Lengths(lists: seq<seq<Key>>): nat {
    if lists == [] then 0 else Lengths(lists[..|lists| - 1]) + |lists[|lists| - 1]|
  }

  lemma {:induction false} MembersSize(lists: seq<seq<Key>>)
    requires Apart(lists)
    ensures |Members(lists)| == Lengths(lists)
  {
    if lists != [] {
      var front, last := lists[..|lists| - 1], lists[|lists| - 1];
      assert forall i :: 0 <= i < |front| ==> front[i] == lists[i];
      MembersSize(front);
      var keys := set k | k in last;
      EnumeratesSize(last, keys);
      MembersLast(lists);
      hide Members, Apart;
    }
  }

  lemma MembersLast(lists: seq<seq<Key>>)
    requires lists != [] && Apart(lists)
    ensures var front, last := lists[..|lists| - 1], lists[|lists| - 1]; var keys := set k | k in last;
            Members(lists) == Members(front) + keys && Members(front) !! keys
  {
  }

  /** The matching keys of a table, in its order. */
  lemma {:induction false} MatchesAre(keys: seq<Key>, matches: Key -> bool)
    requires forall i, j :: 0 <= i < j < |keys| ==> keys[i] != keys[j]
    ensures Enumerates(MatchesOf(keys, matches), set k | k in keys && matches(k))
  {
    if keys != [] {
      var n := |keys| - 1;
      var front, k := keys[..n], keys[n];
      MatchesAre(front, matches);
      assert keys == front + [k] && k !in front;
      var r := MatchesOf(front, matches);
      forall x
        ensures x in r <==> x in front && matches(x)
        ensures x in keys <==> x in front || x == k
      {
        assert x in r <==> x in set k | k in front && matches(k);
      }
    }
  }

  function AllMatches(c: Config): seq<seq<Key>> {
    seq(|c.tables|, i requires 0 <= i < |c.tables| => MatchesOf(c.tables[i], c.matches))
  }

  lemma AllMatchesApart(c: Config)
    requires Apart(c.tables)
    ensures Apart(AllMatches(c))
    ensures Members(AllMatches(c)) == set i, k | 0 <= i < |c.tables| && k in c.tables[i] && c.matches(k) :: k
  {
    var lists := AllMatches(c);
    forall i | 0 <= i < |lists|
      ensures Enumerates(lists[i], set k | k in c.tables[i] && c.matches(k))
    {
      MatchesAre(c.tables[i], c.matches);
    }
    forall i, k
      ensures 0 <= i < |lists| && k in lists[i] <==> 0 <= i < |c.tables| && k in c.tables[i] && c.matches(k)
    {
      if 0 <= i < |lists| {
        assert k in lists[i] <==> k in set k | k in c.tables[i] && c.matches(k);
      }
    }
    hide MatchesOf;
  }

  lemma {:induction false} TotalIsLengths(c: Config, n: nat)
    requires n <= |c.tables|
    ensures Total(c.tables[..n], c.matches) == Lengths(AllMatches(c)[..n])
  {
    if n > 0 {
      TotalIsLengths(c, n - 1);
      assert c.tables[..n][..n - 1] == c.tables[..n - 1] && AllMatches(c)[..n][..n - 1] == AllMatches(c)[..n - 1];
      hide MatchesOf;
    }
  }

  /** What the workers have put into their responses. */
  function Delivered(w: World): seq<seq<Key>> {
    seq(|w.workers|, i requires 0 <= i < |w.workers| => AcceptedOf(w.workers[i]))
  }

  lemma {:induction false} AcceptedIsLengths(w: World, n: nat)
    requires n <= |w.workers| && forall i :: 0 <= i < |w.workers| ==> w.workers[i].taken <= |w.workers[i].found|
    ensures Sum(w.workers[..n], Taken) == Lengths(Delivered(w)[..n])
  {
    if n > 0 {
      AcceptedIsLengths(w, n - 1);
      assert w.workers[..n][..n - 1] == w.workers[..n - 1] && Delivered(w)[..n][..n - 1] == Delivered(w)[..n - 1];
    }
  }

  lemma DeliveredApart(c: Config, w: World)
    requires Apart(AllMatches(c)) && |w.workers| == |c.tables|
    requires forall i :: 0 <= i < |w.workers| ==> AcceptedOf(w.workers[i]) <= MatchesOf(c.tables[i], c.matches)
    ensures Apart(Delivered(w)) && Members(Delivered(w)) <= Members(AllMatches(c))
  {
    hide MatchesOf, AcceptedOf;
    var all, got := AllMatches(c), Delivered(w);
    assert forall i :: 0 <= i < |got| ==> got[i] <= all[i];
    forall i, k | 0 <= i < |got| && k in got[i]
      ensures k in all[i]
    {
      var a :| 0 <= a < |got[i]| && got[i][a] == k;
      assert all[i][a] == k;
    }
  }

  /**
   * In every interleaving the delivered keys are matching keys of the tables, none twice, at most
   * `limit` of them, and once all workers are finished exactly min(limit, number of matching keys).
   */
  lemma {:induction false} ResponseExact(c: Config, schedule: seq<nat>)
    requires CounterFits(c) && Apart(c.tables)
    ensures var w := Run(c, schedule); var got, all := Delivered(w), set i, k | 0 <= i < |c.tables| && k in c.tables[i] && c.matches(k) :: k;
            && Apart(got) && Members(got) <= all && |Members(got)| <= c.limit
            && ((forall i :: 0 <= i < |w.workers| ==> w.workers[i].phase == Finished) ==> |Members(got)| == Min(c.limit, |all|))
  {
    hide *;
    var w := Run(c, schedule);
    LimitExact(c, schedule);
    AllMatchesApart(c);
    TotalIs(c);
    AcceptedIs(c, schedule);
    DeliveredApart(c, w);
    MembersSize(Delivered(w));
    MembersSize(AllMatches(c));
  }

  lemma TotalIs(c: Config)
    ensures TotalMatches(c) == Lengths(AllMatches(c))
  {
    TotalIsLengths(c, |c.tables|);
    assert c.tables[..|c.tables|] == c.tables && AllMatches(c)[..|c.tables|] == AllMatches(c);
  }

  lemma AcceptedIs(c: Config, schedule: seq<nat>)
    requires CounterFits(c)
    ensures Accepted(Run(c, schedule)) == Lengths(Delivered(Run(c, schedule)))
  {
    var w := Run(c, schedule);
    RunInv(c, schedule);
    AcceptedIsLengths(w, |w.workers|);
    assert w.workers[..|w.workers|] == w.workers && Delivered(w)[..|w.workers|] == Delivered(w);
    hide Run, Sum, Lengths;
  }

  // --------------------------------------------------------------- progress

  /** An upper bound on the steps a worker has left. */
  function Left(c: Config, i: nat, me: Worker): nat
    requires i < |c.tables|
  {
    match me.phase
    case Scanning => 2 * Max(0, |c.tables[i]| - me.scanned) + |me.found| + 3
    case Accepting => Max(0, |me.found| - me.taken) + 2
    case Undoing => 1
    case Finished => 0
  }

  /** Every step of a worker that is not finished brings it closer to its end, whatever the others do. */
  lemma StepProgress(c: Config, w: World, i: nat)
    requires Inv(c, w) && i < |w.workers| && w.workers[i].phase != Finished
    ensures Left(c, i, Step(c, w, i).workers[i]) < Left(c, i, w.workers[i])
    ensures forall j :: 0 <= j < |w.workers| && j != i ==> Step(c, w, i).workers[j] == w.workers[j]
  {
  }
}
