/**
 * What the write commands mean on a plain map, and what happens when a log of them is replayed
 * on a state that already holds some of their effects.
 */
module Commands {
  import opened Base
  import opened Selection

  /** A write command; a pattern is the predicate `createValidationRule` builds from it. */
  datatype Command =
    | Set(key: Key, value: Value)
    | Del(key: Key)
    | SetBy(matches: Key -> bool, value: Value, limit: Option<nat>)
    | DelBy(matches: Key -> bool, limit: Option<nat>)

  function Matching(m: KeyValues, matches: Key -> bool): set<Key> {
    set k | k in m && matches(k)
  }

  /** The keys a pattern command acts on. */
  ghost function Chosen(m: KeyValues, matches: Key -> bool, limit: Option<nat>): set<Key> {
    match limit
    case None => Matching(m, matches)
    case Some(n) => SetOf(Smallest(Matching(m, matches), n))
  }

  /** A limited command acts on the matching keys that fewer than its limit of them precede in byte order. */
  lemma ChosenExactly(m: KeyValues, matches: Key -> bool, limit: nat, k: Key)
    ensures k in Chosen(m, matches, Some(limit))
       <==> k in m && matches(k) && |set x | x in m && matches(x) && Precedes(x, k)| < limit
  {
    var found := Matching(m, matches);
    SmallestAreFirst(found, limit);
    assert Before(found, k) == set x | x in m && matches(x) && Precedes(x, k);
    hide Smallest, Precedes;
  }

  ghost function Apply(c: Command, m: KeyValues): KeyValues {
    match c
    case Set(k, v) => m[k := v]
    case Del(k) => m - {k}
    case SetBy(p, v, limit) => map k | k in m :: if k in Chosen(m, p, limit) then v else m[k]
    case DelBy(p, limit) => m - Chosen(m, p, limit)
  }

  ghost function Run(log: seq<Command>, m: KeyValues): KeyValues {
    if log == [] then m else Apply(log[|log| - 1], Run(log[..|log| - 1], m))
  }

  // ----------------------------------------------------- the view of one key

  ghost predicate Unlimited(c: Command) {
    (c.SetBy? || c.DelBy?) ==> c.limit.None?
  }

  /** The command decides what `k` holds, whatever it held before. */
  predicate Overwrites(c: Command, k: Key) {
    match c
    case Set(k', _) => k' == k
    case Del(k') => k' == k
    case SetBy(_, _, _) => false
    case DelBy(p, _) => p(k)
  }

  predicate Touches(c: Command, k: Key) {
    Overwrites(c, k) || (c.SetBy? && c.matches(k))
  }

  function Effect(c: Command, k: Key, x: Option<Value>): Option<Value> {
    if !Touches(c, k) then x
    else
      match c
      case Set(_, v) => Some(v)
      case Del(_) => None
      case SetBy(_, v, _) => if x.Some? then Some(v) else None
      case DelBy(_, _) => None
  }

  function Effects(log: seq<Command>, k: Key, x: Option<Value>): Option<Value> {
    if log == [] then x else Effect(log[|log| - 1], k, Effects(log[..|log| - 1], k, x))
  }

  lemma {:induction false} ApplyPerKey(c: Command, m: KeyValues, k: Key)
    requires Unlimited(c)
    ensures Lookup(Apply(c, m), k) == Effect(c, k, Lookup(m, k))
  {
  }

  lemma {:induction false} RunPerKey(log: seq<Command>, m: KeyValues, k: Key)
    requires forall c :: c in log ==> Unlimited(c)
    ensures Lookup(Run(log, m), k) == Effects(log, k, Lookup(m, k))
  {
    if log != [] {
      RunPerKey(log[..|log| - 1], m, k);
      ApplyPerKey(log[|log| - 1], Run(log[..|log| - 1], m), k);
    }
  }

  lemma {:induction false} EffectsConcat(a: seq<Command>, b: seq<Command>, k: Key, x: Option<Value>)
    ensures Effects(a + b, k, x) == Effects(b, k, Effects(a, k, x))
  {
    if b == [] {
      assert a + b == a;
    } else {
      EffectsConcat(a, b[..|b| - 1], k, x);
      assert (a + b)[..|a + b| - 1] == a + b[..|b| - 1];
    }
  }

  ghost predicate Overwritten(log: seq<Command>, k: Key) {
    exists c :: c in log && Overwrites(c, k)
  }

  ghost predicate Touched(log: seq<Command>, k: Key) {
    exists c :: c in log && Touches(c, k)
  }

  /** Once a key is overwritten, what it held before the log does not matter. */
  lemma {:induction false} OverwrittenForgets(log: seq<Command>, k: Key, x: Option<Value>, y: Option<Value>)
    requires Overwritten(log, k)
    ensures Effects(log, k, x) == Effects(log, k, y)
  {
    var front, last := log[..|log| - 1], log[|log| - 1];
    assert log == front + [last];
    if !Overwrites(last, k) {
      OverwrittenForgets(front, k, x, y);
    }
  }

  /** A key that is never overwritten keeps its presence, and its value unless a pattern set touches it. */
  lemma {:induction false} NotOverwritten(log: seq<Command>, k: Key, x: Option<Value>)
    requires !Overwritten(log, k)
    ensures Effects(log, k, x).Some? <==> x.Some?
    ensures !Touched(log, k) ==> Effects(log, k, x) == x
    ensures Touched(log, k) ==> forall y: Option<Value> :: y.Some? && x.Some? ==> Effects(log, k, x) == Effects(log, k, y)
  {
    if log != [] {
      var front, last := log[..|log| - 1], log[|log| - 1];
      assert log == front + [last];
      assert forall c :: c in front ==> c in log;
      NotOverwritten(front, k, x);
      forall y: Option<Value> | y.Some?
        ensures Effects(front, k, y).Some?
      {
        NotOverwritten(front, k, y);
      }
    }
  }

  /**
   * Replaying a whole log of unlimited commands on a state in which every key already shows the
   * effects of some prefix of it, a different one for each key, ends where running it once ends.
   */
  lemma {:induction false} ReplayAbsorbs(log: seq<Command>, base: KeyValues, state: KeyValues, prefix: Key -> nat)
    requires forall c :: c in log ==> Unlimited(c)
    requires forall k :: prefix(k) <= |log|
    requires forall k :: Lookup(state, k) == Effects(log[..prefix(k)], k, Lookup(base, k))
    ensures Run(log, state) == Run(log, base)
  {
    forall k
      ensures Lookup(Run(log, state), k) == Lookup(Run(log, base), k)
    {
      var x := Lookup(base, k);
      var done := log[..prefix(k)];
      RunPerKey(log, state, k);
      RunPerKey(log, base, k);
      if Overwritten(log, k) {
        OverwrittenForgets(log, k, x, Effects(done, k, x));
      } else {
        assert forall c :: c in done ==> c in log;
        NotOverwritten(done, k, x);
        NotOverwritten(log, k, x);
        if x.None? {
          NotOverwritten(log, k, None);
        }
        if !Touched(log, k) {
          assert !Touched(done, k);
        }
      }
    }
    LookupExtensional(Run(log, state), Run(log, base));
  }

  // ------------------------------------- replay with a smaller segment size

  /** The bytes a command has to append for a key. */
  function Size(c: Command): nat {
    match c
    case Set(_, v) => |v|
    case SetBy(_, v, _) => |v|
    case _ => 0
  }

  /** The commands that a replay does not refuse. */
  function Fitting(log: seq<Command>, size: nat): seq<Command> {
    if log == [] then []
    else
      var front, c := Fitting(log[..|log| - 1], size), log[|log| - 1];
      if Size(c) <= size then front + [c] else front
  }

  /** The command gives the key a value, if it is there. */
  predicate WritesTo(c: Command, k: Key) {
    (c.Set? || c.SetBy?) && Touches(c, k)
  }

  function LastWrite(log: seq<Command>, k: Key): (r: Option<nat>)
    ensures r.Some? ==> r.value < |log| && WritesTo(log[r.value], k)
  {
    if log == [] then None
    else if WritesTo(log[|log| - 1], k) then Some(|log| - 1)
    else LastWrite(log[..|log| - 1], k)
  }

  /** The last set or deletion of the key that fits is a set; without one, the key was there from the start. */
  predicate PresentAfter(log: seq<Command>, size: nat, k: Key, x: Option<Value>) {
    if log == [] then x.Some?
    else
      var c := log[|log| - 1];
      if Overwrites(c, k) && Size(c) <= size then c.Set? else PresentAfter(log[..|log| - 1], size, k, x)
  }

  /**
   * When a key with live value `v`, of which `x` is found, is right after the replay: it is absent;
   * or it was found right and no command that fits touches it; or the last command that wrote it
   * fits, and it is a set or still finds the key.
   */
  ghost predicate Restorable(log: seq<Command>, size: nat, k: Key, x: Option<Value>, v: Option<Value>) {
    || v.None?
    || (x == v && !Touched(Fitting(log, size), k))
    || (var i := LastWrite(log, k);
        i.Some? && Size(log[i.value]) <= size && (log[i.value].Set? || PresentAfter(log[..i.value], size, k, x)))
  }

  lemma {:induction false} FittingFacts(log: seq<Command>, size: nat)
    ensures forall c :: c in Fitting(log, size) <==> c in log && Size(c) <= size
  {
    if log != [] {
      var front, last := log[..|log| - 1], log[|log| - 1];
      assert log == front + [last];
      FittingFacts(front, size);
    }
  }

  lemma {:induction false} FittingAll(log: seq<Command>, size: nat)
    requires forall c :: c in log ==> Size(c) <= size
    ensures Fitting(log, size) == log
  {
    if log != [] {
      var front, last := log[..|log| - 1], log[|log| - 1];
      assert log == front + [last];
      FittingAll(front, size);
    }
  }

  lemma OverwrittenAppend(log: seq<Command>, c: Command, k: Key)
    ensures Overwritten(log + [c], k) <==> Overwritten(log, k) || Overwrites(c, k)
    ensures Touched(log + [c], k) <==> Touched(log, k) || Touches(c, k)
    ensures forall x :: Effects(log + [c], k, x) == Effect(c, k, Effects(log, k, x))
  {
    assert (log + [c])[..|log|] == log;
    assert c in log + [c] && forall x :: x in log ==> x in log + [c];
  }

  lemma {:induction false} PresentIs(log: seq<Command>, size: nat, k: Key, x: Option<Value>)
    ensures Effects(Fitting(log, size), k, x).Some? <==> PresentAfter(log, size, k, x)
  {
    if log != [] {
      var front, c := log[..|log| - 1], log[|log| - 1];
      PresentIs(front, size, k, x);
      OverwrittenAppend(Fitting(front, size), c, k);
    }
  }

  /** A key that is there in the end has the value of its last write, and nothing touches it afterwards. */
  lemma {:induction false} LiveTail(log: seq<Command>, k: Key, y: Option<Value>)
    requires Effects(log, k, y).Some?
    ensures var i := LastWrite(log, k);
            if i.None? then !Touched(log, k)
            else (forall j :: i.value < j < |log| ==> !Touches(log[j], k))
                 && Effects(log, k, y) == Some(log[i.value].value)
  {
    if log != [] {
      var front, c := log[..|log| - 1], log[|log| - 1];
      assert log == front + [c];
      OverwrittenAppend(front, c, k);
      if !WritesTo(c, k) {
        LiveTail(front, k, y);
        var i := LastWrite(front, k);
        if i.Some? {
          assert front[i.value] == log[i.value];
          assert forall j :: i.value < j < |front| ==> log[j] == front[j];
        }
      }
    }
  }

  lemma {:induction false} FittingTail(log: seq<Command>, size: nat, k: Key, x: Option<Value>, n: nat)
    requires n <= |log| && forall j :: n <= j < |log| ==> !Touches(log[j], k)
    ensures Effects(Fitting(log, size), k, x) == Effects(Fitting(log[..n], size), k, x)
  {
    if n == |log| {
      assert log[..n] == log;
    } else {
      var front, c := log[..|log| - 1], log[|log| - 1];
      FittingTail(front, size, k, x, n);
      OverwrittenAppend(Fitting(front, size), c, k);
      assert front[..n] == log[..n];
    }
  }

  /** A value larger than any a log writes is there in the end only if the log left it alone. */
  lemma {:induction false} LargeValue(log: seq<Command>, k: Key, x: Option<Value>, w: Value)
    requires forall c :: c in log ==> Size(c) < |w|
    ensures Effects(log, k, x) == Some(w) <==> x == Some(w) && !Touched(log, k)
  {
    if log != [] {
      var front, c := log[..|log| - 1], log[|log| - 1];
      assert log == front + [c];
      OverwrittenAppend(front, c, k);
      assert c in log && forall b :: b in front ==> b in log;
      LargeValue(front, k, x, w);
    }
  }

  /** A key that the whole log leaves absent is absent after the commands that fit. */
  lemma {:induction false} GoneStays(log: seq<Command>, size: nat, k: Key, x: Option<Value>)
    requires Overwritten(log, k) && Effects(log, k, None) == None
    ensures Effects(Fitting(log, size), k, x) == None
  {
    var front, c := log[..|log| - 1], log[|log| - 1];
    assert log == front + [c];
    OverwrittenAppend(front, c, k);
    OverwrittenAppend(Fitting(front, size), c, k);
    hide Overwritten, Effects;
    if !Overwrites(c, k) {
      GoneStays(front, size, k, x);
    }
  }

  /** What a log tells about a live value, and what the key's file state must be without it. */
  ghost predicate Explains(log: seq<Command>, k: Key, x: Option<Value>, v: Option<Value>) {
    if Overwritten(log, k) then v == Effects(log, k, None)
    else if v.None? then x.None?
    else if Touched(log, k) then v == Effects(log, k, Some(""))
    else x == v
  }

  /** The commands that fit, replayed on `x`, give the live value if and only if it is restorable. */
  lemma {:induction false} ReplayExact(log: seq<Command>, size: nat, k: Key, x: Option<Value>, v: Option<Value>)
    requires Explains(log, k, x, v)
    ensures Effects(Fitting(log, size), k, x) == v <==> Restorable(log, size, k, x, v)
  {
    var kept := Fitting(log, size);
    FittingFacts(log, size);
    if v.None? {
      if Overwritten(log, k) {
        GoneStays(log, size, k, x);
      } else {
        NotOverwritten(kept, k, x);
      }
    } else if !Touched(log, k) {
      assert !Touched(kept, k);
      NotOverwritten(kept, k, x);
    } else {
      ReplayWritten(log, size, k, x, v);
    }
  }

  lemma {:induction false} ReplayWritten(log: seq<Command>, size: nat, k: Key, x: Option<Value>, v: Option<Value>)
    requires Explains(log, k, x, v) && v.Some? && Touched(log, k)
    ensures Effects(Fitting(log, size), k, x) == v <==> Restorable(log, size, k, x, v)
  {
    LiveTail(log, k, if Overwritten(log, k) then None else Some(""));
    hide Effects, LastWrite, Overwritten, PresentAfter, Fitting, Touched;
    var i := LastWrite(log, k).value;
    FittingFacts(log, size);
    if Size(log[i]) > size {
      LargeValue(Fitting(log, size), k, x, v.value);
    } else {
      LastWriteFits(log, size, k, x, i);
    }
  }

  /** The effect of a last write that fits. */
  lemma LastWriteFits(log: seq<Command>, size: nat, k: Key, x: Option<Value>, i: nat)
    requires i < |log| && WritesTo(log[i], k) && Size(log[i]) <= size
    requires forall j :: i < j < |log| ==> !Touches(log[j], k)
    ensures Touched(Fitting(log, size), k)
    ensures Effects(Fitting(log, size), k, x)
         == if log[i].Set? || PresentAfter(log[..i], size, k, x) then Some(log[i].value) else None
  {
    var front := log[..i];
    FittingFacts(log, size);
    assert log[i] in log;
    FittingTail(log, size, k, x, i + 1);
    assert log[..i + 1][..i] == front;
    OverwrittenAppend(Fitting(front, size), log[i], k);
    PresentIs(front, size, k, x);
    hide Effects, PresentAfter;
  }

  // ------------------------------------------------------- limited commands

  /** A pattern set, limited or not, chooses the same keys again: executing it twice is executing it once. */
  lemma SetByTwice(p: Key -> bool, v: Value, limit: Option<nat>, m: KeyValues)
    ensures var c := SetBy(p, v, limit); Apply(c, Apply(c, m)) == Apply(c, m)
  {
    var m' := Apply(SetBy(p, v, limit), m);
    assert Matching(m', p) == Matching(m, p);
  }

  /** A limited `delby` takes further keys each time, unless its limit is 0 or it takes all matches. */
  lemma DelByTwice(p: Key -> bool, n: nat, m: KeyValues)
    ensures var c := DelBy(p, Some(n)); Apply(c, Apply(c, m)) == Apply(c, m) <==> n == 0 || |Matching(m, p)| <= n
  {
    hide *;
    var all := Matching(m, p);
    var gone := SetOf(Smallest(all, n));
    DelByIs(p, n, m);
    var m' := m - gone;
    DelByIs(p, n, m');
    NothingGone(m', SetOf(Smallest(all - gone, n)));
  }

  /** What a limited `delby` removes, how many that is, and what matches afterwards. */
  lemma DelByIs(p: Key -> bool, n: nat, m: KeyValues)
    ensures var all := Matching(m, p); var gone := SetOf(Smallest(all, n));
            && Apply(DelBy(p, Some(n)), m) == m - gone && gone <= m.Keys
            && |gone| == Min(n, |all|) == (if n <= |all| then n else |all|)
            && Matching(m - gone, p) == all - gone && |all - gone| == |all| - |gone|
  {
    SmallestSubset(Matching(m, p), n);
    hide SetOf, Smallest;
  }

  lemma NothingGone(m: KeyValues, keys: set<Key>)
    requires keys <= m.Keys
    ensures m - keys == m <==> |keys| == 0
  {
    if keys != {} {
      var k :| k in keys;
    }
  }

  /** The limit of a command does not cut anything off. */
  ghost predicate Saturated(c: Command, m: KeyValues) {
    (c.SetBy? || c.DelBy?) && c.limit.Some? ==> |Matching(m, c.matches)| <= c.limit.value
  }

  /** So it is for every command of a run. */
  ghost predicate RunSaturated(log: seq<Command>, m: KeyValues) {
    log != [] ==>
      var front := log[..|log| - 1]; RunSaturated(front, m) && Saturated(log[|log| - 1], Run(front, m))
  }

  function WithoutLimit(c: Command): Command {
    match c
    case SetBy(p, v, _) => SetBy(p, v, None)
    case DelBy(p, _) => DelBy(p, None)
    case _ => c
  }

  function WithoutLimits(log: seq<Command>): seq<Command> {
    if log == [] then [] else WithoutLimits(log[..|log| - 1]) + [WithoutLimit(log[|log| - 1])]
  }

  lemma SaturatedApply(c: Command, m: KeyValues)
    requires Saturated(c, m)
    ensures Apply(c, m) == Apply(WithoutLimit(c), m)
  {
    if (c.SetBy? || c.DelBy?) && c.limit.Some? {
      var all := Matching(m, c.matches);
      SmallestSubset(all, c.limit.value);
      EqualSize(SetOf(Smallest(all, c.limit.value)), all);
    }
  }

  lemma {:induction false} SaturatedRun(log: seq<Command>, m: KeyValues)
    requires RunSaturated(log, m)
    ensures Run(log, m) == Run(WithoutLimits(log), m)
    ensures |WithoutLimits(log)| == |log| && forall c :: c in WithoutLimits(log) ==> Unlimited(c)
  {
    hide Apply, Saturated;
    if log != [] {
      var n := |log| - 1;
      SaturatedRun(log[..n], m);
      SaturatedApply(log[n], Run(log[..n], m));
      assert WithoutLimits(log)[..n] == WithoutLimits(log[..n]);
    }
  }

  /**
   * A log with limited commands is absorbed like one without when no limit cuts anything off,
   * neither in the run nor in the replay.
   */
  lemma {:induction false} SaturatedReplayAbsorbs(log: seq<Command>, base: KeyValues, state: KeyValues, prefix: Key -> nat)
    requires RunSaturated(log, base) && RunSaturated(log, state)
    requires forall k :: prefix(k) <= |WithoutLimits(log)|
    requires forall k :: Lookup(state, k) == Effects(WithoutLimits(log)[..prefix(k)], k, Lookup(base, k))
    ensures Run(log, state) == Run(log, base)
  {
    SaturatedRun(log, base);
    SaturatedRun(log, state);
    ReplayAbsorbs(WithoutLimits(log), base, state, prefix);
  }

  lemma SmallestSubset(s: set<Key>, n: nat)
    ensures SetOf(Smallest(s, n)) <= s && |SetOf(Smallest(s, n))| == Min(n, |s|)
  {
    var all := Ascending(s);
    SortedDistinct(all);
    DistinctSize(Smallest(s, n));
    assert forall k :: k in Smallest(s, n) ==> k in SetOf(all);
  }
}
