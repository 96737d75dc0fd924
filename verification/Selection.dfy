/**
 * The keys a limited pattern write acts on: each shard keeps the `limit` smallest of its
 * matching keys in some order, the lists are joined, cut again and sorted.
 */
module Selection {
  import opened Base

  /** `std::string::operator<`. */
  predicate Less(a: Key, b: Key) {
    if b == "" then false
    else if a == "" then true
    else a[0] < b[0] || (a[0] == b[0] && Less(a[1..], b[1..]))
  }

  /** The byte order of strings: `a` is a proper prefix, or smaller at the first difference. */
  ghost predicate Precedes(a: Key, b: Key) {
    a < b || exists i :: 0 <= i < |a| && i < |b| && a[..i] == b[..i] && a[i] < b[i]
  }

  lemma {:induction false} LessIsByteOrder(a: Key, b: Key)
    ensures Less(a, b) <==> a < b || exists i :: 0 <= i < |a| && i < |b| && a[..i] == b[..i] && a[i] < b[i]
    ensures Less(a, b) <==> Precedes(a, b)
  {
    if a != "" && b != "" {
      LessIsByteOrder(a[1..], b[1..]);
      PrefixTail(a, b);
      if a[0] == b[0] {
        DifferenceTail(a, b);
      } else if a[0] < b[0] {
        assert a[..0] == b[..0];
      } else {
        assert forall i :: 0 < i < |a| && i < |b| ==> a[..i][0] != b[..i][0];
      }
    }
  }

  lemma PrefixTail(a: Key, b: Key)
    requires a != "" && b != ""
    ensures a < b <==> a[0] == b[0] && a[1..] < b[1..]
  {
    assert a == [a[0]] + a[1..] && b == [b[0]] + b[1..];
  }

  /** The first difference, seen from behind a common first character. */
  lemma DifferenceTail(a: Key, b: Key)
    requires a != "" && b != "" && a[0] == b[0]
    ensures (exists i :: 0 <= i < |a| && i < |b| && a[..i] == b[..i] && a[i] < b[i])
       <==> (exists i :: 0 <= i < |a| - 1 && i < |b| - 1 && a[1..][..i] == b[1..][..i] && a[1..][i] < b[1..][i])
  {
    var x, y := a[1..], b[1..];
    if i :| 0 <= i < |x| && i < |y| && x[..i] == y[..i] && x[i] < y[i] {
      assert a[..i + 1] == [a[0]] + x[..i] && b[..i + 1] == [b[0]] + y[..i] && a[i + 1] < b[i + 1];
    }
    if i :| 0 <= i < |a| && i < |b| && a[..i] == b[..i] && a[i] < b[i] {
      assert x[..i - 1] == a[..i][1..] && y[..i - 1] == b[..i][1..] && x[i - 1] < y[i - 1];
    }
  }

  lemma {:induction false} LessTotal(a: Key, b: Key)
    ensures a == b || Less(a, b) || Less(b, a)
    ensures !(Less(a, b) && Less(b, a)) && !Less(a, a)
  {
    if a != "" && b != "" {
      LessTotal(a[1..], b[1..]);
      assert a == [a[0]] + a[1..] && b == [b[0]] + b[1..];
    }
    if a != "" {
      LessTotal(a[1..], a[1..]);
    }
  }

  lemma {:induction false} LessTransitive(a: Key, b: Key, c: Key)
    requires Less(a, b) && Less(b, c)
    ensures Less(a, c)
  {
    if a != "" && a[0] == b[0] == c[0] {
      LessTransitive(a[1..], b[1..], c[1..]);
    }
  }

  ghost predicate StrictlySorted(s: seq<Key>) {
    forall i, j :: 0 <= i < j < |s| ==> Less(s[i], s[j])
  }

  function SetOf(s: seq<Key>): set<Key> {
    set k | k in s
  }

  /** The smallest member of a non-empty set. */
  ghost predicate IsLeast(m: Key, s: set<Key>) {
    m in s && forall x :: x in s && x != m ==> Less(m, x)
  }

  lemma {:induction false} LeastExists(s: set<Key>) returns (m: Key)
    requires s != {}
    ensures IsLeast(m, s)
    decreases s
  {
    var x :| x in s;
    if s == {x} {
      m := x;
    } else {
      var m0 := LeastExists(s - {x});
      LessTotal(x, m0);
      if Less(x, m0) {
        m := x;
        forall y | y in s && y != x
          ensures Less(x, y)
        {
          if y != m0 {
            LessTransitive(x, m0, y);
          }
        }
      } else {
        m := m0;
      }
    }
  }

  /** The members of a set in ascending order. */
  ghost function Ascending(s: set<Key>): (r: seq<Key>)
    ensures |r| == |s| && SetOf(r) == s && StrictlySorted(r)
    decreases |s|
  {
    if s == {} then []
    else
      assert exists m :: IsLeast(m, s) by {
        var m := LeastExists(s);
      }
      var m :| IsLeast(m, s);
      var rest := Ascending(s - {m});
      LeastFirst(m, s, rest);
      [m] + rest
  }

  lemma LeastFirst(m: Key, s: set<Key>, rest: seq<Key>)
    requires IsLeast(m, s) && SetOf(rest) == s - {m} && StrictlySorted(rest)
    ensures StrictlySorted([m] + rest) && SetOf([m] + rest) == s
  {
    SetOfCons(m, rest);
    forall j | 0 <= j < |rest|
      ensures Less(m, rest[j])
    {
      assert rest[j] in SetOf(rest);
    }
  }

  /** The first `n` members of a set in ascending order; all of them when there are fewer. */
  ghost function Smallest(s: set<Key>, n: nat): seq<Key> {
    Ascending(s)[..Min(n, |s|)]
  }

  /** `r` holds the `n` smallest members of `s`. */
  ghost predicate IsSmallest(r: set<Key>, s: set<Key>, n: nat) {
    && r <= s
    && |r| == Min(n, |s|)
    && forall x, y :: x in r && y in s - r ==> Less(x, y)
  }

  lemma SmallestUnique(a: set<Key>, b: set<Key>, s: set<Key>, n: nat)
    requires IsSmallest(a, s, n) && IsSmallest(b, s, n)
    ensures a == b
  {
    if a != b {
      if a <= b {
        EqualSize(a, b);
      } else if b <= a {
        EqualSize(b, a);
      } else {
        var x :| x in a && x !in b;
        var y :| y in b && y !in a;
        assert y in s - a && x in s - b;
        LessTotal(x, y);
      }
    }
  }

  lemma EqualSize<T>(a: set<T>, b: set<T>)
    requires a <= b && |a| == |b|
    ensures a == b
  {
    assert b == a + (b - a);
    assert |b - a| == 0;
  }

  lemma {:induction false} DistinctSize(s: seq<Key>)
    requires forall i, j :: 0 <= i < j < |s| ==> s[i] != s[j]
    ensures |SetOf(s)| == |s|
  {
    if s != [] {
      var n := |s| - 1;
      DistinctSize(s[..n]);
      assert s == s[..n] + [s[n]];
      assert SetOf(s) == SetOf(s[..n]) + {s[n]};
      assert s[n] !in SetOf(s[..n]);
    }
  }

  lemma SortedDistinct(s: seq<Key>)
    requires StrictlySorted(s)
    ensures forall i, j :: 0 <= i < j < |s| ==> s[i] != s[j]
  {
    forall i, j | 0 <= i < j < |s|
      ensures s[i] != s[j]
    {
      LessTotal(s[i], s[j]);
      LessTotal(s[i], s[i]);
    }
  }

  /** A set has only one ascending listing. */
  lemma {:induction false} SortedUnique(a: seq<Key>, b: seq<Key>)
    requires StrictlySorted(a) && StrictlySorted(b) && SetOf(a) == SetOf(b)
    ensures a == b
  {
    SortedDistinct(a);
    SortedDistinct(b);
    DistinctSize(a);
    DistinctSize(b);
    if a != [] {
      assert a[0] in SetOf(b) && b[0] in SetOf(a);
      var i :| 0 <= i < |b| && b[i] == a[0];
      var j :| 0 <= j < |a| && a[j] == b[0];
      LessTotal(a[0], b[0]);
      assert a[0] == b[0];
      assert SetOf(a[1..]) == SetOf(a) - {a[0]} by { DropFirst(a); }
      assert SetOf(b[1..]) == SetOf(b) - {b[0]} by { DropFirst(b); }
      SortedUnique(a[1..], b[1..]);
    }
  }

  lemma DropFirst(a: seq<Key>)
    requires a != [] && forall i, j :: 0 <= i < j < |a| ==> a[i] != a[j]
    ensures SetOf(a[1..]) == SetOf(a) - {a[0]}
  {
    assert a == [a[0]] + a[1..];
  }

  /** Sorting the `n` smallest members, however they were found, gives `Smallest`. */
  lemma SortedSmallest(r: seq<Key>, s: set<Key>, n: nat)
    requires StrictlySorted(r) && IsSmallest(SetOf(r), s, n)
    ensures r == Smallest(s, n)
  {
    var p := Smallest(s, n);
    SmallestIs(s, n);
    SmallestUnique(SetOf(r), SetOf(p), s, n);
    SortedUnique(r, p);
  }

  ghost function Before(s: set<Key>, k: Key): set<Key> {
    set x | x in s && Precedes(x, k)
  }

  /** In byte order, and exactly the members that fewer than `n` others precede. */
  ghost predicate FirstInOrder(r: seq<Key>, s: set<Key>, n: nat) {
    && |r| == Min(n, |s|)
    && (forall i, j :: 0 <= i < j < |r| ==> Precedes(r[i], r[j]))
    && forall k :: k in r <==> k in s && |Before(s, k)| < n
  }

  lemma {:induction false} SmallestAreFirst(s: set<Key>, n: nat)
    ensures FirstInOrder(Smallest(s, n), s, n)
  {
    hide Precedes, Less, Ascending, Smallest, IsSmallest, Before;
    var r := Smallest(s, n);
    SmallestIs(s, n);
    SortedPrecedes(r);
    forall k
      ensures k in r <==> k in s && |Before(s, k)| < n
    {
      SmallestWithin(SetOf(r), s, n);
      if k in s {
        CountBefore(SetOf(r), s, n, k);
      }
    }
  }

  lemma SortedPrecedes(r: seq<Key>)
    requires StrictlySorted(r)
    ensures forall i, j :: 0 <= i < j < |r| ==> Precedes(r[i], r[j])
  {
    hide Precedes, Less;
    forall i, j | 0 <= i < j < |r|
      ensures Precedes(r[i], r[j])
    {
      LessIsByteOrder(r[i], r[j]);
    }
  }

  lemma SmallestWithin(r: set<Key>, s: set<Key>, n: nat)
    requires IsSmallest(r, s, n)
    ensures r <= s
  {
  }

  lemma SmallestIs(s: set<Key>, n: nat)
    ensures var r := Smallest(s, n); StrictlySorted(r) && |r| == Min(n, |s|) && IsSmallest(SetOf(r), s, n)
  {
    var all, r := Ascending(s), Smallest(s, n);
    SortedDistinct(r);
    DistinctSize(r);
    assert forall x :: x in r ==> x in SetOf(all);
    forall x, y | x in SetOf(r) && y in s - SetOf(r)
      ensures Less(x, y)
    {
      var i :| 0 <= i < |r| && r[i] == x;
      assert y in SetOf(all);
      var j :| 0 <= j < |all| && all[j] == y;
      assert j >= |r| by {
        assert forall m :: 0 <= m < |r| ==> all[m] == r[m] && all[m] in SetOf(r);
      }
    }
  }

  /** A member is among the `n` smallest exactly when fewer than `n` precede it. */
  lemma CountBefore(r: set<Key>, s: set<Key>, n: nat, k: Key)
    requires IsSmallest(r, s, n) && k in s
    ensures k in r <==> |Before(s, k)| < n
  {
    forall x
      ensures Less(x, k) <==> Precedes(x, k)
    {
      LessIsByteOrder(x, k);
    }
    hide Precedes, Less;
    if k in r {
      forall x | x in Before(s, k)
        ensures x in r - {k}
      {
        LessTotal(x, k);
      }
      SubsetSize(Before(s, k), r - {k});
    } else {
      assert r <= Before(s, k);
      SubsetSize(r, Before(s, k));
      if |s| <= n {
        EqualSize(r, s);
      }
    }
  }

  // ---------------------------------------------------- per-shard candidates

  /** Whatever `t` leaves out of `s` is larger than some `n` members of `t`. */
  ghost predicate Covers(t: set<Key>, s: set<Key>, n: nat) {
    t <= s && forall y :: y in s - t ==> exists u :: Below(u, t, n, y)
  }

  ghost predicate Below(u: set<Key>, t: set<Key>, n: nat, y: Key) {
    u <= t && |u| == n && forall x :: x in u ==> Less(x, y)
  }

  lemma SmallestCovers(r: set<Key>, s: set<Key>, n: nat)
    requires IsSmallest(r, s, n)
    ensures Covers(r, s, n)
  {
    forall y | y in s - r
      ensures Below(r, r, n, y)
    {
      if |s| <= n {
        EqualSize(r, s);
      }
    }
  }

  lemma CoversUnion(t1: set<Key>, s1: set<Key>, t2: set<Key>, s2: set<Key>, n: nat)
    requires Covers(t1, s1, n) && Covers(t2, s2, n)
    ensures Covers(t1 + t2, s1 + s2, n)
  {
    forall y | y in (s1 + s2) - (t1 + t2)
      ensures exists u :: Below(u, t1 + t2, n, y)
    {
      if y in s1 {
        assert y in s1 - t1;
        var u :| Below(u, t1, n, y);
        assert Below(u, t1 + t2, n, y);
      } else {
        assert y in s2 - t2;
        var u :| Below(u, t2, n, y);
        assert Below(u, t1 + t2, n, y);
      }
    }
  }

  /** The `n` smallest of a covering subset are the `n` smallest of all. */
  lemma CoveringSuffices(r: set<Key>, t: set<Key>, s: set<Key>, n: nat)
    requires Covers(t, s, n) && IsSmallest(r, t, n)
    ensures IsSmallest(r, s, n)
  {
    SubsetSize(t, s);
    if s <= t {
      assert s == t;
    } else {
      var y :| y in s && y !in t;
      assert y in s - t;
      var u :| Below(u, t, n, y);
      SubsetSize(u, t);
    }
    forall x, y | x in r && y in s - r
      ensures Less(x, y)
    {
      if y in t {
        assert y in t - r;
      } else {
        assert y in s - t;
        var u :| Below(u, t, n, y);
        SmallerThanOutsider(r, t, u, n, x, y);
      }
    }
  }

  lemma SmallerThanOutsider(r: set<Key>, t: set<Key>, u: set<Key>, n: nat, x: Key, y: Key)
    requires IsSmallest(r, t, n) && Below(u, t, n, y) && x in r
    ensures Less(x, y)
  {
    if x !in u {
      if u <= r {
        SubsetSize(u, r);
        EqualSize(u, r);
      } else {
        var z :| z in u && z !in r;
        assert z in t - r;
        LessTransitive(x, z, y);
      }
    }
  }

  // ---------------------------------------------------------- the selection

  /** `std::sort`. */
  method Sort(keys: seq<Key>) returns (r: seq<Key>)
    requires forall i, j :: 0 <= i < j < |keys| ==> keys[i] != keys[j]
    ensures StrictlySorted(r) && SetOf(r) == SetOf(keys)
  {
    r := [];
    for i := 0 to |keys|
      invariant StrictlySorted(r) && SetOf(r) == SetOf(keys[..i])
    {
      assert keys[..i + 1] == keys[..i] + [keys[i]];
      assert keys[i] !in SetOf(keys[..i]);
      r := InsertSorted(r, keys[i]);
    }
    assert keys[..|keys|] == keys;
  }

  lemma SetOfCons(x: Key, s: seq<Key>)
    ensures SetOf([x] + s) == {x} + SetOf(s)
  {
  }

  function InsertSorted(r: seq<Key>, x: Key): (t: seq<Key>)
    requires StrictlySorted(r) && x !in SetOf(r)
    ensures StrictlySorted(t) && SetOf(t) == SetOf(r) + {x}
  {
    if r == [] then [x]
    else
      assert r == [r[0]] + r[1..];
      LessTotal(x, r[0]);
      if Less(x, r[0]) then
        SortedCons(x, r);
        SetOfCons(x, r);
        [x] + r
      else
        assert r[0] != x;
        var t := InsertSorted(r[1..], x);
        SetOfCons(r[0], r[1..]);
        SetOfCons(r[0], t);
        InsertedAbove(r, x, t);
        [r[0]] + t
  }

  lemma SortedCons(x: Key, r: seq<Key>)
    requires StrictlySorted(r) && r != [] && Less(x, r[0])
    ensures StrictlySorted([x] + r)
  {
    forall i | 0 < i < |r| ensures Less(x, r[i]) {
      LessTransitive(x, r[0], r[i]);
    }
  }

  lemma InsertedAbove(r: seq<Key>, x: Key, t: seq<Key>)
    requires StrictlySorted(r) && r != [] && Less(r[0], x) && StrictlySorted(t) && SetOf(t) == SetOf(r[1..]) + {x}
    ensures StrictlySorted([r[0]] + t)
  {
    forall j | 0 <= j < |t| ensures Less(r[0], t[j]) {
      assert t[j] in SetOf(t);
      if t[j] != x {
        var i :| 0 <= i < |r[1..]| && r[1..][i] == t[j];
        assert Less(r[0], r[i + 1]);
      }
    }
  }

  /**
   * `std::nth_element` followed by `resize(n)`: the `n` smallest keys, in no particular order
   * as far as callers may tell.
   */
  method NthElementAndResize(keys: seq<Key>, n: nat) returns (r: seq<Key>)
    requires forall i, j :: 0 <= i < j < |keys| ==> keys[i] != keys[j]
    requires n < |keys|
    ensures forall i, j :: 0 <= i < j < |r| ==> r[i] != r[j]
    ensures IsSmallest(SetOf(r), SetOf(keys), n)
  {
    var sorted := Sort(keys);
    SortedDistinct(sorted);
    DistinctSize(sorted);
    DistinctSize(keys);
    r := sorted[..n];
    DistinctSize(r);
    assert forall x :: x in r ==> x in SetOf(sorted);
    forall x, y | x in SetOf(r) && y in SetOf(keys) - SetOf(r)
      ensures Less(x, y)
    {
      var i :| 0 <= i < |r| && r[i] == x;
      assert y in SetOf(sorted);
      var j :| 0 <= j < |sorted| && sorted[j] == y;
      assert j >= n by {
        assert forall m :: 0 <= m < n ==> sorted[m] == r[m] && sorted[m] in SetOf(r);
      }
    }
  }

  /** `Shard::matchingKeys` on the shard's matching keys in table order. */
  method MatchingKeys(matching: seq<Key>, limit: nat) returns (r: seq<Key>)
    requires forall i, j :: 0 <= i < j < |matching| ==> matching[i] != matching[j]
    ensures forall i, j :: 0 <= i < j < |r| ==> r[i] != r[j]
    ensures IsSmallest(SetOf(r), SetOf(matching), limit)
  {
    if |matching| > limit {
      r := NthElementAndResize(matching, limit);
    } else {
      r := matching;
      DistinctSize(matching);
    }
  }

  function Union(shards: seq<seq<Key>>): set<Key> {
    set i, k | 0 <= i < |shards| && k in shards[i] :: k
  }

  /**
   * `ShardManager::firstMatchingKeys`: whatever the number of shards, the assignment of keys to
   * them and the order each lists its matches in, the outcome is the first `limit` of all
   * matching keys in ascending order.
   */
  method FirstMatchingKeys(shards: seq<seq<Key>>, limit: nat) returns (keys: seq<Key>)
    requires forall s, i, j :: 0 <= s < |shards| && 0 <= i < j < |shards[s]| ==> shards[s][i] != shards[s][j]
    requires forall s, t, k :: 0 <= s < t < |shards| && k in shards[s] ==> k !in shards[t]
    ensures keys == Smallest(Union(shards), limit)
  {
    keys := Candidates(shards, limit);
    ghost var all := SetOf(keys);
    if |keys| > limit {
      keys := NthElementAndResize(keys, limit);
    } else {
      DistinctSize(keys);
    }
    CoveringSuffices(SetOf(keys), all, Union(shards), limit);
    keys := Sort(keys);
    SortedSmallest(keys, Union(shards), limit);
  }

  lemma UnionStep(shards: seq<seq<Key>>, s: nat)
    requires s < |shards|
    ensures Union(shards[..s + 1]) == Union(shards[..s]) + SetOf(shards[s])
  {
  }

  lemma AppendDistinct(a: seq<Key>, b: seq<Key>)
    requires forall i, j :: 0 <= i < j < |a| ==> a[i] != a[j]
    requires forall i, j :: 0 <= i < j < |b| ==> b[i] != b[j]
    requires SetOf(a) !! SetOf(b)
    ensures forall i, j :: 0 <= i < j < |a + b| ==> (a + b)[i] != (a + b)[j]
    ensures SetOf(a + b) == SetOf(a) + SetOf(b)
  {
    forall i, j | 0 <= i < j < |a + b|
      ensures (a + b)[i] != (a + b)[j]
    {
      if i < |a| <= j {
        assert a[i] in SetOf(a) && b[j - |a|] in SetOf(b);
      }
    }
  }

  /** The lists of all shards, joined. */
  method Candidates(shards: seq<seq<Key>>, limit: nat) returns (keys: seq<Key>)
    requires forall s, i, j :: 0 <= s < |shards| && 0 <= i < j < |shards[s]| ==> shards[s][i] != shards[s][j]
    requires forall s, t, k :: 0 <= s < t < |shards| && k in shards[s] ==> k !in shards[t]
    ensures forall i, j :: 0 <= i < j < |keys| ==> keys[i] != keys[j]
    ensures Covers(SetOf(keys), Union(shards), limit)
  {
    keys := [];
    for s := 0 to |shards|
      invariant forall i, j :: 0 <= i < j < |keys| ==> keys[i] != keys[j]
      invariant Covers(SetOf(keys), Union(shards[..s]), limit)
    {
      var shardKeys := MatchingKeys(shards[s], limit);
      SmallestCovers(SetOf(shardKeys), SetOf(shards[s]), limit);
      CoversUnion(SetOf(keys), Union(shards[..s]), SetOf(shardKeys), SetOf(shards[s]), limit);
      UnionStep(shards, s);
      assert Union(shards[..s]) !! SetOf(shards[s]);
      AppendDistinct(keys, shardKeys);
      keys := keys + shardKeys;
    }
    assert shards[..|shards|] == shards;
  }
}
