/** Vocabulary shared by every component: keys, values, locations, lexicographic order. */
module Base {

  type Key = string
  type Value = string

  /** What a shard or the whole database stores. */
  type KeyValues = map<Key, Value>

  datatype Option<+T> = None | Some(value: T)

  /** Where a value lives: byte range `[offset, offset + size)` of segment `seg`. */
  datatype Location = Location(offset: nat, seg: nat, size: nat)

  function Lookup<K, V>(m: map<K, V>, k: K): Option<V> {
    if k in m then Some(m[k]) else None
  }

  function Min(a: int, b: int): int {
    if a <= b then a else b
  }

  function Max(a: int, b: int): int {
    if a <= b then b else a
  }

  /** `order` lists the members of `s`, each exactly once: one iteration of a hash table. */
  ghost predicate Enumerates<T(!new)>(order: seq<T>, s: set<T>) {
    && (forall x :: x in order <==> x in s)
    && (forall i, j :: 0 <= i < j < |order| ==> order[i] != order[j])
  }

  lemma {:induction false} EnumeratesSize<T(!new)>(order: seq<T>, s: set<T>)
    requires Enumerates(order, s)
    ensures |order| == |s|
  {
    if order == [] {
      assert s == {};
    } else {
      var n := |order| - 1;
      assert order == order[..n] + [order[n]];
      EnumeratesSize(order[..n], s - {order[n]});
    }
  }

  lemma SubsetSize<T>(a: set<T>, b: set<T>)
    requires a <= b
    ensures |a| <= |b|
  {
    assert b == a + (b - a);
  }

  function Below(n: nat): (r: set<nat>)
    ensures forall i :: i in r <==> 0 <= i < n
  {
    if n == 0 then {} else Below(n - 1) + {n - 1}
  }

  lemma {:induction false} BelowSize(n: nat)
    ensures |Below(n)| == n
  {
    if n > 0 {
      BelowSize(n - 1);
    }
  }

  /** Two maps that agree on every lookup are the same map. */
  lemma LookupExtensional<K(!new), V>(a: map<K, V>, b: map<K, V>)
    requires forall k :: Lookup(a, k) == Lookup(b, k)
    ensures a == b
  {
    forall k | k in a || k in b
      ensures k in a && k in b && a[k] == b[k]
    {
      assert Lookup(a, k) == Lookup(b, k);
    }
  }
}

/** Little-endian integers, as `ostream::write` of an integer's bytes produces them. */
module Bytes {

  function Pow256(w: nat): (r: nat)
    ensures r > 0
  {
    if w == 0 then 1 else 256 * Pow256(w - 1)
  }

  /** The `w` low bytes of `n`: a wider `n` is truncated, as the casts of the source do. */
  function Le(n: nat, w: nat): (s: string)
    ensures |s| == w
  {
    if w == 0 then "" else [(n % 256) as char] + Le(n / 256, w - 1)
  }

  function UnLe(s: string): nat {
    if s == "" then 0 else s[0] as int % 256 + 256 * UnLe(s[1..])
  }

  lemma {:induction false} LeRoundTrip(n: nat, w: nat)
    requires n < Pow256(w)
    ensures UnLe(Le(n, w)) == n
  {
    if w > 0 {
      LeRoundTrip(n / 256, w - 1);
      assert Le(n, w)[1..] == Le(n / 256, w - 1);
    }
  }

  /** The lowest byte comes first. */
  lemma FourBytes(a: char, b: char, c: char, d: char)
    ensures UnLe([a, b, c, d]) == a as int % 256 + 0x100 * (b as int % 256) + 0x1_0000 * (c as int % 256) + 0x100_0000 * (d as int % 256)
  {
    assert [a, b, c, d][1..] == [b, c, d] && [b, c, d][1..] == [c, d] && [c, d][1..] == [d] && [d][1..] == [];
    assert UnLe([]) == 0;
    assert UnLe([d]) == d as int % 256 + 256 * UnLe([]);
    assert UnLe([c, d]) == c as int % 256 + 256 * UnLe([d]);
    assert UnLe([b, c, d]) == b as int % 256 + 256 * UnLe([c, d]);
    assert UnLe([a, b, c, d]) == a as int % 256 + 256 * UnLe([b, c, d]);
  }

  const POW32: nat := 0x1_0000_0000
  const POW64: nat := 0x1_0000_0000_0000_0000

  /** A 64-bit unsigned number, such as SegSize. */
  type U64 = n: nat | n < POW64 witness 0

  const MAX_U64: U64 := POW64 - 1

  lemma Widths()
    ensures Pow256(4) == POW32 && Pow256(8) == POW64
  {
    assert Pow256(1) == 256;
    assert Pow256(2) == 0x1_0000;
    assert Pow256(3) == 0x100_0000;
    assert Pow256(4) == POW32;
    assert Pow256(5) == 0x100_0000_0000;
    assert Pow256(6) == 0x1_0000_0000_0000;
    assert Pow256(7) == 0x100_0000_0000_0000;
  }
}
