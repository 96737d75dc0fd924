/**
 * The INDEX file: the record codec, last-record-wins replay, the loader with its
 * truncation of a torn tail, and the `IndexManager` object that owns file and table.
 */
module IndexLog {
  import opened Base
  import opened Bytes

  const MAX_KEY_SIZE := 256
  const HEADER_SIZE := 21

  /** One record of the INDEX log: a location for a key, or a tombstone. */
  datatype Record = Record(key: Key, loc: Location, tombstone: bool)

  type Table = map<Key, Location>

  // ---------------------------------------------------------------- replay

  function ApplyRecord(t: Table, r: Record): Table {
    if r.tombstone then t - {r.key} else t[r.key := r.loc]
  }

  /** The table a log stands for: the last record of a key wins. */
  function Replay(log: seq<Record>): Table {
    if log == [] then map[] else ApplyRecord(Replay(log[..|log| - 1]), log[|log| - 1])
  }

  lemma ReplayAppend(log: seq<Record>, r: Record)
    ensures Replay(log + [r]) == ApplyRecord(Replay(log), r)
  {
    assert (log + [r])[..|log|] == log;
  }

  /** Records about other keys leave a key's location alone. */
  lemma {:induction false} ReplayFrame(log: seq<Record>, more: seq<Record>, k: Key)
    requires forall r :: r in more ==> r.key != k
    ensures Lookup(Replay(log + more), k) == Lookup(Replay(log), k)
  {
    if more == [] {
      assert log + more == log;
    } else {
      var front, last := more[..|more| - 1], more[|more| - 1];
      ReplayFrame(log, front, k);
      assert log + more == (log + front) + [last];
      ReplayAppend(log + front, last);
    }
  }

  /** Without a tombstone for `k`, later records never take `k` out of the table. */
  lemma {:induction false} ReplayKeepsPresence(log: seq<Record>, more: seq<Record>, k: Key)
    requires forall r :: r in more && r.key == k ==> !r.tombstone
    requires k in Replay(log)
    ensures k in Replay(log + more)
  {
    if more == [] {
      assert log + more == log;
    } else {
      var front, last := more[..|more| - 1], more[|more| - 1];
      ReplayKeepsPresence(log, front, k);
      assert log + more == (log + front) + [last];
      ReplayAppend(log + front, last);
    }
  }

  /** Without a live record for `k`, later records never bring `k` back. */
  lemma {:induction false} ReplayStaysAbsent(log: seq<Record>, more: seq<Record>, k: Key)
    requires forall r :: r in more && r.key == k ==> r.tombstone
    requires k !in Replay(log)
    ensures k !in Replay(log + more)
  {
    if more == [] {
      assert log + more == log;
    } else {
      var front, last := more[..|more| - 1], more[|more| - 1];
      assert more == front + [last] && last in more;
      ReplayStaysAbsent(log, front, k);
      assert log + more == (log + front) + [last];
      ReplayAppend(log + front, last);
    }
  }

  /** The location a log gives a key comes from one of the key's own live records. */
  lemma {:induction false} ReplaySource(log: seq<Record>, k: Key)
    requires k in Replay(log)
    ensures Record(k, Replay(log)[k], false) in log
  {
    var front, last := log[..|log| - 1], log[|log| - 1];
    assert log == front + [last];
    if last.key != k {
      ReplaySource(front, k);
    }
  }

  /** What `getAll` returns, in the table's iteration order. */
  function Entries(t: Table, order: seq<Key>): seq<Record>
    requires forall k :: k in order ==> k in t
  {
    seq(|order|, i requires 0 <= i < |order| => Record(order[i], t[order[i]], false))
  }

  /** Any list of live records, one per key of `t`, is a log for `t`. */
  lemma {:induction false} EntriesReplay(t: Table, order: seq<Key>, n: nat)
    requires forall k :: k in order ==> k in t
    requires n <= |order|
    ensures Replay(Entries(t, order)[..n]) == map k | k in order[..n] :: t[k]
  {
    var es := Entries(t, order);
    if n > 0 {
      EntriesReplay(t, order, n - 1);
      assert es[..n] == es[..n - 1] + [es[n - 1]];
      ReplayAppend(es[..n - 1], es[n - 1]);
      assert order[..n] == order[..n - 1] + [order[n - 1]];
    }
  }

  /** Compaction rewrites the log without changing the table it stands for. */
  lemma CompactPreservesTable(t: Table, order: seq<Key>)
    requires Enumerates(order, t.Keys)
    ensures Replay(Entries(t, order)) == t
  {
    EntriesReplay(t, order, |order|);
    assert Entries(t, order)[..|order|] == Entries(t, order);
    assert order[..|order|] == order;
  }

  // ----------------------------------------------------------------- codec

  /** The 21-byte packed header followed by the key. */
  function Serialize(r: Record): (s: string)
    ensures |s| == HEADER_SIZE + |r.key|
  {
    Le(|r.key|, 4) + Le(r.loc.offset, 8) + Le(r.loc.seg, 4) + Le(r.loc.size, 4)
    + [(if r.tombstone then 1 else 0) as char] + r.key
  }

  function SerializeAll(log: seq<Record>): string {
    if log == [] then "" else Serialize(log[0]) + SerializeAll(log[1..])
  }

  /** The integers of a record are in the range of the header's fields. */
  ghost predicate Fits(r: Record) {
    |r.key| < POW32 && r.loc.offset < POW64 && r.loc.seg < POW32 && r.loc.size < POW32
  }

  /** A record and its length, read from the front of a stream; None where the source returns false. */
  function Deserialize(s: string): (r: Option<(Record, nat)>)
    ensures r.Some? ==> HEADER_SIZE <= r.value.1 <= |s|
  {
    if |s| < HEADER_SIZE then None
    else
      var klen := UnLe(s[0..4]);
      if klen > MAX_KEY_SIZE || |s| < HEADER_SIZE + klen then None
      else
        Some((Record(s[HEADER_SIZE..HEADER_SIZE + klen],
                     Location(UnLe(s[4..12]), UnLe(s[12..16]), UnLe(s[16..20])),
                     s[20] as int % 256 != 0),
              HEADER_SIZE + klen))
  }

  /** The records the load loop accepts before it stops. */
  function Parse(s: string): seq<Record>
    decreases |s|
  {
    match Deserialize(s)
    case None => []
    case Some((r, n)) => [r] + Parse(s[n..])
  }

  /** How many bytes those records occupy. */
  function ParsedLength(s: string): (n: nat)
    ensures n <= |s|
    decreases |s|
  {
    match Deserialize(s)
    case None => 0
    case Some((r, n)) => n + ParsedLength(s[n..])
  }

  /** A stream that starts with a whole record yields it exactly when its key is not too long. */
  lemma DeserializeWhole(r: Record, rest: string)
    requires Fits(r)
    ensures Deserialize(Serialize(r) + rest)
         == if |r.key| <= 256 then Some((r, 21 + |r.key|)) else None
  {
    hide Le, UnLe, Pow256;
    Widths();
    var s := Serialize(r) + rest;
    assert s[0..4] == Le(|r.key|, 4);
    assert s[4..12] == Le(r.loc.offset, 8);
    assert s[12..16] == Le(r.loc.seg, 4);
    assert s[16..20] == Le(r.loc.size, 4);
    assert s[20] == (if r.tombstone then 1 else 0) as char;
    assert s[HEADER_SIZE..HEADER_SIZE + |r.key|] == r.key;
    LeRoundTrip(|r.key|, 4);
    LeRoundTrip(r.loc.offset, 8);
    LeRoundTrip(r.loc.seg, 4);
    LeRoundTrip(r.loc.size, 4);
  }

  /** Where the fields of a record lie in the file, little-endian. */
  lemma RecordLayout(r: Record)
    requires Fits(r)
    ensures var s := Serialize(r);
            && |s| == 21 + |r.key| && UnLe(s[..4]) == |r.key| && UnLe(s[4..12]) == r.loc.offset && UnLe(s[12..16]) == r.loc.seg
            && UnLe(s[16..20]) == r.loc.size && (s[20] == 1 as char <==> r.tombstone) && (s[20] == 0 as char <==> !r.tombstone)
            && s[21..] == r.key
    ensures var s := Serialize(r);
            |r.key| == s[0] as int % 256 + 0x100 * (s[1] as int % 256) + 0x1_0000 * (s[2] as int % 256) + 0x100_0000 * (s[3] as int % 256)
  {
    hide Le, UnLe, Pow256;
    Widths();
    var s := Serialize(r);
    assert s[..4] == Le(|r.key|, 4) && s[4..12] == Le(r.loc.offset, 8);
    assert s[12..16] == Le(r.loc.seg, 4) && s[16..20] == Le(r.loc.size, 4);
    LeRoundTrip(|r.key|, 4);
    LeRoundTrip(r.loc.offset, 8);
    LeRoundTrip(r.loc.seg, 4);
    LeRoundTrip(r.loc.size, 4);
    FourBytes(s[0], s[1], s[2], s[3]);
    assert s[..4] == [s[0], s[1], s[2], s[3]];
  }

  /** A torn record is refused wherever it is cut. */
  lemma DeserializeTorn(r: Record, n: nat)
    requires Fits(r) && n < |Serialize(r)|
    ensures Deserialize(Serialize(r)[..n]) == None
  {
    var s := Serialize(r)[..n];
    if n >= HEADER_SIZE {
      Widths();
      LeRoundTrip(|r.key|, 4);
      assert s[0..4] == Le(|r.key|, 4);
    }
  }

  /** The leading records of `log` that lie wholly within `n` bytes and have an acceptable key. */
  function Recoverable(log: seq<Record>, n: nat): (j: nat)
    ensures j <= |log|
  {
    if log == [] || n < |Serialize(log[0])| || |log[0].key| > MAX_KEY_SIZE then 0
    else 1 + Recoverable(log[1..], n - |Serialize(log[0])|)
  }

  lemma {:induction false} SerializeAllConcat(a: seq<Record>, b: seq<Record>)
    ensures SerializeAll(a + b) == SerializeAll(a) + SerializeAll(b)
  {
    hide Serialize;
    if a == [] {
      assert a + b == b;
    } else {
      SerializeAllConcat(a[1..], b);
      assert (a + b)[1..] == a[1..] + b;
    }
  }

  lemma {:induction false} ParsePrefix(log: seq<Record>, n: nat)
    requires forall r :: r in log ==> Fits(r)
    requires n <= |SerializeAll(log)|
    ensures var j := Recoverable(log, n); var s := SerializeAll(log)[..n];
            Parse(s) == log[..j] && ParsedLength(s) == |SerializeAll(log[..j])|
  {
    hide Serialize, Deserialize, Fits;
    var s := SerializeAll(log)[..n];
    if log == [] {
      DeserializeShort(s);
    } else {
      var r, rest := log[0], log[1..];
      var m := |Serialize(r)|;
      if n < m {
        assert s == Serialize(r)[..n];
        DeserializeTorn(r, n);
      } else {
        var tail := SerializeAll(rest)[..n - m];
        assert s == Serialize(r) + tail;
        DeserializeWhole(r, tail);
        if |r.key| <= MAX_KEY_SIZE {
          ParsePrefix(rest, n - m);
          assert s[m..] == tail;
          var j := Recoverable(rest, n - m);
          assert log[..j + 1] == [r] + rest[..j];
          assert log[..j + 1][1..] == rest[..j];
        }
      }
    }
  }

  lemma DeserializeShort(s: string)
    requires |s| < HEADER_SIZE
    ensures Deserialize(s) == None
  {
  }

  /** A recoverable prefix stops only at a record that does not fit or has too long a key. */
  lemma {:induction false} RecoverableMaximal(log: seq<Record>, n: nat)
    ensures var j := Recoverable(log, n);
            && |SerializeAll(log[..j])| <= n
            && (j < |log| && |log[j].key| <= MAX_KEY_SIZE ==> n < |SerializeAll(log[..j + 1])|)
  {
    hide Serialize;
    if log != [] {
      var r, rest := log[0], log[1..];
      if n < |Serialize(r)| || |r.key| > MAX_KEY_SIZE {
        assert log[..1] == [r] && [r][1..] == [];
      } else {
        RecoverableMaximal(rest, n - |Serialize(r)|);
        var j := Recoverable(log, n);
        assert log[..j][1..] == rest[..j - 1];
        if j < |log| {
          assert log[..j + 1][1..] == rest[..j];
        }
      }
    }
  }

  /**
   * Loading any byte-prefix of a log: exactly the recoverable leading records are read, the
   * bytes kept are exactly theirs, and no further whole record with an acceptable key was there.
   */
  lemma LoadPrefix(log: seq<Record>, n: nat)
    requires forall r :: r in log ==> Fits(r)
    requires n <= |SerializeAll(log)|
    ensures var j := Recoverable(log, n); var s := SerializeAll(log)[..n];
            && Parse(s) == log[..j]
            && s[..ParsedLength(s)] == SerializeAll(log[..j])
            && (j < |log| && |log[j].key| <= MAX_KEY_SIZE ==> n < |SerializeAll(log[..j + 1])|)
  {
    hide Serialize, Deserialize, Fits;
    var j := Recoverable(log, n);
    ParsePrefix(log, n);
    RecoverableMaximal(log, n);
    SerializeAllConcat(log[..j], log[j..]);
    assert log == log[..j] + log[j..];
  }

  lemma {:induction false} RecoverableMonotone(log: seq<Record>, m: nat, n: nat)
    requires m <= |log|
    requires forall r :: r in log ==> |r.key| <= MAX_KEY_SIZE
    requires |SerializeAll(log[..m])| <= n
    ensures m <= Recoverable(log, n)
  {
    if m > 0 {
      assert log[..m][1..] == log[1..][..m - 1];
      RecoverableMonotone(log[1..], m - 1, n - |Serialize(log[0])|);
    }
  }

  /** A log is read back in full exactly when every key is at most 256 bytes long. */
  lemma {:induction false} LoadWhole(log: seq<Record>)
    requires forall r :: r in log ==> Fits(r)
    ensures Parse(SerializeAll(log)) == log <==> (forall r :: r in log ==> |r.key| <= MAX_KEY_SIZE)
  {
    if log != [] {
      var r, rest := log[0], log[1..];
      DeserializeWhole(r, SerializeAll(rest));
      assert SerializeAll(log)[|Serialize(r)|..] == SerializeAll(rest);
      LoadWhole(rest);
      assert log == [r] + rest;
      if |r.key| <= MAX_KEY_SIZE {
        assert Parse(SerializeAll(log)) == [r] + Parse(SerializeAll(rest));
        if Parse(SerializeAll(log)) == log {
          assert Parse(SerializeAll(rest)) == Parse(SerializeAll(log))[1..] == rest;
        }
      }
    }
  }

  /**
   * After a torn tail was cut off, records appended to what is left survive the next load:
   * nothing of the torn record is mixed into them.
   */
  lemma {:induction false} AppendAfterTruncation(log: seq<Record>, n: nat, more: seq<Record>)
    requires forall r :: r in log + more ==> Fits(r) && |r.key| <= MAX_KEY_SIZE
    requires n <= |SerializeAll(log)|
    ensures var s := SerializeAll(log)[..n];
            Parse(s[..ParsedLength(s)] + SerializeAll(more)) == log[..Recoverable(log, n)] + more
  {
    var j := Recoverable(log, n);
    LoadPrefix(log, n);
    SerializeAllConcat(log[..j], more);
    LoadWhole(log[..j] + more);
  }

  // ------------------------------------------------------------ the object

  /** The order a hash table is walked in: each key once, in no particular order. */
  method KeysInTableOrder(t: Table) returns (order: seq<Key>)
    ensures Enumerates(order, t.Keys)
  {
    var left := t.Keys;
    order := [];
    while left != {}
      invariant left <= t.Keys
      invariant Enumerates(order, t.Keys - left)
      decreases left
    {
      var k :| k in left;
      order, left := order + [k], left - {k};
    }
  }

  /** The load loop: the table of the readable records, and the position where reading stopped. */
  method LoadIndexIntoMemory(file: string) returns (tree: Table, position: nat)
    ensures tree == Replay(Parse(file))
    ensures position == ParsedLength(file)
  {
    hide Deserialize;
    tree, position := map[], 0;
    ghost var done: seq<Record> := [];
    while position < |file|
      invariant position <= |file|
      invariant tree == Replay(done)
      invariant Parse(file) == done + Parse(file[position..])
      invariant ParsedLength(file) == position + ParsedLength(file[position..])
    {
      var entry := Deserialize(file[position..]);
      if entry == None {
        break;
      }
      var (r, n) := entry.value;
      if r.tombstone {
        tree := tree - {r.key};
      } else {
        tree := tree[r.key := r.loc];
      }
      ReplayAppend(done, r);
      assert file[position..][n..] == file[position + n..];
      done := done + [r];
      position := position + n;
    }
    if position == |file| {
      DeserializeShort(file[position..]);
    }
    assert Parse(file) == done;
  }

  /** A log that holds one live record per key and nothing else. */
  ghost predicate Compacted(log: seq<Record>, t: Table) {
    exists order :: Enumerates(order, t.Keys) && log == Entries(t, order)
  }

  /** `IndexManager`: the table, and the bytes of the log it was built from and appends to. */
  class IndexManager {
    var memoryTree: Table
    var index: string
    var canFlush: bool
    /** How many bytes of `index` are on disk. */
    var synced: nat
    ghost var log: seq<Record>

    ghost predicate Valid()
      reads this
    {
      && memoryTree == Replay(log)
      && index == SerializeAll(log)
      && synced <= |index|
      && (!canFlush ==> synced == |index|)
    }

    /** Opens the file found on disk: load, cut off the unreadable tail, compact. */
    constructor (file: string)
      ensures Valid()
      ensures memoryTree == Replay(Parse(file))
      ensures Compacted(log, memoryTree) && synced == |index|
    {
      var tree, position := LoadIndexIntoMemory(file);
      memoryTree, index, canFlush, synced := tree, file[..position], false, 0;
      log := [];
      new;
      var entries := Compact();
    }

    /** Rewrites the log as one record per live key; the new file is synced before it replaces the old. */
    method Compact() returns (entries: seq<Record>)
      modifies this
      ensures Valid() && memoryTree == old(memoryTree)
      ensures log == entries && Compacted(entries, memoryTree)
      ensures synced == |index| && !canFlush
    {
      var order := KeysInTableOrder(memoryTree);
      entries := Entries(memoryTree, order);
      CompactPreservesTable(memoryTree, order);
      index, log := SerializeAll(entries), entries;
      synced, canFlush := |index|, false;
    }

    method Append(r: Record)
      requires Valid()
      modifies this`index, this`canFlush, this`log
      ensures index == SerializeAll(log) && log == old(log) + [r] && canFlush
      ensures Replay(log) == ApplyRecord(memoryTree, r)
      ensures synced <= |index|
    {
      SerializeAllConcat(log, [r]);
      assert SerializeAll([r]) == Serialize(r) by { assert [r][1..] == []; }
      ReplayAppend(log, r);
      index, log, canFlush := index + Serialize(r), log + [r], true;
    }

    method Search(key: Key) returns (loc: Option<Location>)
      requires Valid()
      ensures loc == Lookup(Replay(log), key)
    {
      loc := if key in memoryTree then Some(memoryTree[key]) else None;
    }

    method Insert(key: Key, loc: Location)
      requires Valid()
      modifies this
      ensures Valid() && log == old(log) + [Record(key, loc, false)]
      ensures memoryTree == old(memoryTree)[key := loc]
      ensures synced == old(synced)
    {
      Append(Record(key, loc, false));
      memoryTree := memoryTree[key := loc];
    }

    /** Writes a record for a key that is in the table; an unknown key is left unrecorded. */
    method Update(key: Key, entry: Record)
      requires Valid()
      modifies this
      ensures Valid() && synced == old(synced)
      ensures key !in old(memoryTree) ==> log == old(log) && memoryTree == old(memoryTree)
      ensures key in old(memoryTree) ==>
                && log == old(log) + [entry.(key := key)]
                && memoryTree == ApplyRecord(old(memoryTree), entry.(key := key))
    {
      if key !in memoryTree {
        return;
      }
      Append(entry.(key := key));
      if entry.tombstone {
        memoryTree := memoryTree - {key};
      } else {
        memoryTree := memoryTree[key := entry.loc];
      }
    }

    /** The keys of the table that match, in table order. */
    method FindMatching(matches: Key -> bool) returns (keys: seq<Key>)
      requires Valid()
      ensures Enumerates(keys, set k | k in memoryTree && matches(k))
    {
      var order := KeysInTableOrder(memoryTree);
      keys := [];
      for i := 0 to |order|
        invariant Enumerates(keys, set k | k in order[..i] && matches(k))
      {
        assert order[..i + 1] == order[..i] + [order[i]];
        if matches(order[i]) {
          assert order[i] !in keys;
          keys := keys + [order[i]];
        }
        assert forall k :: k in keys <==> k in order[..i + 1] && matches(k);
      }
      assert order[..|order|] == order;
    }

    method Flush()
      requires Valid()
      modifies this`synced, this`canFlush
      ensures Valid() && synced == |index| && !canFlush
    {
      if canFlush {
        synced, canFlush := |index|, false;
      }
    }
  }
}
