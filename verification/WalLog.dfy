/**
 * The write-ahead log: the record codec and its torn-tail reader, the `WAL` object with its
 * dirty/canClear flags, and the merge of all shards' files by sequence number.
 */
module WalLog {
  import opened Base
  import opened Bytes

  datatype WalEntry = WalEntry(cmd: string, seqNo: nat)

  // ----------------------------------------------------------------- codec

  /** Everything of a record but its trailing newline. */
  function Body(e: WalEntry): (s: string)
    ensures |s| == 12 + |e.cmd|
  {
    Le(|e.cmd|, 4) + e.cmd + Le(e.seqNo, 8)
  }

  function Encode(e: WalEntry): (s: string)
    ensures |s| == 13 + |e.cmd|
  {
    Body(e) + "\n"
  }

  function EncodeAll(log: seq<WalEntry>): string {
    if log == [] then "" else Encode(log[0]) + EncodeAll(log[1..])
  }

  predicate Fits(e: WalEntry) {
    |e.cmd| < POW32 && e.seqNo < POW64
  }

  /** One round of the read loop: the record at the front and the bytes consumed. */
  function ReadRecord(s: string): (r: Option<(WalEntry, nat)>)
    ensures r.Some? ==> 0 < r.value.1 <= |s|
  {
    if |s| < 4 then None
    else
      var size := UnLe(s[..4]);
      if size > |s| - 4 || |s| < size + 12 then None
      else
        var end := size + 12;
        var skip := if end < |s| && s[end] == '\n' then 1 else 0;
        Some((WalEntry(s[4..4 + size], UnLe(s[4 + size..end])), end + skip))
  }

  function Decode(s: string): seq<WalEntry>
    decreases |s|
  {
    match ReadRecord(s)
    case None => []
    case Some((e, n)) => [e] + Decode(s[n..])
  }

  /** A whole body is read back; the newline after it, if it survived, is consumed with it. */
  lemma ReadWhole(e: WalEntry, rest: string)
    requires Fits(e) && (rest != "" ==> rest[0] == '\n')
    ensures ReadRecord(Body(e) + rest) == Some((e, |Body(e)| + Min(|rest|, 1)))
  {
    hide Le, UnLe, Pow256;
    Widths();
    var s := Body(e) + rest;
    LeRoundTrip(|e.cmd|, 4);
    LeRoundTrip(e.seqNo, 8);
    assert s[..4] == Le(|e.cmd|, 4);
    assert s[4..4 + |e.cmd|] == e.cmd;
    assert s[4 + |e.cmd|..12 + |e.cmd|] == Le(e.seqNo, 8);
    assert rest != "" ==> s[12 + |e.cmd|] == rest[0];
  }

  /** Where the fields of a record lie in the file. */
  lemma RecordLayout(e: WalEntry)
    requires Fits(e)
    ensures var s, n := Encode(e), |e.cmd|;
            && |s| == 13 + n && UnLe(s[..4]) == n && s[4..4 + n] == e.cmd && UnLe(s[4 + n..12 + n]) == e.seqNo && s[12 + n] == '\n'
  {
    hide Le, UnLe, Pow256;
    Widths();
    var s, n := Encode(e), |e.cmd|;
    LeRoundTrip(n, 4);
    LeRoundTrip(e.seqNo, 8);
    assert s[..4] == Le(n, 4) && s[4..4 + n] == e.cmd && s[4 + n..12 + n] == Le(e.seqNo, 8);
  }

  lemma ReadTorn(e: WalEntry, n: nat)
    requires Fits(e) && n < |Body(e)|
    ensures ReadRecord(Body(e)[..n]) == None
  {
    if n >= 4 {
      Widths();
      LeRoundTrip(|e.cmd|, 4);
      assert Body(e)[..n][..4] == Le(|e.cmd|, 4);
    }
  }

  /** The leading records whose size, command and sequence number all lie within `n` bytes. */
  function WholeRecords(log: seq<WalEntry>, n: nat): (j: nat)
    ensures j <= |log|
  {
    if log == [] || n < |Body(log[0])| then 0
    else if n == |Body(log[0])| then 1
    else 1 + WholeRecords(log[1..], n - |Encode(log[0])|)
  }

  /** Any byte-prefix of a WAL decodes to exactly its whole records. */
  lemma {:induction false} DecodePrefix(log: seq<WalEntry>, n: nat)
    requires forall e :: e in log ==> Fits(e)
    requires n <= |EncodeAll(log)|
    ensures Decode(EncodeAll(log)[..n]) == log[..WholeRecords(log, n)]
  {
    hide Body, ReadRecord, Fits;
    var s := EncodeAll(log)[..n];
    if log == [] {
      ReadEmpty();
    } else {
      var e, rest := log[0], log[1..];
      var m := |Body(e)|;
      if n < m {
        assert s == Body(e)[..n];
        ReadTorn(e, n);
      } else if n == m {
        assert s == Body(e) + "";
        ReadWhole(e, "");
        assert s[n..] == "";
        ReadEmpty();
        assert log[..1] == [e];
      } else {
        var tail := EncodeAll(rest)[..n - m - 1];
        assert s == Body(e) + ("\n" + tail);
        ReadWhole(e, "\n" + tail);
        assert s[m + 1..] == tail;
        DecodePrefix(rest, n - m - 1);
        var j := WholeRecords(rest, n - m - 1);
        assert log[..j + 1] == [e] + rest[..j];
      }
    }
  }

  lemma ReadEmpty()
    ensures ReadRecord("") == None
  {
  }

  // ------------------------------------------------- appending behind any bytes

  /** The reader gets to the end of the file, and the last record has its newline. */
  predicate EndsClean(s: string)
    decreases |s|
  {
    s == "" ||
    match ReadRecord(s)
    case None => false
    case Some((e, n)) => if n == |s| then n == 13 + |e.cmd| else EndsClean(s[n..])
  }

  /** A record is read the same whatever is appended; only the newline behind it may be new. */
  lemma ReadAppended(s: string, more: string)
    requires ReadRecord(s).Some?
    ensures var (e, n) := ReadRecord(s).value;
            && n in {12 + |e.cmd|, 13 + |e.cmd|}
            && ReadRecord(s + more)
               == Some((e, if n == |s| && n == 12 + |e.cmd| && more != "" && more[0] == '\n' then n + 1 else n))
  {
    var t := s + more;
    var size := UnLe(s[..4]);
    assert t[..4] == s[..4] && t[4..4 + size] == s[4..4 + size];
    assert t[4 + size..size + 12] == s[4 + size..size + 12];
    hide UnLe;
  }

  /** Behind a file that ends clean the reader starts afresh. */
  lemma {:induction false} DecodeBehind(s: string, more: string)
    requires EndsClean(s)
    ensures Decode(s + more) == Decode(s) + Decode(more)
    ensures EndsClean(more) ==> EndsClean(s + more)
    decreases |s|
  {
    hide *;
    CleanIs(s);
    if s == "" {
      assert s + more == more;
      DecodeLast(s, more);
    } else {
      var (e, n) := ReadRecord(s).value;
      if n < |s| {
        DecodeFirst(s, more);
        DecodeBehind(s[n..], more);
      } else {
        DecodeLast(s, more);
      }
    }
  }

  /** Behind such a file, what is appended decides how it ends. */
  lemma {:induction false} CleanBehind(s: string, more: string)
    requires EndsClean(s) && more != ""
    ensures EndsClean(s + more) == EndsClean(more)
    decreases |s|
  {
    hide *;
    CleanIs(s);
    if s == "" {
      assert s + more == more;
    } else {
      var n := ReadRecord(s).value.1;
      if n < |s| {
        DecodeFirst(s, more);
        CleanBehind(s[n..], more);
      } else {
        ReadAppended(s, more);
        CleanIs(s + more);
        assert (s + more)[n..] == more;
      }
    }
  }

  /** The same behind one record with its newline, or none. */
  lemma DecodeLast(s: string, more: string)
    requires s == "" || (ReadRecord(s).Some? && ReadRecord(s).value.1 == |s| == 13 + |ReadRecord(s).value.0.cmd|)
    ensures Decode(s + more) == Decode(s) + Decode(more)
    ensures EndsClean(more) ==> EndsClean(s + more)
  {
    ReadEmpty();
    if s == "" {
      assert s + more == more;
    } else {
      ReadAppended(s, more);
      hide ReadRecord;
      var n := |s|;
      assert s[n..] == "" && (s + more)[n..] == more;
    }
  }

  /** Appending any bytes never changes what was read before. */
  lemma {:induction false} DecodeMonotone(s: string, more: string)
    ensures Decode(s) <= Decode(s + more)
    decreases |s|
  {
    hide ReadRecord;
    if ReadRecord(s).Some? {
      var (e, n) := ReadRecord(s).value;
      if n < |s| {
        DecodeFirst(s, more);
        DecodeMonotone(s[n..], more);
      } else {
        ReadAppended(s, more);
        assert s[n..] == "";
        ReadEmpty();
      }
    }
  }

  lemma {:induction false} WholeFile(log: seq<WalEntry>)
    requires forall e :: e in log ==> Fits(e)
    ensures Decode(EncodeAll(log)) == log && EndsClean(EncodeAll(log))
  {
    hide Body, ReadRecord;
    if log == [] {
      ReadEmpty();
    } else {
      var e, rest := log[0], EncodeAll(log[1..]);
      var s := EncodeAll(log);
      assert s == Body(e) + ("\n" + rest);
      ReadWhole(e, "\n" + rest);
      assert s[|Body(e)| + 1..] == rest;
      WholeFile(log[1..]);
    }
  }

  lemma OneRecord(e: WalEntry)
    requires Fits(e)
    ensures Decode(Encode(e)) == [e] && EndsClean(Encode(e))
  {
    hide Encode;
    WholeFile([e]);
    assert [e][1..] == [] && Encode(e) + "" == Encode(e);
  }

  /** Bytes that no record can be read from: the next one is read only if they give its size by chance. */
  lemma LeftOver(s: string, n: nat) returns (e: WalEntry)
    requires s != "" && ReadRecord(s) == None
    ensures IsSet(e, n) && |e.cmd| <= 10 && Decode(s + Encode(e)) != [e]
  {
    var first := if |s| >= 4 then UnLe(s[..4]) else s[0] as int % 256;
    e := if first == 7 then WalEntry("set k vv", n) else WalEntry("set k v", n);
    var t := s + Encode(e);
    if ReadRecord(t).Some? {
      var size := UnLe(t[..4]);
      assert size != |e.cmd| by {
        if |s| >= 4 {
          assert t[..4] == s[..4];
        } else {
          assert t[..4][0] == s[0];
        }
      }
      assert |Decode(t)[0].cmd| == size;
    }
  }

  /** A record without its newline: the next one is misread when its size has a newline as low byte. */
  lemma NoNewline(s: string, n: nat) returns (e: WalEntry)
    requires ReadRecord(s).Some? && ReadRecord(s).value.1 == |s| == 12 + |ReadRecord(s).value.0.cmd|
    ensures IsSet(e, n) && |e.cmd| <= 10 && Decode(s + Encode(e)) == Decode(s)
  {
    e := WalEntry("set k vvvv", n);
    var code := Encode(e);
    assert code[0] == '\n';
    ReadAppended(s, code);
    var rest := code[1..];
    assert ReadRecord(rest) == None by {
      TenIs();
      assert rest[0] == Le(10, 4)[1] && rest[1] == Le(10, 4)[2] && rest[2] == Le(10, 4)[3] && rest[3] == e.cmd[0] == 's';
      assert UnLe(rest[..4]) >= 0x100_0000 by {
        UnLeHigh(rest[..4]);
      }
    }
    hide ReadRecord;
    assert (s + code)[|s| + 1..] == rest;
    assert s[|s|..] == "";
    ReadEmpty();
  }

  lemma TenIs()
    ensures Le(10, 4) == [10 as char, 0 as char, 0 as char, 0 as char]
  {
    assert Le(10, 4) == [10 as char] + Le(0, 3);
    assert Le(0, 3) == [0 as char] + Le(0, 2);
    assert Le(0, 2) == [0 as char] + Le(0, 1);
    assert Le(0, 1) == [0 as char] + Le(0, 0);
  }

  lemma UnLeHigh(s: string)
    requires |s| == 4 && s[3] as int % 256 > 0
    ensures UnLe(s) >= 0x100_0000
  {
    assert UnLe(s) == s[0] as int % 256 + 256 * UnLe(s[1..]);
    assert UnLe(s[1..]) == s[1] as int % 256 + 256 * UnLe(s[1..][1..]);
    assert s[1..][1..] == s[2..];
    assert UnLe(s[2..]) == s[2] as int % 256 + 256 * UnLe(s[2..][1..]);
    assert s[2..][1..] == s[3..];
    assert UnLe(s[3..]) == s[3] as int % 256 + 256 * UnLe(s[3..][1..]);
  }

  lemma {:induction false} Unreadable(s: string, seqNo: nat) returns (e: WalEntry)
    requires !EndsClean(s)
    ensures IsSet(e, seqNo) && |e.cmd| <= 10 && Decode(s + Encode(e)) != Decode(s) + [e]
    decreases |s|
  {
    hide *;
    CleanIs(s);
    ReadEmpty();
    if ReadRecord(s) == None {
      e := LeftOver(s, seqNo);
      DecodeNone(s);
    } else {
      var (e0, n) := ReadRecord(s).value;
      if n == |s| {
        ReadAppended(s, "");
        e := NoNewline(s, seqNo);
        assert |Decode(s) + [e]| == |Decode(s)| + 1;
      } else {
        e := Unreadable(s[n..], seqNo);
        DecodeFirst(s, Encode(e));
        Cons(e0, Decode(s[n..] + Encode(e)), Decode(s[n..]) + [e]);
        assert Decode(s) + [e] == [e0] + (Decode(s[n..]) + [e]);
      }
    }
  }

  lemma Cons(e: WalEntry, a: seq<WalEntry>, b: seq<WalEntry>)
    requires a != b
    ensures [e] + a != [e] + b
  {
    assert ([e] + a)[1..] == a && ([e] + b)[1..] == b;
  }

  lemma DecodeNone(s: string)
    requires ReadRecord(s) == None
    ensures forall e: WalEntry :: Decode(s) + [e] == [e]
  {
  }

  lemma CleanIs(s: string)
    ensures s == "" ==> EndsClean(s)
    ensures s != "" && ReadRecord(s) == None ==> !EndsClean(s)
    ensures s != "" && ReadRecord(s).Some? ==>
              var (e, n) := ReadRecord(s).value; EndsClean(s) == if n == |s| then n == 13 + |e.cmd| else EndsClean(s[n..])
  {
    hide ReadRecord;
  }

  /** The first record is read first, whatever is appended behind more bytes. */
  lemma DecodeFirst(s: string, more: string)
    requires ReadRecord(s).Some? && ReadRecord(s).value.1 < |s|
    ensures var (e, n) := ReadRecord(s).value;
            Decode(s) == [e] + Decode(s[n..]) && Decode(s + more) == [e] + Decode(s[n..] + more)
    ensures var n := ReadRecord(s).value.1; EndsClean(s + more) == EndsClean(s[n..] + more)
  {
    ReadAppended(s, more);
    hide ReadRecord;
    var (e, n) := ReadRecord(s).value;
    assert (s + more)[n..] == s[n..] + more;
  }

  /** A `set` of key `k` with the given sequence number. */
  predicate IsSet(e: WalEntry, seqNo: nat) {
    "set k " < e.cmd && e.seqNo == seqNo
  }

  /** Every record appended to the file is read back, behind what was read before. */
  ghost predicate Appendable(s: string) {
    forall more :: (forall e :: e in more ==> Fits(e)) ==> Decode(s + EncodeAll(more)) == Decode(s) + more
  }

  /**
   * Whatever bytes are in a WAL, that is so if and only if the reader ends clean on them; and so
   * already for the next `set`, if the sequence number it will get is `seqNo`.
   */
  lemma AppendableExact(s: string, seqNo: nat)
    requires seqNo < POW64
    ensures Appendable(s) <==> EndsClean(s)
    ensures (forall e :: IsSet(e, seqNo) && Fits(e) ==> Decode(s + Encode(e)) == Decode(s) + [e]) <==> EndsClean(s)
  {
    hide Decode, EndsClean, Encode, Fits, IsSet;
    if EndsClean(s) {
      forall more: seq<WalEntry> | forall e :: e in more ==> Fits(e)
        ensures Decode(s + EncodeAll(more)) == Decode(s) + more
      {
        DecodeBehind(s, EncodeAll(more));
        WholeFile(more);
      }
      forall e | Fits(e)
        ensures Decode(s + Encode(e)) == Decode(s) + [e]
      {
        OneRecord(e);
        DecodeBehind(s, Encode(e));
      }
    } else {
      var e := Unreadable(s, seqNo);
      assert EncodeAll([e]) == Encode(e) by {
        assert [e][1..] == [] && Encode(e) + "" == Encode(e);
      }
      ShortFits(e, seqNo);
      assert Decode(s + EncodeAll([e])) != Decode(s) + [e];
    }
  }

  lemma ShortFits(e: WalEntry, seqNo: nat)
    requires IsSet(e, seqNo) && |e.cmd| <= 10 && seqNo < POW64
    ensures Fits(e)
  {
  }

  /**
   * The WAL is never truncated. Records appended behind the torn file a crash leaves are all read
   * back, whatever they are, if and only if the cut is at the end of a record, newline included.
   */
  lemma {:induction false} TornAppendableExact(log: seq<WalEntry>, n: nat)
    requires (forall e :: e in log ==> Fits(e)) && n <= |EncodeAll(log)|
    ensures Appendable(EncodeAll(log)[..n]) <==> n == |EncodeAll(log[..WholeRecords(log, n)])|
  {
    AppendableExact(EncodeAll(log)[..n], 0);
    TornClean(log, n);
  }

  lemma {:induction false} TornClean(log: seq<WalEntry>, n: nat)
    requires (forall e :: e in log ==> Fits(e)) && n <= |EncodeAll(log)|
    ensures EndsClean(EncodeAll(log)[..n]) <==> n == |EncodeAll(log[..WholeRecords(log, n)])|
  {
    hide Body, ReadRecord, Fits;
    var s := EncodeAll(log)[..n];
    if log != [] {
      var e, rest := log[0], log[1..];
      var m := |Body(e)|;
      if n < m {
        assert s == Body(e)[..n];
        ReadTorn(e, n);
        assert log[..0] == [];
      } else if n == m {
        assert s == Body(e) + "";
        ReadWhole(e, "");
        assert log[..1] == [e] && [e][1..] == [];
      } else {
        var tail := EncodeAll(rest)[..n - m - 1];
        assert s == Body(e) + ("\n" + tail);
        ReadWhole(e, "\n" + tail);
        assert s[m + 1..] == tail;
        TornClean(rest, n - m - 1);
        var j := WholeRecords(rest, n - m - 1);
        assert log[..j + 1][0] == e && log[..j + 1][1..] == rest[..j];
        CleanIs(s);
        hide EndsClean;
      }
    }
  }

  // ------------------------------------------------------------ the object

  /** One WAL file: its bytes, how many of them are durable, and the two flags. */
  datatype Wal = Wal(file: string, synced: nat, dirty: bool, canClear: bool)

  ghost predicate WalOk(l: Wal) {
    && l.synced <= |l.file|
    && (!l.dirty ==> l.synced == |l.file|)
    && (!l.canClear ==> l.file == "")
  }

  /** The bytes of a record that arrive: all of them or, with a fault, so many. */
  function Arrived(e: WalEntry, fault: Option<nat>): string {
    if fault.None? then Encode(e) else Encode(e)[..Min(fault.value, |Encode(e)|)]
  }

  /** What a failed write leaves stays in the file. */
  function AppendBytes(l: Wal, bytes: string): Wal {
    Wal(l.file + bytes, l.synced, true, true)
  }

  /** Nothing to do unless dirty. */
  function SyncWal(l: Wal, ioOk: bool): (Wal, bool) {
    if !l.dirty then (l, true)
    else if ioOk then (l.(synced := |l.file|, dirty := false), true)
    else (l, false)
  }

  /** Skipped when nothing was appended since the last one. */
  function ClearWal(l: Wal): Wal {
    if l.canClear then Wal("", 0, false, false) else l
  }

  /** What a sync or a clear achieved is not done again: the next one needs no I/O and changes nothing. */
  lemma DoneOnce(l: Wal, ioOk: bool)
    ensures SyncWal(l, ioOk).1 ==> SyncWal(SyncWal(l, ioOk).0, false) == (SyncWal(l, ioOk).0, true)
    ensures l.canClear ==> SyncWal(ClearWal(l), false) == (ClearWal(l), true)
    ensures ClearWal(ClearWal(l)) == ClearWal(l) && (l.canClear ==> !ClearWal(l).canClear)
  {
  }

  /** What was readable stays so, and a whole record behind a file that ends clean is read back. */
  lemma AppendReads(l: Wal, e: WalEntry, fault: Option<nat>)
    requires WalOk(l)
    ensures var l' := AppendBytes(l, Arrived(e, fault));
            && WalOk(l') && Decode(l.file) <= Decode(l'.file) && l'.file[..l'.synced] == l.file[..l.synced]
            && (fault.None? && Fits(e) && EndsClean(l.file) ==> EndsClean(l'.file) && Decode(l'.file) == Decode(l.file) + [e])
  {
    hide Encode, Decode, EndsClean;
    DecodeMonotone(l.file, Arrived(e, fault));
    if fault.None? && Fits(e) && EndsClean(l.file) {
      OneRecord(e);
      DecodeBehind(l.file, Encode(e));
    }
  }

  class WAL {
    var file: string
    var synced: nat
    var canClear: bool
    var dirty: bool

    ghost function Abstract(): Wal
      reads this
    {
      Wal(file, synced, dirty, canClear)
    }

    ghost predicate Valid()
      reads this
    {
      WalOk(Abstract())
    }

    /** Opens a file found on disk, torn or not; it may be cleared although nothing was appended to it yet. */
    constructor (found: string)
      ensures Valid() && Abstract() == Wal(found, |found|, false, true)
    {
      file, synced, canClear, dirty := found, |found|, true, false;
    }

    /**
     * With a fault only some bytes of the record arrive, and nothing cuts them off. Without one
     * the record is read back behind the others if the file ended clean.
     */
    method Append(cmd: string, seqNo: nat, fault: Option<nat>) returns (ok: bool)
      requires Valid()
      modifies this
      ensures Valid() && (ok <==> fault.None?)
      ensures Abstract() == AppendBytes(old(Abstract()), Arrived(WalEntry(cmd, seqNo), fault))
      ensures var e := WalEntry(cmd, seqNo);
              && Decode(old(file)) <= Decode(file)
              && (ok && Fits(e) && EndsClean(old(file)) ==> EndsClean(file) && Decode(file) == Decode(old(file)) + [e])
    {
      hide Arrived, Decode, EndsClean;
      var e := WalEntry(cmd, seqNo);
      AppendReads(Abstract(), e, fault);
      canClear := true;
      file := file + Arrived(e, fault);
      dirty := true;
      return fault.None?;
    }

    /** After a sync that succeeded every byte appended so far is durable. */
    method Sync(ioOk: bool) returns (ok: bool)
      requires Valid()
      modifies this
      ensures Valid() && (Abstract(), ok) == SyncWal(old(Abstract()), ioOk)
      ensures ok ==> synced == |file|
      ensures ok <==> (!old(dirty) || ioOk)
    {
      if !dirty {
        return true;
      }
      if !ioOk {
        return false;
      }
      synced, dirty := |file|, false;
      return true;
    }

    /** Empties the file, also when the canClear flag makes it skip the work. */
    method Clear()
      requires Valid()
      modifies this
      ensures Valid() && Abstract() == ClearWal(old(Abstract()))
      ensures file == "" && synced == 0
    {
      if canClear {
        file, synced := "", 0;
        canClear, dirty := false, false;
      }
    }

    /** The read loop, on any bytes; on the torn prefix of a log it returns the whole records. */
    method GetCmds() returns (res: seq<WalEntry>)
      ensures res == Decode(file)
      ensures forall log, n: nat :: (forall e :: e in log ==> Fits(e)) && n <= |EncodeAll(log)| && file == EncodeAll(log)[..n] ==>
                res == log[..WholeRecords(log, n)]
    {
      hide ReadRecord;
      res := [];
      var pos := 0;
      while true
        invariant pos <= |file|
        invariant Decode(file) == res + Decode(file[pos..])
        decreases |file| - pos
      {
        var record := ReadRecord(file[pos..]);
        if record == None {
          break;
        }
        var (e, n) := record.value;
        assert file[pos..][n..] == file[pos + n..];
        res := res + [e];
        pos := pos + n;
      }
      forall log: seq<WalEntry>, n: nat |
        (forall e :: e in log ==> Fits(e)) && n <= |EncodeAll(log)| && file == EncodeAll(log)[..n]
        ensures res == log[..WholeRecords(log, n)]
      {
        DecodePrefix(log, n);
      }
    }
  }

  // ----------------------------------------------------------------- merge

  function Concat(files: seq<seq<WalEntry>>): seq<WalEntry> {
    if files == [] then [] else files[0] + Concat(files[1..])
  }

  ghost predicate Sorted(s: seq<WalEntry>) {
    forall i, j :: 0 <= i < j < |s| ==> s[i].seqNo <= s[j].seqNo
  }

  ghost predicate StrictlySorted(s: seq<WalEntry>) {
    forall i, j :: 0 <= i < j < |s| ==> s[i].seqNo < s[j].seqNo
  }

  /** Inserting `x` at position `p`. */
  function InsertAt(r: seq<WalEntry>, p: nat, x: WalEntry): (t: seq<WalEntry>)
    requires p <= |r|
    ensures |t| == |r| + 1
    ensures forall i :: 0 <= i < |t| ==> t[i] == if i < p then r[i] else if i == p then x else r[i - 1]
    ensures multiset(t) == multiset(r) + multiset{x}
  {
    assert r == r[..p] + r[p..];
    r[..p] + [x] + r[p..]
  }

  /** The records with sequence number `n`, in order. */
  function Numbered(s: seq<WalEntry>, n: nat): seq<WalEntry> {
    if s == [] then []
    else Numbered(s[..|s| - 1], n) + if s[|s| - 1].seqNo == n then [s[|s| - 1]] else []
  }

  lemma {:induction false} NumberedConcat(a: seq<WalEntry>, b: seq<WalEntry>, n: nat)
    ensures Numbered(a + b, n) == Numbered(a, n) + Numbered(b, n)
  {
    if b == [] {
      assert a + b == a;
    } else {
      NumberedConcat(a, b[..|b| - 1], n);
      assert (a + b)[..|a + b| - 1] == a + b[..|b| - 1];
    }
  }

  lemma {:induction false} NoneNumbered(s: seq<WalEntry>, n: nat)
    requires forall i :: 0 <= i < |s| ==> s[i].seqNo != n
    ensures Numbered(s, n) == []
  {
    if s != [] {
      NoneNumbered(s[..|s| - 1], n);
    }
  }

  lemma NumberedOne(x: WalEntry, n: nat)
    ensures Numbered([x], n) == if x.seqNo == n then [x] else []
  {
  }

  /** Inserting in front of larger numbers only puts a record behind its equals. */
  lemma InsertNumbered(r: seq<WalEntry>, p: nat, x: WalEntry, n: nat)
    requires p <= |r| && forall j :: p <= j < |r| ==> r[j].seqNo > x.seqNo
    ensures Numbered(InsertAt(r, p, x), n) == Numbered(r + [x], n)
  {
    hide Numbered;
    var a, b := r[..p], r[p..];
    assert InsertAt(r, p, x) == a + [x] + b;
    assert r == a + b;
    NumberedConcat(a + [x], b, n);
    NumberedConcat(a, [x], n);
    NumberedConcat(r, [x], n);
    NumberedConcat(a, b, n);
    NumberedOne(x, n);
    if x.seqNo == n {
      NoneNumbered(b, n);
    }
  }

  /** The place behind every record with the same or a smaller number. */
  method Position(r: seq<WalEntry>, x: WalEntry) returns (p: nat)
    requires Sorted(r)
    ensures p <= |r| && (forall j :: p <= j < |r| ==> r[j].seqNo > x.seqNo) && (forall j :: 0 <= j < p ==> r[j].seqNo <= x.seqNo)
  {
    p := |r|;
    while p > 0 && r[p - 1].seqNo > x.seqNo
      invariant 0 <= p <= |r|
      invariant forall j :: p <= j < |r| ==> r[j].seqNo > x.seqNo
    {
      p := p - 1;
    }
  }

  /** `r` is a stable sorting of `s`. */
  ghost predicate SortedFrom(r: seq<WalEntry>, s: seq<WalEntry>) {
    Sorted(r) && multiset(r) == multiset(s) && forall n: nat :: Numbered(r, n) == Numbered(s, n)
  }

  lemma InsertSorts(r: seq<WalEntry>, s: seq<WalEntry>, p: nat, x: WalEntry)
    requires SortedFrom(r, s) && p <= |r|
    requires (forall j :: p <= j < |r| ==> r[j].seqNo > x.seqNo) && (forall j :: 0 <= j < p ==> r[j].seqNo <= x.seqNo)
    ensures SortedFrom(InsertAt(r, p, x), s + [x])
  {
    hide Numbered;
    forall n: nat
      ensures Numbered(InsertAt(r, p, x), n) == Numbered(s + [x], n)
    {
      InsertNumbered(r, p, x, n);
      NumberedConcat(r, [x], n);
      NumberedConcat(s, [x], n);
    }
  }

  method Insert(r: seq<WalEntry>, x: WalEntry, ghost s: seq<WalEntry>) returns (r': seq<WalEntry>)
    requires SortedFrom(r, s)
    ensures SortedFrom(r', s + [x])
  {
    SortedFromSorted(r, s);
    hide *;
    var p := Position(r, x);
    InsertSorts(r, s, p, x);
    r' := InsertAt(r, p, x);
  }

  /** `std::stable_sort` by sequence number. */
  method StableSort(s: seq<WalEntry>) returns (r: seq<WalEntry>)
    ensures Sorted(r) && multiset(r) == multiset(s)
    ensures forall n: nat :: Numbered(r, n) == Numbered(s, n)
  {
    r := [];
    assert SortedFrom(r, s[..0]);
    hide *;
    for i := 0 to |s|
      invariant SortedFrom(r, s[..i])
    {
      assert s[..i + 1] == s[..i] + [s[i]];
      r := Insert(r, s[i], s[..i]);
    }
    assert s[..|s|] == s;
    SortedFromSorted(r, s);
  }

  lemma SortedFromSorted(r: seq<WalEntry>, s: seq<WalEntry>)
    requires SortedFrom(r, s)
    ensures Sorted(r) && multiset(r) == multiset(s) && forall n: nat :: Numbered(r, n) == Numbered(s, n)
  {
  }

  /** Collects every shard's records and orders them by sequence number. */
  method CollectAll(files: seq<seq<WalEntry>>) returns (all: seq<WalEntry>)
    ensures Sorted(all) && multiset(all) == multiset(Concat(files))
    ensures forall n: nat :: Numbered(all, n) == Numbered(Concat(files), n)
  {
    hide Numbered;
    all := [];
    for i := 0 to |files|
      invariant all + Concat(files[i..]) == Concat(files)
    {
      assert files[i..][1..] == files[i + 1..];
      all := all + files[i];
    }
    assert all == Concat(files);
    all := StableSort(all);
  }

  lemma LastAgrees(a: seq<WalEntry>, b: seq<WalEntry>)
    requires Sorted(a) && StrictlySorted(b) && multiset(a) == multiset(b) && |a| == |b| > 0
    ensures a[|a| - 1] == b[|b| - 1]
  {
    var n := |a| - 1;
    assert a[n] in multiset(b) && b[n] in multiset(a);
    var j :| 0 <= j <= n && b[j] == a[n];
    var i :| 0 <= i <= n && a[i] == b[n];
  }

  /** Sequence numbers that are all different leave only one way to sort. */
  lemma {:induction false} SortUnique(a: seq<WalEntry>, b: seq<WalEntry>)
    requires Sorted(a) && StrictlySorted(b) && multiset(a) == multiset(b)
    ensures a == b
  {
    assert |a| == |multiset(a)| == |multiset(b)| == |b|;
    if a != [] {
      hide Sorted, StrictlySorted;
      var n := |a| - 1;
      LastAgrees(a, b);
      WithoutLast(a);
      WithoutLast(b);
      SortUnique(a[..n], b[..n]);
    }
  }

  lemma WithoutLast(a: seq<WalEntry>)
    requires a != []
    ensures var n := |a| - 1;
            && a == a[..n] + [a[n]] && multiset(a[..n]) == multiset(a) - multiset{a[n]}
            && (Sorted(a) ==> Sorted(a[..n])) && (StrictlySorted(a) ==> StrictlySorted(a[..n]))
  {
    var n := |a| - 1;
    assert a == a[..n] + [a[n]];
  }

  // ------------------------------------------- files over appends and restarts

  /** All WAL files of the database, and the process-wide counter `nextSeq`. */
  datatype Logs = Logs(files: seq<seq<WalEntry>>, next: nat)

  /** A record of the history: the shard it was appended to, and the entry. */
  datatype Logged = Logged(shard: nat, entry: WalEntry)

  datatype Step =
    | Append(shard: nat, cmd: string)
    | Clear(shard: nat)
    | Restart

  function FileOf(h: seq<Logged>, shard: nat): seq<WalEntry> {
    if h == [] then []
    else
      var front := FileOf(h[..|h| - 1], shard);
      if h[|h| - 1].shard == shard then front + [h[|h| - 1].entry] else front
  }

  function EntriesOf(h: seq<Logged>): seq<WalEntry> {
    seq(|h|, i requires 0 <= i < |h| => h[i].entry)
  }

  function Without(h: seq<Logged>, shard: nat): seq<Logged> {
    if h == [] then []
    else
      var front := Without(h[..|h| - 1], shard);
      if h[|h| - 1].shard == shard then front else front + [h[|h| - 1]]
  }

  /** The largest sequence number in the files plus one; 0 when they are empty. */
  function Past(all: seq<WalEntry>): nat {
    if all == [] then 0 else Max(Past(all[..|all| - 1]), all[|all| - 1].seqNo + 1)
  }

  /** A restart sets the counter to 0, and replay advances it past every retained record. */
  function Apply(l: Logs, s: Step): Logs {
    match s
    case Append(shard, cmd) =>
      if shard < |l.files|
      then Logs(l.files[shard := l.files[shard] + [WalEntry(cmd, l.next)]], l.next + 1)
      else l
    case Clear(shard) => if shard < |l.files| then l.(files := l.files[shard := []]) else l
    case Restart => l.(next := Past(Concat(l.files)))
  }

  function Remember(n: nat, h: seq<Logged>, next: nat, s: Step): seq<Logged> {
    match s
    case Append(shard, cmd) => if shard < n then h + [Logged(shard, WalEntry(cmd, next))] else h
    case Clear(shard) => Without(h, shard)
    case Restart => h
  }

  function Run(n: nat, steps: seq<Step>): (Logs, seq<Logged>) {
    if steps == [] then (Logs(seq(n, _ => []), 0), [])
    else
      var (l, h) := Run(n, steps[..|steps| - 1]);
      (Apply(l, steps[|steps| - 1]), Remember(n, h, l.next, steps[|steps| - 1]))
  }

  ghost predicate Increasing(h: seq<Logged>) {
    forall i, j :: 0 <= i < j < |h| ==> h[i].entry.seqNo < h[j].entry.seqNo
  }

  /** The files are the per-shard parts of one history with increasing sequence numbers. */
  ghost predicate Consistent(l: Logs, h: seq<Logged>) {
    && Increasing(h)
    && (forall i :: 0 <= i < |h| ==> h[i].shard < |l.files| && h[i].entry.seqNo < l.next)
    && (forall s :: 0 <= s < |l.files| ==> l.files[s] == FileOf(h, s))
  }

  lemma {:induction false} ConcatUpdate(files: seq<seq<WalEntry>>, s: nat, e: WalEntry)
    requires s < |files|
    ensures multiset(Concat(files[s := files[s] + [e]])) == multiset(Concat(files)) + multiset{e}
  {
    var files' := files[s := files[s] + [e]];
    if s == 0 {
      assert files'[1..] == files[1..];
    } else {
      ConcatUpdate(files[1..], s - 1, e);
      assert files'[1..] == files[1..][s - 1 := files[1..][s - 1] + [e]];
    }
  }

  lemma {:induction false} ConcatEmpty(files: seq<seq<WalEntry>>)
    requires forall s :: 0 <= s < |files| ==> files[s] == []
    ensures Concat(files) == []
  {
    if files != [] {
      ConcatEmpty(files[1..]);
    }
  }

  lemma SplitLast(files: seq<seq<WalEntry>>, h: seq<Logged>)
    requires h != [] && forall i :: 0 <= i < |h| ==> h[i].shard < |files|
    requires forall s :: 0 <= s < |files| ==> files[s] == FileOf(h, s)
    ensures var front, last := h[..|h| - 1], h[|h| - 1]; var files0 := files[last.shard := FileOf(front, last.shard)];
            && files == files0[last.shard := files0[last.shard] + [last.entry]]
            && forall s :: 0 <= s < |files0| ==> files0[s] == FileOf(front, s)
  {
  }

  /** No record is lost or doubled by splitting a history over files. */
  lemma {:induction false} SplitIsPermutation(files: seq<seq<WalEntry>>, h: seq<Logged>)
    requires forall i :: 0 <= i < |h| ==> h[i].shard < |files|
    requires forall s :: 0 <= s < |files| ==> files[s] == FileOf(h, s)
    ensures multiset(Concat(files)) == multiset(EntriesOf(h))
    decreases |h|
  {
    if h == [] {
      ConcatEmpty(files);
    } else {
      var front, last := h[..|h| - 1], h[|h| - 1];
      var files0 := files[last.shard := FileOf(front, last.shard)];
      SplitLast(files, h);
      assert EntriesOf(h) == EntriesOf(front) + [last.entry];
      hide *;
      SplitIsPermutation(files0, front);
      ConcatUpdate(files0, last.shard, last.entry);
    }
  }

  lemma {:induction false} WithoutMembers(h: seq<Logged>, shard: nat)
    ensures forall x :: x in Without(h, shard) ==> x in h
    ensures Increasing(h) ==> Increasing(Without(h, shard))
  {
    if h != [] {
      var front, last := h[..|h| - 1], h[|h| - 1];
      WithoutMembers(front, shard);
      assert h == front + [last];
      var w := Without(front, shard);
      forall i | 0 <= i < |w| && Increasing(h)
        ensures w[i].entry.seqNo < last.entry.seqNo
      {
        assert w[i] in front;
      }
    }
  }

  lemma {:induction false} WithoutFile(h: seq<Logged>, shard: nat, s: nat)
    ensures FileOf(Without(h, shard), s) == if s == shard then [] else FileOf(h, s)
  {
    if h != [] {
      var front, last := h[..|h| - 1], h[|h| - 1];
      WithoutFile(front, shard, s);
      var w := Without(front, shard);
      assert (w + [last])[..|w|] == w;
    }
  }

  lemma {:induction false} PastBounds(all: seq<WalEntry>)
    ensures forall e :: e in all ==> e.seqNo < Past(all)
  {
    if all != [] {
      PastBounds(all[..|all| - 1]);
      assert all == all[..|all| - 1] + [all[|all| - 1]];
    }
  }

  lemma ClearConsistent(l: Logs, h: seq<Logged>, shard: nat)
    requires Consistent(l, h)
    ensures Consistent(Apply(l, Clear(shard)), Without(h, shard))
  {
    hide Without, FileOf;
    WithoutMembers(h, shard);
    forall t | 0 <= t < |l.files|
      ensures FileOf(Without(h, shard), t) == if t == shard then [] else l.files[t]
    {
      WithoutFile(h, shard, t);
    }
    var w := Without(h, shard);
    forall i | 0 <= i < |w|
      ensures w[i].shard < |l.files| && w[i].entry.seqNo < l.next
    {
      assert w[i] in h;
    }
  }

  lemma AppendConsistent(l: Logs, h: seq<Logged>, shard: nat, cmd: string)
    requires Consistent(l, h) && shard < |l.files|
    ensures Consistent(Apply(l, Append(shard, cmd)), h + [Logged(shard, WalEntry(cmd, l.next))])
  {
    assert (h + [Logged(shard, WalEntry(cmd, l.next))])[..|h|] == h;
  }

  lemma RestartConsistent(l: Logs, h: seq<Logged>)
    requires Consistent(l, h)
    ensures Consistent(Apply(l, Restart), h)
  {
    var all := Concat(l.files);
    SplitIsPermutation(l.files, h);
    PastBounds(all);
    hide Concat, Past, FileOf;
    forall i | 0 <= i < |h|
      ensures h[i].entry.seqNo < Past(all)
    {
      assert EntriesOf(h)[i] in multiset(EntriesOf(h));
      assert h[i].entry in multiset(all);
    }
  }

  lemma ApplyKeepsConsistent(l: Logs, h: seq<Logged>, s: Step)
    requires Consistent(l, h)
    ensures Consistent(Apply(l, s), Remember(|l.files|, h, l.next, s))
  {
    if s.Append? && s.shard < |l.files| {
      AppendConsistent(l, h, s.shard, s.cmd);
    } else if s.Clear? {
      ClearConsistent(l, h, s.shard);
    } else if s.Restart? {
      RestartConsistent(l, h);
    }
    hide Consistent, FileOf, Without, Past, Concat;
  }

  lemma {:induction false} RunConsistent(n: nat, steps: seq<Step>)
    ensures var (l, h) := Run(n, steps); Consistent(l, h) && |l.files| == n
  {
    if steps != [] {
      RunConsistent(n, steps[..|steps| - 1]);
      var (l, h) := Run(n, steps[..|steps| - 1]);
      ApplyKeepsConsistent(l, h, steps[|steps| - 1]);
    }
  }

  /**
   * Over every run of appends, clears and restarts, sorting the records of all files by
   * sequence number gives back the retained records in exactly the order they were appended.
   */
  lemma {:induction false} MergeIsAppendOrder(n: nat, steps: seq<Step>, all: seq<WalEntry>)
    requires Sorted(all) && multiset(all) == multiset(Concat(Run(n, steps).0.files))
    ensures all == EntriesOf(Run(n, steps).1)
    ensures StrictlySorted(all)
  {
    RunConsistent(n, steps);
    var (l, h) := Run(n, steps);
    SplitIsPermutation(l.files, h);
    SortUnique(all, EntriesOf(h));
  }

  // ---------------------------------------------------------- the numbers given

  function Appends(n: nat, steps: seq<Step>): nat {
    if steps == [] then 0
    else
      var last := steps[|steps| - 1];
      Appends(n, steps[..|steps| - 1]) + if last.Append? && last.shard < n then 1 else 0
  }

  lemma RunThen(n: nat, steps: seq<Step>, s: Step)
    ensures var (l, h) := Run(n, steps); Run(n, steps + [s]) == (Apply(l, s), Remember(n, h, l.next, s)) && |l.files| == n
  {
    assert (steps + [s])[..|steps|] == steps;
    RunConsistent(n, steps);
    hide Apply, Remember;
  }

  lemma {:induction false} CountedOn(n: nat, steps: seq<Step>, more: seq<Step>)
    requires forall s :: s in more ==> !s.Restart?
    ensures Run(n, steps + more).0.next == Run(n, steps).0.next + Appends(n, more)
  {
    hide Run, Remember;
    if more == [] {
      assert steps + more == steps;
    } else {
      var front, last := more[..|more| - 1], more[|more| - 1];
      CountedOn(n, steps, front);
      RunThen(n, steps + front, last);
      assert steps + more == steps + front + [last];
    }
  }

  /** From one restart to the next, over all files together, records are numbered one after the other. */
  lemma {:induction false} NumbersConsecutive(n: nat, steps: seq<Step>, more: seq<Step>, shard: nat, cmd: string)
    requires (forall s :: s in more ==> !s.Restart?) && shard < n
    ensures var (l, h), next := Run(n, steps + more), Run(n, steps).0.next + Appends(n, more);
            && l.next == next
            && Run(n, steps + more + [Append(shard, cmd)]).1 == h + [Logged(shard, WalEntry(cmd, next))]
  {
    CountedOn(n, steps, more);
    RunThen(n, steps + more, Append(shard, cmd));
    hide Run, Appends;
  }

  /** A restart goes on from the largest number in the files, and from 0 when they are empty. */
  lemma {:induction false} RestartNumber(n: nat, steps: seq<Step>)
    ensures var l := Run(n, steps + [Restart]).0;
            && (forall s, e :: 0 <= s < |l.files| && e in l.files[s] ==> e.seqNo < l.next)
            && (l.next > 0 ==> exists s, e :: 0 <= s < |l.files| && e in l.files[s] && e.seqNo + 1 == l.next)
  {
    assert (steps + [Restart])[..|steps|] == steps;
    var all := Concat(Run(n, steps).0.files);
    PastBounds(all);
    PastReached(all);
    ConcatMembers(Run(n, steps).0.files);
    hide Concat, Past;
  }

  lemma {:induction false} PastReached(all: seq<WalEntry>)
    ensures Past(all) > 0 ==> exists e :: e in all && e.seqNo + 1 == Past(all)
  {
    if all != [] {
      PastReached(all[..|all| - 1]);
      assert all[|all| - 1] in all;
    }
  }

  lemma {:induction false} ConcatMembers(files: seq<seq<WalEntry>>)
    ensures forall e :: e in Concat(files) <==> exists s :: 0 <= s < |files| && e in files[s]
  {
    if files != [] {
      ConcatMembers(files[1..]);
      forall e
        ensures e in Concat(files) <==> exists s :: 0 <= s < |files| && e in files[s]
      {
        if s :| 0 <= s < |files[1..]| && e in files[1..][s] {
          assert e in files[s + 1];
        }
        if s :| 1 <= s < |files| && e in files[s] {
          assert e in files[1..][s - 1];
        }
      }
    }
  }
}
