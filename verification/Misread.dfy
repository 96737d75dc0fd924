/**
 * Commands that are logged and never read back: behind a WAL that does not end clean there always
 * is a `set` whose record the reader does not find, whatever the bytes are.
 */
module Misread {
  import opened Base
  import opened Bytes
  import opened WalLog

  function Pow2(w: nat): (r: nat)
    ensures r > 0
  {
    if w == 0 then 1 else 2 * Pow2(w - 1)
  }

  lemma {:induction false} Pow2Sum(a: nat, b: nat)
    ensures Pow2(a + b) == Pow2(a) * Pow2(b)
  {
    if a > 0 {
      Pow2Sum(a - 1, b);
    }
  }

  lemma {:induction false} Pow2Grows(a: nat, b: nat)
    requires a <= b
    ensures Pow2(a) <= Pow2(b)
  {
    if a < b {
      Pow2Grows(a, b - 1);
    }
  }

  /** More digit strings than a 64-bit file has places. */
  lemma ManyStrings()
    ensures Pow2(260) >= 2 * POW64
  {
    assert Pow2(8) == 256 && Pow2(65) == 2 * Pow2(64);
    hide Pow2;
    Pow2Sum(8, 8);
    assert Pow2(16) == 0x1_0000;
    Pow2Sum(16, 16);
    assert Pow2(32) == POW32;
    Pow2Sum(32, 32);
    assert Pow2(64) == POW64;
    Pow2Grows(65, 260);
  }

  ghost predicate Digits(v: string) {
    forall x :: x in v ==> x == '0' || x == '1'
  }

  /** A digit string that is at none of the given places: the next digit always leaves at most half of them. */
  lemma {:induction false} Avoid(s: string, at: set<nat>, k: nat, w: nat) returns (v: string)
    requires |at| < Pow2(w)
    ensures |v| == w && Digits(v)
    ensures forall p :: p in at && p + k + w <= |s| ==> s[p + k..p + k + w] != v
    decreases w
  {
    if w == 0 {
      v := "";
    } else {
      var zeros := set p | p in at && p + k < |s| && s[p + k] == '0';
      var ones := set p | p in at && p + k < |s| && s[p + k] == '1';
      SubsetSize(zeros + ones, at);
      assert |zeros + ones| == |zeros| + |ones|;
      var few := |zeros| < Pow2(w - 1);
      var x, rest := if few then '0' else '1', if few then zeros else ones;
      var more := Avoid(s, rest, k + 1, w - 1);
      v := [x] + more;
      forall p | p in at && p + k + w <= |s|
        ensures s[p + k..p + k + w] != v
      {
        assert p in rest || s[p + k] != x;
        assert p in rest ==> s[p + (k + 1)..p + (k + 1) + (w - 1)] != more;
        Differs(s, p + k, x, more);
      }
    }
  }

  lemma Differs(s: string, p: nat, x: char, more: string)
    requires p + 1 + |more| <= |s| && (s[p] != x || s[p + 1..p + 1 + |more|] != more)
    ensures s[p..p + 1 + |more|] != [x] + more
  {
    var here := s[p..p + 1 + |more|];
    assert here[0] == s[p] && here[1..] == s[p + 1..p + 1 + |more|];
    assert ([x] + more)[0] == x && ([x] + more)[1..] == more;
  }

  predicate IsAt(c: string, s: string, p: nat) {
    p + |c| <= |s| && s[p..p + |c|] == c
  }

  ghost predicate Absent(c: string, s: string) {
    forall p: nat :: !IsAt(c, s, p)
  }

  const SIZE: nat := 266

  /** A `set` of 266 characters that is not part of the given bytes. */
  lemma NewCommand(s: string) returns (v: string)
    requires |s| <= POW64
    ensures |v| == 260 && Digits(v) && Absent("set k " + v, s)
  {
    ManyStrings();
    hide Pow2;
    BelowSize(|s|);
    v := Avoid(s, Below(|s|), 6, 260);
    var c := "set k " + v;
    forall p: nat
      ensures !IsAt(c, s, p)
    {
      if p + |c| <= |s| {
        assert p in Below(|s|);
        assert s[p..p + |c|][6..] == s[p + 6..p + 6 + 260] && c[6..] == v;
      }
    }
  }

  // ------------------------------------------------------------ the reader

  /** Its first character does not come again, and its size has a newline as low byte. */
  ghost predicate Lost(c: string) {
    |c| == SIZE && c[0] == 's' && forall i :: 1 <= i < SIZE ==> c[i] != 's'
  }

  lemma SizeIs()
    ensures Le(SIZE, 4) == [10 as char, 1 as char, 0 as char, 0 as char]
  {
    assert Le(266, 4) == [10 as char] + Le(1, 3);
    assert Le(1, 3) == [1 as char] + Le(0, 2);
    assert Le(0, 2) == [0 as char] + Le(0, 1);
    assert Le(0, 1) == [0 as char] + Le(0, 0);
  }

  /** A record needs its bytes. */
  lemma {:induction false} TooShort(s: string, e: WalEntry)
    requires |s| < 12 + |e.cmd|
    ensures e !in Decode(s)
    decreases |s|
  {
    if ReadRecord(s).Some? {
      var (e0, n) := ReadRecord(s).value;
      assert |e0.cmd| + 12 <= |s|;
      TooShort(s[n..], e);
    }
  }

  /** The record without its first byte is no record. */
  lemma ShiftedByOne(e: WalEntry)
    requires Lost(e.cmd)
    ensures Decode(Encode(e)[1..]) == []
  {
    var rest := Encode(e)[1..];
    SizeIs();
    assert rest[0] == Le(SIZE, 4)[1] && rest[1] == Le(SIZE, 4)[2] && rest[2] == Le(SIZE, 4)[3] && rest[3] == e.cmd[0];
    assert rest[..4] == [1 as char, 0 as char, 0 as char, 's'];
    UnLeHigh(rest[..4]);
  }

  /** Nor is a later part of it. */
  lemma Shifted(e: WalEntry, d: nat)
    requires Lost(e.cmd) && 1 <= d <= |Encode(e)|
    ensures e !in Decode(Encode(e)[d..])
  {
    if d == 1 {
      ShiftedByOne(e);
    } else {
      TooShort(Encode(e)[d..], e);
    }
  }

  /** The record that begins in front of it is another one. */
  lemma NotEarlier(s: string, e: WalEntry)
    requires s != "" && Lost(e.cmd) && Absent(e.cmd, s + Le(SIZE, 4))
    requires ReadRecord(s + Encode(e)).Some?
    ensures ReadRecord(s + Encode(e)).value.0 != e
  {
    NotAtFour(s, e);
    var t := s + Encode(e);
    var e1 := ReadRecord(t).value.0;
    assert t[4..4 + |e1.cmd|] == e1.cmd;
  }

  lemma NotAtFour(s: string, e: WalEntry)
    requires s != "" && Lost(e.cmd) && Absent(e.cmd, s + Le(SIZE, 4))
    ensures var t := s + Encode(e); |t| >= 4 + SIZE && t[4..4 + SIZE] != e.cmd
  {
    var t, c, size := s + Encode(e), e.cmd, Le(SIZE, 4);
    if |s| < SIZE {
      assert t[4..4 + SIZE][|s|] == t[4 + |s|] == Encode(e)[4] == c[0];
    } else {
      assert t[4..4 + SIZE] == (s + size)[4..4 + SIZE] by {
        assert Encode(e)[..4] == size;
      }
      assert !IsAt(c, s + size, 4);
    }
  }

  /** From bytes that hold no record the reader jumps over the start of the next one. */
  lemma {:induction false} BehindLeftOver(s: string, e: WalEntry)
    requires s != "" && ReadRecord(s) == None && Lost(e.cmd) && Absent(e.cmd, s + Le(SIZE, 4))
    ensures e !in Decode(s + Encode(e))
  {
    var t := s + Encode(e);
    if ReadRecord(t).Some? {
      var n := ReadRecord(t).value.1;
      NotEarlier(s, e);
      JumpsOver(s, Encode(e));
      assert t[n..] == Encode(e)[n - |s|..];
      hide ReadRecord, Encode;
      Shifted(e, n - |s|);
    }
  }

  lemma JumpsOver(s: string, more: string)
    requires ReadRecord(s) == None && ReadRecord(s + more).Some?
    ensures ReadRecord(s + more).value.1 > |s|
  {
    if |s| >= 4 {
      assert (s + more)[..4] == s[..4];
    }
  }

  lemma {:induction false} NeverRead(s: string, e: WalEntry)
    requires !EndsClean(s) && Lost(e.cmd) && Absent(e.cmd, s + Le(SIZE, 4))
    ensures e !in Decode(s + Encode(e))
    decreases |s|
  {
    hide ReadRecord, Encode, Decode, EndsClean, Lost;
    CleanIs(s);
    if ReadRecord(s) == None {
      BehindLeftOver(s, e);
    } else {
      var (e0, n) := ReadRecord(s).value;
      ReadIsPart(s, e);
      if n == |s| {
        BehindNoNewline(s, e);
      } else {
        DecodeFirst(s, Encode(e));
        AbsentBehind(e.cmd, s, n);
        NeverRead(s[n..], e);
      }
    }
  }

  lemma AbsentBehind(c: string, s: string, n: nat)
    requires n <= |s| && Absent(c, s + Le(SIZE, 4))
    ensures Absent(c, s[n..] + Le(SIZE, 4))
  {
    var all, rest := s + Le(SIZE, 4), s[n..] + Le(SIZE, 4);
    forall p: nat
      ensures !IsAt(c, rest, p)
    {
      if p + |c| <= |rest| {
        assert rest[p..p + |c|] == all[p + n..p + n + |c|];
        assert !IsAt(c, all, p + n);
      }
    }
  }

  /** What is read from the file itself is part of it. */
  lemma ReadIsPart(s: string, e: WalEntry)
    requires ReadRecord(s).Some? && Absent(e.cmd, s + Le(SIZE, 4))
    ensures ReadRecord(s).value.0 != e
    ensures ReadRecord(s).value.1 in {12 + |ReadRecord(s).value.0.cmd|, 13 + |ReadRecord(s).value.0.cmd|}
  {
    var e0 := ReadRecord(s).value.0;
    assert s[4..4 + |e0.cmd|] == e0.cmd;
    assert (s + Le(SIZE, 4))[4..4 + |e0.cmd|] == e0.cmd;
    assert !IsAt(e.cmd, s + Le(SIZE, 4), 4);
  }

  lemma BehindNoNewline(s: string, e: WalEntry)
    requires ReadRecord(s).Some? && ReadRecord(s).value.1 == |s| == 12 + |ReadRecord(s).value.0.cmd|
    requires Lost(e.cmd) && ReadRecord(s).value.0 != e
    ensures e !in Decode(s + Encode(e))
  {
    var code := Encode(e);
    SizeIs();
    assert code[0] == '\n';
    ReadAppended(s, code);
    hide ReadRecord, Encode;
    assert (s + code)[|s| + 1..] == code[1..];
    Shifted(e, 1);
  }

  /** Whatever bytes are in a WAL that does not end clean, some `set` is never read back behind them. */
  lemma UnreadableSet(s: string, n: nat) returns (v: string)
    requires !EndsClean(s) && |s| < POW64 - 4
    ensures |v| == 260 && Digits(v)
    ensures var e := WalEntry("set k " + v, n); e !in Decode(s + Encode(e))
  {
    hide Encode, Decode, EndsClean, Absent;
    v := NewCommand(s + Le(SIZE, 4));
    var e := WalEntry("set k " + v, n);
    assert Lost(e.cmd) by {
      forall i | 1 <= i < SIZE
        ensures e.cmd[i] != 's'
      {
        if i >= 6 {
          assert e.cmd[i] == v[i - 6] && v[i - 6] in v;
        }
      }
    }
    NeverRead(s, e);
  }
}
