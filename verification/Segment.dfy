/**
 * One data segment: a file shared by reads and writes through a single stream position,
 * with the `atWriteEnd`/`currentOffset` bookkeeping that lets a write skip its seek.
 */
module Segment {
  import opened Base
  import opened Bytes

  /** An `fstream`: the bytes, the one position reads and writes share, and the error state. */
  datatype Stream = Stream(content: string, position: nat, good: bool) {
    function Clear(): Stream { this.(good := true) }

    function Seek(p: nat): Stream { if good then this.(position := p) else this }

    /** Writes at the position, over or past what is there; with a fault only `n` bytes arrive. */
    function Write(v: string, fault: Option<nat>): Stream {
      if !good then this
      else if fault.Some? then Put(v[..Min(fault.value, |v|)]).(good := false)
      else Put(v)
    }

    function Put(v: string): Stream {
      var pad := content + seq(Max(0, position - |content|), _ => '\0');
      var after := position + |v|;
      Stream(pad[..position] + v + (if after <= |pad| then pad[after..] else ""), after, good)
    }

    /** Reads `size` bytes, or as many as there are and then fails. */
    function Read(size: nat): (Stream, string) {
      var from := Min(position, |content|);
      var got := content[from..Min(from + size, |content|)];
      if good && |got| == size then (this.(position := position + size), got)
      else (this.(position := Max(position, |content|), good := false), got)
    }
  }

  datatype State = State(file: Stream, currentOffset: nat, atWriteEnd: bool)

  /** What `write` returns for "no room": one past the segment size, in 64 bits. */
  function Sentinel(segSize: U64): nat {
    (segSize + 1) % POW64
  }

  function Open(content: string): State {
    State(Stream(content, |content|, true), |content|, false)
  }

  function WriteStep(s: State, v: string, segSize: U64, fault: Option<nat>): (State, nat) {
    var start := s.currentOffset;
    if start + |v| > segSize then (s, Sentinel(segSize))
    else
      var placed := if s.atWriteEnd then s.file else s.file.Clear().Seek(start);
      var file := placed.Write(v, fault);
      if !file.good then (State(file, start, false), Sentinel(segSize))
      else (State(file, start + |v|, true), start)
  }

  function ReadStep(s: State, offset: nat, size: nat): (State, string) {
    var (file, got) := s.file.Clear().Seek(offset).Read(size);
    (State(file, s.currentOffset, false), if |got| == size then got else "")
  }

  /** The position protocol: a write may skip the seek only where the seek would be a no-op. */
  ghost predicate Inv(s: State) {
    && s.currentOffset <= |s.file.content|
    && (s.atWriteEnd ==> s.file.good && s.file.position == s.currentOffset)
  }

  /** The bytes that belong to accepted values. */
  function Contents(s: State): string
    requires s.currentOffset <= |s.file.content|
  {
    s.file.content[..s.currentOffset]
  }

  predicate Accepts(s: State, v: string, segSize: U64, fault: Option<nat>) {
    s.currentOffset + |v| <= segSize && fault.None?
  }

  /** An accepted write appends; a refused or failed one leaves the accepted bytes alone. */
  lemma WriteAppends(s: State, v: string, segSize: U64, fault: Option<nat>)
    requires Inv(s)
    ensures var (s', r) := WriteStep(s, v, segSize, fault);
            && Inv(s')
            && Contents(s') == Contents(s) + (if Accepts(s, v, segSize, fault) then v else "")
            && r == (if Accepts(s, v, segSize, fault) then s.currentOffset else Sentinel(segSize))
  {
    var (s', r) := WriteStep(s, v, segSize, fault);
    if s.currentOffset + |v| <= segSize {
      var placed := if s.atWriteEnd then s.file else s.file.Clear().Seek(s.currentOffset);
      assert placed.good && placed.position == s.currentOffset <= |placed.content|;
      assert placed.content + [] == placed.content;
      if fault.None? {
        assert s'.file == placed.Put(v);
        assert s'.file.content[..s.currentOffset + |v|] == placed.content[..s.currentOffset] + v;
      } else {
        var part := v[..Min(fault.value, |v|)];
        assert s'.file.content == placed.Put(part).content;
        assert s'.file.content[..s.currentOffset] == placed.content[..s.currentOffset];
      }
    }
  }

  /** A read returns the accepted bytes at a range that lies within them, and moves no data. */
  lemma ReadReturns(s: State, offset: nat, size: nat)
    requires Inv(s)
    ensures var (s', v) := ReadStep(s, offset, size);
            && Inv(s') && Contents(s') == Contents(s)
            && (offset + size <= s.currentOffset ==> v == Contents(s)[offset..offset + size])
  {
    if offset + size <= s.currentOffset {
      assert s.file.content[offset..offset + size] == Contents(s)[offset..offset + size];
    }
  }

  /**
   * Storage tells success from failure by comparing the result with the sentinel. An accepted
   * write is taken for a failure exactly in an empty segment whose size is the largest
   * 64-bit number, where the sentinel wraps to 0.
   */
  lemma SentinelCollides(s: State, v: string, segSize: U64)
    requires Inv(s) && Accepts(s, v, segSize, None)
    ensures WriteStep(s, v, segSize, None).1 == Sentinel(segSize)
       <==> segSize == MAX_U64 && s.currentOffset == 0
  {
    WriteAppends(s, v, segSize, None);
    if segSize < MAX_U64 {
      assert Sentinel(segSize) == segSize + 1;
    } else {
      assert Sentinel(segSize) == POW64 % POW64 == 0;
    }
  }

  // ------------------------------------------- segments as their contents

  /** Without faulty writes nothing is in the file but the accepted bytes. */
  ghost predicate Clean(s: State) {
    Inv(s) && |s.file.content| == s.currentOffset
  }

  /** What a write makes of the contents, and the position it returns. */
  function Placed(content: string, v: string, segSize: U64): (string, nat) {
    if |content| + |v| > segSize then (content, Sentinel(segSize)) else (content + v, |content|)
  }

  /** A write depends on the contents only, not on where reads have left the file position. */
  lemma WriteIsPlaced(s: State, v: string, segSize: U64)
    requires Clean(s)
    ensures var (s', pos) := WriteStep(s, v, segSize, None);
            Clean(s') && (Contents(s'), pos) == Placed(Contents(s), v, segSize)
  {
    WriteAppends(s, v, segSize, None);
    if s.currentOffset + |v| <= segSize {
      var placed := if s.atWriteEnd then s.file else s.file.Clear().Seek(s.currentOffset);
      assert placed.content + [] == placed.content;
    }
  }

  /** So does a read: the bytes of a range that lies within the contents, otherwise none. */
  lemma ReadIsSlice(s: State, offset: nat, size: nat)
    requires Clean(s)
    ensures var (s', v) := ReadStep(s, offset, size);
            && Clean(s') && Contents(s') == Contents(s)
            && v == if offset + size <= |Contents(s)| then Contents(s)[offset..offset + size] else ""
  {
    ReadReturns(s, offset, size);
  }

  lemma OpenIsClean(content: string)
    ensures Clean(Open(content)) && Contents(Open(content)) == content
  {
  }

  // ------------------------------------------------------------ whole runs

  datatype Op =
    | WriteOp(value: string, segSize: U64, fault: Option<nat>)
    | ReadOp(offset: nat, size: nat)

  function Step(s: State, op: Op): State {
    match op
    case WriteOp(v, segSize, fault) => WriteStep(s, v, segSize, fault).0
    case ReadOp(offset, size) => ReadStep(s, offset, size).0
  }

  function Run(s: State, ops: seq<Op>): State {
    if ops == [] then s else Step(Run(s, ops[..|ops| - 1]), ops[|ops| - 1])
  }

  lemma {:induction false} RunGrows(s: State, ops: seq<Op>)
    requires Inv(s)
    ensures Inv(Run(s, ops)) && Contents(s) <= Contents(Run(s, ops))
  {
    if ops != [] {
      RunGrows(s, ops[..|ops| - 1]);
      StepGrows(Run(s, ops[..|ops| - 1]), ops[|ops| - 1]);
    }
  }

  lemma StepGrows(s: State, op: Op)
    requires Inv(s)
    ensures Inv(Step(s, op)) && Contents(s) <= Contents(Step(s, op))
  {
    match op
    case WriteOp(v, segSize, fault) => WriteAppends(s, v, segSize, fault);
    case ReadOp(offset, size) => ReadReturns(s, offset, size);
  }

  /**
   * Over every interleaving of reads (past the end included) and writes (faulty ones included),
   * a value written before `later` is read back unchanged at the offset its write returned.
   */
  lemma ReadBackForever(file: string, before: seq<Op>, v: string, segSize: U64, later: seq<Op>)
    requires Accepts(Run(Open(file), before), v, segSize, None)
    ensures var (s1, offset) := WriteStep(Run(Open(file), before), v, segSize, None);
            ReadStep(Run(s1, later), offset, |v|).1 == v
  {
    var s0 := Run(Open(file), before);
    RunGrows(Open(file), before);
    var (s1, offset) := WriteStep(s0, v, segSize, None);
    WriteAppends(s0, v, segSize, None);
    var s2 := Run(s1, later);
    RunGrows(s1, later);
    ReadReturns(s2, offset, |v|);
    assert Contents(s1)[offset..offset + |v|] == v;
    assert Contents(s2)[offset..offset + |v|] == Contents(s1)[offset..offset + |v|];
  }

  // ------------------------------------------------------------ the object

  class DataSegment {
    const segmentId: nat
    var segment: Stream
    var currentOffset: nat
    var atWriteEnd: bool
    var canFlush: bool
    var synced: nat

    ghost function Abstract(): State
      reads this
    {
      State(segment, currentOffset, atWriteEnd)
    }

    ghost predicate Valid()
      reads this
    {
      Inv(Abstract()) && synced <= |segment.content| && (!canFlush ==> currentOffset <= synced)
    }

    constructor (id: nat, file: string)
      ensures Valid() && Abstract() == Open(file) && segmentId == id && synced == |file|
    {
      segmentId := id;
      segment := Stream(file, |file|, true);
      currentOffset, atWriteEnd := |file|, false;
      canFlush, synced := false, |file|;
    }

    method Write(value: string, segSize: U64, fault: Option<nat>) returns (pos: nat)
      requires Valid()
      modifies this
      ensures Valid() && synced == old(synced)
      ensures (Abstract(), pos) == WriteStep(old(Abstract()), value, segSize, fault)
      ensures Contents(Abstract()) == old(Contents(Abstract()))
                + (if Accepts(old(Abstract()), value, segSize, fault) then value else "")
    {
      WriteAppends(Abstract(), value, segSize, fault);
      ghost var length := |segment.content|;
      var startOffset := currentOffset;
      if startOffset + |value| > segSize {
        return Sentinel(segSize);
      }
      if !atWriteEnd {
        segment := segment.Clear();
        segment := segment.Seek(startOffset);
        atWriteEnd := true;
      }
      segment := segment.Write(value, fault);
      assert |segment.content| >= length;
      canFlush := true;
      if !segment.good {
        atWriteEnd := false;
        return Sentinel(segSize);
      }
      currentOffset := startOffset + |value|;
      return startOffset;
    }

    method Read(offset: nat, size: nat) returns (res: string)
      requires Valid()
      modifies this
      ensures Valid() && synced == old(synced)
      ensures (Abstract(), res) == ReadStep(old(Abstract()), offset, size)
      ensures Contents(Abstract()) == old(Contents(Abstract()))
    {
      ReadReturns(Abstract(), offset, size);
      segment := segment.Clear();
      atWriteEnd := false;
      segment := segment.Seek(offset);
      var (after, got) := segment.Read(size);
      segment := after;
      res := if |got| == size then got else "";
    }

    method IsFull(segSize: U64) returns (full: bool)
      requires Valid()
      ensures full <==> forall v :: v != "" ==> !Accepts(Abstract(), v, segSize, None)
    {
      full := currentOffset >= segSize;
      if !full {
        assert Accepts(Abstract(), "x", segSize, None);
      }
    }

    /** Everything accepted so far is on disk afterwards. */
    method Flush()
      requires Valid()
      modifies this`synced, this`canFlush
      ensures Valid() && currentOffset <= synced && !canFlush
    {
      if canFlush {
        synced, canFlush := |segment.content|, false;
      }
    }
  }
}
