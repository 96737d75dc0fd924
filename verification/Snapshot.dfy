/**
 * The online snapshot: file sizes are recorded right after a flush, then that many bytes of each
 * file are copied while clients keep writing and compaction is paused.
 */
module Snapshot {
  import opened Base
  import opened Bytes
  import opened IndexLog
  import opened Storage
  import opened ShardEngine
  import opened Durability
  import opened Crash
  import Recovery
  import Commands

  // ------------------------------------------------------------- copying

  /** Where the chunk begins that the byte at `p` is read with. */
  function ChunkStart(p: nat, chunk: nat): nat
    requires chunk > 0
  {
    if p < chunk then 0 else chunk + ChunkStart(p - chunk, chunk)
  }

  lemma {:induction false} SameChunk(pos: nat, d: nat, chunk: nat)
    requires chunk > 0 && ChunkStart(pos, chunk) == pos
    ensures d < chunk ==> ChunkStart(pos + d, chunk) == pos
    ensures d == chunk ==> ChunkStart(pos + d, chunk) == pos + d
  {
    if pos >= chunk {
      SameChunk(pos - chunk, d, chunk);
    }
  }

  /** The copy has `size` bytes, each as the file had it when that byte was read: `file(p)` for the byte at `p`. */
  ghost predicate CutAt(copy: string, file: nat -> string, size: nat) {
    |copy| == size && forall p :: 0 <= p < size ==> p < |file(p)| && copy[p] == file(p)[p]
  }

  lemma ChunkBytes(pos: nat, n: nat, chunk: nat)
    requires 0 < n <= chunk && ChunkStart(pos, chunk) == pos
    ensures forall p :: pos <= p < pos + n ==> ChunkStart(p, chunk) == pos
    ensures n == chunk ==> ChunkStart(pos + n, chunk) == pos + n
  {
    forall p | pos <= p < pos + n
      ensures ChunkStart(p, chunk) == pos
    {
      SameChunk(pos, p - pos, chunk);
    }
    SameChunk(pos, n, chunk);
  }

  /** The file byte by byte, when it is read in chunks: `file(pos)` is what it holds when the chunk at `pos` is. */
  function ByChunk(file: nat -> string, chunk: nat): nat -> string
    requires chunk > 0
  {
    (p: nat) => file(ChunkStart(p, chunk))
  }

  /** `copyPrefix`: copies `size` bytes in chunks while the file changes; fails if it is too short then. */
  method CopyPrefix(file: nat -> string, size: nat, chunk: nat) returns (ok: bool, to: string)
    requires chunk > 0
    ensures ok <==> forall p :: 0 <= p < size ==> p < |ByChunk(file, chunk)(p)|
    ensures ok ==> CutAt(to, ByChunk(file, chunk), size)
  {
    var left, pos := size, 0;
    to := "";
    while left > 0
      invariant 0 <= left && pos + left == size && |to| == pos && (left > 0 ==> ChunkStart(pos, chunk) == pos)
      invariant CutAt(to, ByChunk(file, chunk), pos)
    {
      var n := Min(left, chunk);
      ChunkBytes(pos, n, chunk);
      hide ChunkStart;
      if pos + n > |file(pos)| {
        assert pos + n - 1 >= |ByChunk(file, chunk)(pos + n - 1)|;
        return false, to;
      }
      to := to + file(pos)[pos..pos + n];
      pos, left := pos + n, left - n;
    }
    return true, to;
  }

  // ------------------------------------------------ what happens meanwhile

  /**
   * What a client command does to the files of a shard: it stores or erases keys one after the
   * other. Pattern commands, limited or not, are sequences of such appends, over all shards. The
   * flush cycle changes no file that is copied by size, and compaction is paused.
   */
  datatype Append =
    | Store(shard: nat, k: Key, v: Value, segSize: U64)
    | Erase(shard: nat, k: Key)

  function After(e: Engine, op: Append): Engine {
    match op
    case Store(_, k, v, segSize) => if v == "" then e else SetStep(e, k, v, segSize).0
    case Erase(_, k) => DelStep(e, k).0
  }

  /** Files only grow: the old bytes are the front of the new ones. */
  ghost predicate Grown(e: Engine, e': Engine) {
    e.log <= e'.log && Extends(e.store.segs, e'.store.segs)
  }

  /** The shards after any number of appends. */
  function Shards(start: seq<Engine>, ops: seq<Append>): (r: seq<Engine>)
    ensures |r| == |start|
  {
    if ops == [] then start
    else
      var now, op := Shards(start, ops[..|ops| - 1]), ops[|ops| - 1];
      if op.shard < |start| then now[op.shard := After(now[op.shard], op)] else now
  }

  lemma AfterGrows(e: Engine, op: Append)
    requires Sound(e)
    ensures Sound(After(e, op)) && Grown(e, After(e, op))
  {
    match op
    case Store(_, k, v, segSize) =>
      if v != "" {
        SetSpec(e, k, v, segSize);
      }
    case Erase(_, k) => DelSpec(e, k);
  }

  /** What clients see of an append: the pair is stored unless the append is refused, or the key is gone. */
  lemma AfterDoes(e: Engine, op: Append)
    requires Sound(e)
    ensures View(After(e, op)) ==
            match op
            case Store(_, k, v, segSize) => if v == "" || Refused(e.store, v, segSize) then View(e) else View(e)[k := v]
            case Erase(_, k) => View(e) - {k}
  {
    match op
    case Store(_, k, v, segSize) =>
      if v != "" {
        SetSpec(e, k, v, segSize);
      }
    case Erase(_, k) => DelSpec(e, k);
  }

  /** The database serves on: each append does to its shard what clients ask, and nothing to the others. */
  lemma {:induction false} MeanwhileServed(start: seq<Engine>, ops: seq<Append>, op: Append, s: nat)
    requires s < |start| && Sound(start[s])
    ensures var e, e' := Shards(start, ops)[s], Shards(start, ops + [op])[s];
            View(e') ==
            match op
            case Store(i, k, v, segSize) =>
              if i != s || v == "" || Refused(e.store, v, segSize) then View(e) else View(e)[k := v]
            case Erase(i, k) => if i != s then View(e) else View(e) - {k}
  {
    assert (ops + [op])[..|ops|] == ops;
    ShardsGrow(start, ops, s);
    AfterDoes(Shards(start, ops)[s], op);
    hide After, View, Sound, Refused;
  }

  lemma {:induction false} ShardsGrow(start: seq<Engine>, ops: seq<Append>, s: nat)
    requires s < |start| && Sound(start[s])
    ensures Sound(Shards(start, ops)[s]) && Grown(start[s], Shards(start, ops)[s])
  {
    hide Sound, After;
    if ops != [] {
      var front, op := ops[..|ops| - 1], ops[|ops| - 1];
      ShardsGrow(start, front, s);
      var e := Shards(start, front)[s];
      AfterGrows(e, op);
      ExtendsTransitive(start[s].store.segs, e.store.segs, After(e, op).store.segs);
    }
  }

  /** The shards after the first `n` of the appends. */
  function At(start: seq<Engine>, ops: seq<Append>, n: nat): (r: seq<Engine>)
    ensures |r| == |start|
  {
    Shards(start, if n <= |ops| then ops[..n] else ops)
  }

  /** The segment's bytes. */
  function SegmentBytes(e: Engine, id: nat): string {
    if id in e.store.segs then e.store.segs[id] else ""
  }

  /** The INDEX of a shard, at the moment a byte of it is read. */
  function IndexFile(start: seq<Engine>, ops: seq<Append>, s: nat, at: nat -> nat): nat -> string
    requires s < |start|
  {
    (p: nat) => SerializeAll(At(start, ops, at(p))[s].log)
  }

  function SegmentFile(start: seq<Engine>, ops: seq<Append>, s: nat, at: (nat, nat) -> nat, id: nat): nat -> string
    requires s < |start|
  {
    (p: nat) => SegmentBytes(At(start, ops, at(id, p))[s], id)
  }

  /**
   * The copy of one shard: of each file as many bytes as it had, every byte read at a moment of
   * its own, after some of the appends. (The bytes of a chunk are read at one moment.)
   */
  ghost predicate CopyOf(start: seq<Engine>, ops: seq<Append>, s: nat, img: Image, indexAt: nat -> nat, segAt: (nat, nat) -> nat)
    requires s < |start|
  {
    var e := start[s];
    && CutAt(img.index, IndexFile(start, ops, s, indexAt), |SerializeAll(e.log)|)
    && img.segs.Keys == e.store.segs.Keys
    && forall id :: id in img.segs ==> CutAt(img.segs[id], SegmentFile(start, ops, s, segAt, id), |e.store.segs[id]|)
  }

  /** Whenever the bytes were read, the copy is the shard as it was when the sizes were recorded. */
  lemma CopyIsOriginal(start: seq<Engine>, ops: seq<Append>, s: nat, img: Image, indexAt: nat -> nat, segAt: (nat, nat) -> nat)
    requires s < |start| && Sound(start[s])
    requires CopyOf(start, ops, s, img, indexAt, segAt)
    ensures img == Image(SerializeAll(start[s].log), start[s].store.segs)
  {
    hide Sound, At, SerializeAll, SegmentFile, IndexFile, CutAt;
    var e := start[s];
    IndexGrows(start, ops, s, indexAt);
    CutFile(SerializeAll(e.log), IndexFile(start, ops, s, indexAt), img.index);
    forall id | id in img.segs
      ensures img.segs[id] == e.store.segs[id]
    {
      SegmentGrows(start, ops, s, segAt, id);
      CutFile(e.store.segs[id], SegmentFile(start, ops, s, segAt, id), img.segs[id]);
    }
  }

  /** A file that only grew: whatever the moments, the copy is its old contents. */
  lemma CutFile(file: string, grown: nat -> string, copy: string)
    requires (forall p: nat :: file <= grown(p)) && CutAt(copy, grown, |file|)
    ensures copy == file
  {
    forall p | 0 <= p < |file|
      ensures copy[p] == file[p]
    {
      assert file <= grown(p);
    }
  }

  lemma SegmentGrows(start: seq<Engine>, ops: seq<Append>, s: nat, at: (nat, nat) -> nat, id: nat)
    requires s < |start| && Sound(start[s]) && id in start[s].store.segs
    ensures forall p: nat :: start[s].store.segs[id] <= SegmentFile(start, ops, s, at, id)(p)
  {
    hide Sound, Shards;
    forall p: nat
      ensures start[s].store.segs[id] <= SegmentFile(start, ops, s, at, id)(p)
    {
      var n := at(id, p);
      ShardsGrow(start, if n <= |ops| then ops[..n] else ops, s);
    }
  }

  lemma IndexGrows(start: seq<Engine>, ops: seq<Append>, s: nat, at: nat -> nat)
    requires s < |start| && Sound(start[s])
    ensures forall p: nat :: SerializeAll(start[s].log) <= IndexFile(start, ops, s, at)(p)
  {
    hide Sound, Shards, SerializeAll;
    forall p: nat
      ensures SerializeAll(start[s].log) <= IndexFile(start, ops, s, at)(p)
    {
      var n := at(p);
      ShardsGrow(start, if n <= |ops| then ops[..n] else ops, s);
      var log, grown := start[s].log, At(start, ops, n)[s].log;
      SerializeAllConcat(log, grown[|log|..]);
      assert grown == log + grown[|log|..];
    }
  }

  function Engines(db: DB): seq<Engine> {
    seq(|db.disks|, i requires 0 <= i < |db.disks| => db.disks[i].engine)
  }

  /**
   * Booting from the copy answers every key as the database did at the moment the sizes were
   * recorded, whatever was written and rotated meanwhile and whenever each byte was read.
   */
  lemma SnapshotIsPointInTime(c: Config, db: DB, ops: seq<Append>, images: seq<Image>,
                              indexAt: (nat, nat) -> nat, segAt: (nat, nat, nat) -> nat, booted: seq<Disk>, k: Key)
    requires Inv(c, db) && db.pending == [] && AllSynced(db)
    requires |images| == |booted| == c.shards
    requires forall s :: 0 <= s < c.shards ==>
               && CopyOf(Engines(db), ops, s, images[s], (p: nat) => indexAt(s, p), (id: nat, p: nat) => segAt(s, id, p))
               && Booted(images[s], booted[s])
    ensures Holds(booted[HomeOf(c, k)], k) == Lookup(db.live, k)
  {
    var s := HomeOf(c, k);
    var d := db.disks[s];
    CopyIsOriginal(Engines(db), ops, s, images[s], (p: nat) => indexAt(s, p), (id: nat, p: nat) => segAt(s, id, p));
    WholeImage(d, images[s]);
    Recovery.SyncedReboot(d, images[s], booted[s], k);
    assert Commands.Effects(Commands.Fitting([], db.segSize), k, Answer(c, db, k)) == Lookup(db.live, k);
  }
}
