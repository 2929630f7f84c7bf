/** Chunking does not matter: writing a buffer in pieces leaves the same disk as writing it at
    once, and reading a file in pieces returns the whole of it. */
module Chunking {
  import opened Layout
  import opened Volume
  import opened Operations
  import opened Creation
  import opened Rewriting
  import opened WriteLoop
  import opened Writing

  // ---------- Splitting one run of the loop ----------

  /** From the start of a block on, the number of pointers the file had no longer matters once
      it is not above that block. */
  lemma {:induction false} RunLive(raw: Block -> Page, img: Image, ptrs: Pointers, live: nat, live': nat,
      buf: seq<Byte>, off: nat)
    requires |img.blk| == NUM_BLOCKS && off + |buf| <= MAX_FILE
    requires live == live' || (live <= BlockOf(off) && live' <= BlockOf(off))
    ensures Run(raw, img, ptrs, live, buf, off) == Run(raw, img, ptrs, live', buf, off)
    decreases |buf|
  {
    hide Run, ChunkLen, PutChunk;
    RunStep(raw, img, ptrs, live, buf, off);
    RunStep(raw, img, ptrs, live', buf, off);
    if buf != [] {
      ChunkLive(raw, img, ptrs, live, live', buf, off);
      if Target(img, ptrs, live, off) < NUM_BLOCKS {
        var n := ChunkLen(off, |buf|);
        var w := PutChunk(raw, img, ptrs, live, buf[..n], off);
        RunLive(raw, w.img, w.ptrs, live, live', buf[n..], off + n);
      }
    }
  }

  lemma ChunkLive(raw: Block -> Page, img: Image, ptrs: Pointers, live: nat, live': nat, buf: seq<Byte>, off: nat)
    requires |img.blk| == NUM_BLOCKS && off + |buf| <= MAX_FILE && buf != []
    requires live == live' || (live <= BlockOf(off) && live' <= BlockOf(off))
    ensures Target(img, ptrs, live, off) == Target(img, ptrs, live', off)
    ensures var n := ChunkLen(off, |buf|);
            && n <= |buf| && Within(off) + n <= BLOCK_SIZE && BlockOf(off + n) >= BlockOf(off)
            && (Target(img, ptrs, live, off) < NUM_BLOCKS ==>
                  && PutChunk(raw, img, ptrs, live, buf[..n], off) == PutChunk(raw, img, ptrs, live', buf[..n], off)
                  && |PutChunk(raw, img, ptrs, live, buf[..n], off).img.blk| == NUM_BLOCKS)
  {
  }

  lemma SpliceTwice(page: Page, at: nat, x: seq<Byte>, y: seq<Byte>)
    requires at + |x| + |y| <= BLOCK_SIZE
    ensures Splice(Splice(page, at, x), at + |x|, y) == Splice(page, at, x + y)
  {
  }

  /** Two pieces written into one block, the second by a later call that finds the first piece
      and its block in place, leave what one write of both leaves. */
  lemma ChunkTwice(raw: Block -> Page, img: Image, ptrs: Pointers, live: nat, live': nat, x: seq<Byte>, y: seq<Byte>,
      off: nat)
    requires |img.blk| == NUM_BLOCKS && off + |x| < MAX_FILE && x != [] && Within(off) + |x| + |y| <= BLOCK_SIZE
             && Within(off) + |x| < BLOCK_SIZE
    requires Target(img, ptrs, live, off) < NUM_BLOCKS && BlockOf(off) < live'
    ensures BlockOf(off + |x|) == BlockOf(off) && Within(off + |x|) == Within(off) + |x|
    ensures var w := PutChunk(raw, img, ptrs, live, x, off);
            && Target(w.img, w.ptrs, live', off + |x|) < NUM_BLOCKS
            && |w.img.blk| == NUM_BLOCKS
            && PutChunk(raw, w.img, w.ptrs, live', y, off + |x|) == PutChunk(raw, img, ptrs, live, x + y, off)
  {
    SameBlock(off, |x|);
    var b := Target(img, ptrs, live, off);
    var page := BytesOf(raw, img.blk[b]);
    SpliceTwice(page, Within(off), x, y);
    var w := PutChunk(raw, img, ptrs, live, x, off);
    assert w.img.blk[b] == Data(Splice(page, Within(off), x));
    assert w.ptrs[BlockOf(off)] == b;
  }

  lemma SameBlock(off: nat, n: nat)
    requires Within(off) + n < BLOCK_SIZE
    ensures BlockOf(off + n) == BlockOf(off) && Within(off + n) == Within(off) + n
  {
  }

  /** The loop over x + y is the loop over x followed by the loop over y as a fresh call on the
      longer file would run it. */
  lemma {:induction false} RunSplit(raw: Block -> Page, img: Image, ptrs: Pointers, live: nat, live': nat,
      x: seq<Byte>, y: seq<Byte>, off: nat)
    requires |img.blk| == NUM_BLOCKS && off + |x| + |y| <= MAX_FILE
    requires x + y != [] ==> Aligned(live, off)
    requires live' == Max(live, BlocksFor(off + |x|))
    requires Run(raw, img, ptrs, live, x, off).ok
    ensures var w := Run(raw, img, ptrs, live, x, off);
            Run(raw, img, ptrs, live, x + y, off) == Run(raw, w.img, w.ptrs, live', y, off + |x|)
    decreases |x|
  {
    hide Run, PutChunk, Target, FirstFree, Splice;
    RunStep(raw, img, ptrs, live, x, off);
    RunStep(raw, img, ptrs, live, x + y, off);
    if x == [] {
      assert x + y == y;
      if y != [] {
        FreshCall(live, off);
        RunLive(raw, img, ptrs, live, live', y, off);
      } else {
        RunStep(raw, img, ptrs, live', y, off);
      }
    } else if y == [] {
      assert x + y == x;
      var w := Run(raw, img, ptrs, live, x, off);
      RunStep(raw, w.img, w.ptrs, live', y, off + |x|);
    } else if ChunkLen(off, |x|) == ChunkLen(off, |x + y|) {
      var n := ChunkLen(off, |x|);
      assert (x + y)[..n] == x[..n] && (x + y)[n..] == x[n..] + y;
      var w := PutChunk(raw, img, ptrs, live, x[..n], off);
      PutSize(raw, img, ptrs, live, x[..n], off);
      NextAligned(live, off, |x + y|);
      RunSplit(raw, w.img, w.ptrs, live, live', x[n..], y, off + n);
    } else {
      SplitInBlock(raw, img, ptrs, live, live', x, y, off);
    }
  }

  lemma PutSize(raw: Block -> Page, img: Image, ptrs: Pointers, live: nat, chunk: seq<Byte>, off: nat)
    requires off < MAX_FILE && Within(off) + |chunk| <= BLOCK_SIZE
    requires Target(img, ptrs, live, off) < |img.blk|
    ensures |PutChunk(raw, img, ptrs, live, chunk, off).img.blk| == |img.blk|
  {
  }

  lemma FreshCall(live: nat, off: nat)
    requires Aligned(live, off)
    ensures var live' := Max(live, BlocksFor(off)); live == live' || (live <= BlockOf(off) && live' <= BlockOf(off))
  {
  }

  lemma NextAligned(live: nat, off: nat, len: nat)
    ensures ChunkLen(off, len) < len ==> Aligned(live, off + ChunkLen(off, len))
  {
    assert off == BlockOf(off) * BLOCK_SIZE + Within(off);
    if ChunkLen(off, len) < len {
      assert off + ChunkLen(off, len) == (BlockOf(off) + 1) * BLOCK_SIZE;
    }
  }

  /** The case in which x ends inside a block that y continues. */
  lemma SplitInBlock(raw: Block -> Page, img: Image, ptrs: Pointers, live: nat, live': nat, x: seq<Byte>,
      y: seq<Byte>, off: nat)
    requires |img.blk| == NUM_BLOCKS && off + |x| + |y| <= MAX_FILE && x != [] && y != [] && Aligned(live, off)
    requires live' == Max(live, BlocksFor(off + |x|))
    requires Run(raw, img, ptrs, live, x, off).ok
    requires ChunkLen(off, |x|) != ChunkLen(off, |x + y|)
    ensures var w := Run(raw, img, ptrs, live, x, off);
            Run(raw, img, ptrs, live, x + y, off) == Run(raw, w.img, w.ptrs, live', y, off + |x|)
  {
    hide Run, PutChunk, Target, FirstFree, Splice, BlocksFor, ChunkLen, BlockOf, Within;
    SplitSizes(live, off, |x|, |y|);
    RunStep(raw, img, ptrs, live, x, off);
    RunStep(raw, img, ptrs, live, x + y, off);
    var n, k := ChunkLen(off, |x + y|), ChunkLen(off + |x|, |y|);
    assert x[..|x|] == x && x[|x|..] == [];
    assert (x + y)[..n] == x + y[..k] && (x + y)[n..] == y[k..];
    var w := PutChunk(raw, img, ptrs, live, x, off);
    PutSize(raw, img, ptrs, live, x, off);
    RunStep(raw, w.img, w.ptrs, live, [], off + |x|);
    assert Run(raw, img, ptrs, live, x, off) == w by {
      assert Run(raw, img, ptrs, live, x, off) == Run(raw, w.img, w.ptrs, live, [], off + |x|);
      PutOk(raw, img, ptrs, live, x, off);
    }
    ChunkTwice(raw, img, ptrs, live, live', x, y[..k], off);
    RunStep(raw, w.img, w.ptrs, live', y, off + |x|);
    var v := PutChunk(raw, img, ptrs, live, x + y[..k], off);
    PutSize(raw, img, ptrs, live, x + y[..k], off);
    if y[k..] == [] {
      RunStep(raw, v.img, v.ptrs, live, y[k..], off + n);
      RunStep(raw, v.img, v.ptrs, live', y[k..], off + n);
    } else {
      RunLive(raw, v.img, v.ptrs, live, live', y[k..], off + n);
    }
  }

  lemma PutOk(raw: Block -> Page, img: Image, ptrs: Pointers, live: nat, chunk: seq<Byte>, off: nat)
    requires off < MAX_FILE && Within(off) + |chunk| <= BLOCK_SIZE
    requires Target(img, ptrs, live, off) < |img.blk|
    ensures var w := PutChunk(raw, img, ptrs, live, chunk, off); w == Written(w.img, w.ptrs, true)
  {
  }

  lemma SplitSizes(live: nat, off: nat, x: nat, y: nat)
    requires 0 < x && 0 < y && ChunkLen(off, x) != ChunkLen(off, x + y)
    ensures ChunkLen(off, x) == x && Within(off) + x < BLOCK_SIZE
    ensures ChunkLen(off, x + y) == x + ChunkLen(off + x, y)
    ensures Within(off) + x + ChunkLen(off + x, y) <= BLOCK_SIZE && 0 < ChunkLen(off + x, y) <= y
    ensures BlockOf(off) < Max(live, BlocksFor(off + x))
    ensures ChunkLen(off + x, y) < y ==>
              var live' := Max(live, BlocksFor(off + x));
              live == live' || (live <= BlockOf(off + ChunkLen(off, x + y))
                  && live' <= BlockOf(off + ChunkLen(off, x + y)))
  {
    assert off == BlockOf(off) * BLOCK_SIZE + Within(off);
    SameBlock(off, x);
    assert BlocksFor(off + x) == BlockOf(off) + 1;
    if ChunkLen(off + x, y) < y {
      assert off + ChunkLen(off, x + y) == (BlockOf(off) + 1) * BLOCK_SIZE;
      assert BlockOf(off + ChunkLen(off, x + y)) == BlockOf(off) + 1;
    }
  }

  // ---------- The cached inode ----------

  /** The loop never looks at the block of the inode it works for, so keeping that inode in
      memory meanwhile is sound. */
  lemma {:induction false} RunFrame(raw: Block -> Page, img: Image, ptrs: Pointers, live: nat, buf: seq<Byte>,
      off: nat, f: nat, c: Block)
    requires |img.blk| == NUM_BLOCKS && off + |buf| <= MAX_FILE && f < NUM_BLOCKS && f in img.used
    requires forall i :: 0 <= i < live && i < NUM_PTRS ==> ptrs[i] != f
    ensures var w := Run(raw, img, ptrs, live, buf, off);
            Run(raw, img.(blk := img.blk[f := c]), ptrs, live, buf, off) == w.(img := w.img.(blk := w.img.blk[f := c]))
    decreases |buf|
  {
    hide Run, ChunkLen, PutChunk, Target;
    var img' := img.(blk := img.blk[f := c]);
    RunStep(raw, img, ptrs, live, buf, off);
    RunStep(raw, img', ptrs, live, buf, off);
    if buf != [] {
      ChunkFrame(raw, img, ptrs, live, buf[..ChunkLen(off, |buf|)], off, f, c);
      if Target(img, ptrs, live, off) < NUM_BLOCKS {
        var n := ChunkLen(off, |buf|);
        var w := PutChunk(raw, img, ptrs, live, buf[..n], off);
        RunFrame(raw, w.img, w.ptrs, live, buf[n..], off + n, f, c);
      }
    }
  }

  lemma ChunkFrame(raw: Block -> Page, img: Image, ptrs: Pointers, live: nat, chunk: seq<Byte>, off: nat, f: nat,
      c: Block)
    requires |img.blk| == NUM_BLOCKS && off < MAX_FILE && Within(off) + |chunk| <= BLOCK_SIZE && f < NUM_BLOCKS
             && f in img.used
    requires forall i :: 0 <= i < live && i < NUM_PTRS ==> ptrs[i] != f
    ensures var img' := img.(blk := img.blk[f := c]);
            && Target(img', ptrs, live, off) == Target(img, ptrs, live, off)
            && (Target(img, ptrs, live, off) < NUM_BLOCKS ==>
                  var w := PutChunk(raw, img, ptrs, live, chunk, off);
                  && |w.img.blk| == NUM_BLOCKS && f in w.img.used
                  && (forall i :: 0 <= i < live && i < NUM_PTRS ==> w.ptrs[i] != f)
                  && PutChunk(raw, img', ptrs, live, chunk, off) == w.(img := w.img.(blk := w.img.blk[f := c])))
  {
    var img' := img.(blk := img.blk[f := c]);
    var b := Target(img, ptrs, live, off);
    if b < NUM_BLOCKS {
      if BlockOf(off) >= live {
        FirstFreeFresh(img.used);
      }
      var page := Splice(BytesOf(raw, img.blk[b]), Within(off), chunk);
      assert img.blk[f := c][b := Data(page)] == img.blk[b := Data(page)][f := c];
    }
  }

  // ---------- Two writes and one ----------

  lemma SplitFile(raw: Block -> Page, img: Image, own: Owners, f: nat, x: seq<Byte>, y: seq<Byte>, off: nat, now: nat)
    requires WellFormed(img, own) && IsNode(own, f) && IsInode(img, f) && !IsDir(NodeOf(img, f).attr.mode)
             && |img.blk| == NUM_BLOCKS
    requires off <= NodeOf(img, f).size && off + |x| + |y| <= MAX_FILE
    requires Run(raw, img, NodeOf(img, f).ptrs, Live(img, f), x, off).ok
    ensures var n := NodeOf(img, f);
            var w := Run(raw, img, n.ptrs, Live(img, f), x, off);
            var m := Grown(n, w.ptrs, off + |x|, now);
            && f < |w.img.blk|
            && var img1 := w.img.(blk := w.img.blk[f := INode(m)]);
               var v := Run(raw, img, n.ptrs, Live(img, f), x + y, off);
               Run(raw, img1, m.ptrs, BlocksFor(m.size), y, off + |x|) ==
                   v.(img := v.img.(blk := v.img.blk[f := INode(m)]))
  {
    hide WellFormed, Midway, Running, Run;
    var n := NodeOf(img, f);
    var w := Run(raw, img, n.ptrs, Live(img, f), x, off);
    var m := Grown(n, w.ptrs, off + |x|, now);
    InRange(img, own, f);
    StartRunning(img, own, f, off, |x|);
    StartRunning(img, own, f, off, |x + y|);
    RunAligned(img, own, f, off, |x + y|);
    BlockRange(0, Max(n.size, off + |x|) + 1, n.size, off, |x| + 1);
    assert BlocksFor(m.size) == Max(Live(img, f), BlocksFor(off + |x|));
    RunSplit(raw, img, n.ptrs, Live(img, f), BlocksFor(m.size), x, y, off);
    var cur := RunKeeps(raw, img, own, f, img, n.ptrs, x, off);
    forall i | 0 <= i < BlocksFor(m.size) && i < NUM_PTRS ensures w.ptrs[i] != f {
      LiveBlock(img, own, f, w.img, w.ptrs, cur, i);
    }
    UsedKept(img, own, f, w.img, w.ptrs, cur);
    RunFrame(raw, w.img, w.ptrs, BlocksFor(m.size), y, off + |x|, f, INode(m));
  }

  lemma RunAligned(img: Image, own: Owners, f: nat, off: nat, len: nat)
    requires IsInode(img, f) && Running(img, own, f, img, NodeOf(img, f).ptrs, off, len)
    ensures len > 0 ==> Aligned(Live(img, f), off)
  {
  }

  lemma UsedKept(img: Image, own: Owners, f: nat, img1: Image, ptrs: Pointers, cur: nat)
    requires WellFormed(img, own) && Midway(img, own, f, img1, ptrs, cur)
    ensures f in img1.used && |img1.blk| == NUM_BLOCKS
  {
  }

  /** A call that may write `len` bytes at offset off of file p, as far as size and space go. */
  ghost predicate Fits(img: Image, p: Path, off: nat, len: nat) {
    && p in Abs(img) && Abs(img)[p].File? && off <= |Abs(img)[p].data| && off + len <= MAX_FILE
    && NewBlocks(|Abs(img)[p].data|, off + len) <= |FreeBlocks(img.used)|
  }

  /** What a successful call leaves, in terms of one run of the loop. */
  lemma WriteImage(raw: Block -> Page, img: Image, own: Owners, p: Path, buf: seq<Byte>, off: nat, now: nat)
    requires WellFormed(img, own) && |img.blk| == NUM_BLOCKS && Fits(img, p, off, |buf|)
    ensures Walk(img, p).Some?
    ensures var f := Walk(img, p).value;
            && IsNode(own, f) && IsInode(img, f) && !IsDir(NodeOf(img, f).attr.mode)
               && |Abs(img)[p].data| == NodeOf(img, f).size
            && off <= NodeOf(img, f).size && off + |buf| <= MAX_FILE
            && var w := Run(raw, img, NodeOf(img, f).ptrs, Live(img, f), buf, off);
               && w.ok && f < |w.img.blk|
               && var m := Grown(NodeOf(img, f), w.ptrs, off + |buf|, now);
                  Write(raw, img, p, buf, off, now) == (w.img.(blk := w.img.blk[f := INode(m)]), Ret(|buf|))
  {
    AbsWalk(img, own, p);
    WriteFile(raw, img, own, Walk(img, p).value, buf, off, now);
  }

  /** After a successful write the path still leads to the same inode, now grown. */
  lemma WriteStays(raw: Block -> Page, img: Image, own: Owners, p: Path, buf: seq<Byte>, off: nat, now: nat)
    requires WellFormed(img, own) && |img.blk| == NUM_BLOCKS && Fits(img, p, off, |buf|)
    ensures var img' := Write(raw, img, p, buf, off, now).0;
            var own' := WriteOwners(raw, img, own, p, buf, off);
            && WellFormed(img', own') && |img'.blk| == NUM_BLOCKS
            && Walk(img', p) == Walk(img, p)
            && Abs(img') == Abs(img)[p := File(Abs(img)[p].attr.(mtime := now), Overlay(Abs(img)[p].data, off, buf))]
            && |FreeBlocks(img'.used)| == |FreeBlocks(img.used)| - NewBlocks(|Abs(img)[p].data|, off + |buf|)
  {
    AbsWalk(img, own, p);
    WriteWorks(raw, img, own, p, buf, off, now);
    var f := Walk(img, p).value;
    var n := NodeOf(img, f);
    WriteFile(raw, img, own, f, buf, off, now);
    var w := Run(raw, img, n.ptrs, Live(img, f), buf, off);
    var m := Grown(n, w.ptrs, off + |buf|, now);
    RewrittenWalk(img, Write(raw, img, p, buf, off, now).0, own, GrownOwners(img, own, f, w.ptrs, BlocksFor(m.size)),
        f, m, p);
  }

  /** What is left to write still fits after its first part has been written. */
  lemma RestFits(raw: Block -> Page, img: Image, own: Owners, p: Path, x: seq<Byte>, len: nat, off: nat, now: nat)
    requires WellFormed(img, own) && |img.blk| == NUM_BLOCKS && Fits(img, p, off, |x| + len)
    ensures Fits(img, p, off, |x|)
    ensures Fits(Write(raw, img, p, x, off, now).0, p, off + |x|, len)
  {
    hide WellFormed, Write, FreeBlocks, WriteOwners, Abs;
    var size := |Abs(img)[p].data|;
    BlocksForLeast(Max(size, off + |x|), BlocksFor(Max(size, off + |x| + len)));
    BlocksForLeast(Max(size, off + |x| + len), BlocksFor(Max(size, off + |x| + len)));
    assert Fits(img, p, off, |x|);
    WriteStays(raw, img, own, p, x, off, now);
  }

  /** Writing x and then y right behind it leaves exactly the disk that writing x + y leaves:
      inode, pointers, allocation order and slack bytes included. */
  lemma WriteSplit(raw: Block -> Page, img: Image, own: Owners, p: Path, x: seq<Byte>, y: seq<Byte>, off: nat,
      now: nat, now': nat)
    requires WellFormed(img, own) && |img.blk| == NUM_BLOCKS && Fits(img, p, off, |x| + |y|)
    ensures var img1 := Write(raw, img, p, x, off, now).0;
            && |img1.blk| == NUM_BLOCKS
            && Write(raw, img1, p, y, off + |x|, now').0 == Write(raw, img, p, x + y, off, now').0
            && Write(raw, img1, p, y, off + |x|, now').1 == Ret(|y|)
            && Write(raw, img, p, x + y, off, now').1 == Ret(|x| + |y|)
  {
    hide WellFormed, Run, Write, FreeBlocks, WriteOwners, Abs, NewBlocks, BlocksFor, Overlay, Grown, Fits, Walk,
        IsDir, IsNode;
    RestFits(raw, img, own, p, x, |y|, off, now);
    WriteStays(raw, img, own, p, x, off, now);
    var img1 := Write(raw, img, p, x, off, now).0;
    var own1 := WriteOwners(raw, img, own, p, x, off);
    assert |x + y| == |x| + |y|;
    WriteImage(raw, img, own, p, x, off, now);
    WriteImage(raw, img, own, p, x + y, off, now');
    WriteImage(raw, img1, own1, p, y, off + |x|, now');
    var f := Walk(img, p).value;
    var n := NodeOf(img, f);
    SplitFile(raw, img, own, f, x, y, off, now);
    var m := Grown(n, Run(raw, img, n.ptrs, Live(img, f), x, off).ptrs, off + |x|, now);
    assert NodeOf(img1, f) == m;
    var v := Run(raw, img, n.ptrs, Live(img, f), x + y, off);
    StoreTwice(v.img, f, n, Run(raw, img, n.ptrs, Live(img, f), x, off).ptrs, v.ptrs, off + |x|, off + |x| + |y|, now,
        now');
  }

  /** The inode stored last replaces the one stored before, and is the one a single call stores. */
  lemma StoreTwice(img: Image, f: nat, n: Inode, ptrs: Pointers, ptrs': Pointers, mid: nat, end: nat, now: nat,
      now': nat)
    requires f < |img.blk| && mid <= end
    ensures var m, m' := Grown(n, ptrs, mid, now), Grown(n, ptrs', end, now');
            && Grown(m, ptrs', end, now') == m'
            && img.blk[f := INode(m)][f := INode(m')] == img.blk[f := INode(m')]
  {
  }

  // ---------- Any chunk size ----------

  /** Write data in successive calls of at most c bytes each; the call at offset o sees the clock
      at clock(o). */
  ghost function WriteChunks(raw: Block -> Page, img: Image, p: Path, data: seq<Byte>, off: nat, c: nat,
      clock: nat -> nat): Image
    requires |img.blk| == NUM_BLOCKS && c > 0
    decreases |data|
  {
    if data == [] then img
    else
      var n := Min(c, |data|);
      var img1 := Write(raw, img, p, data[..n], off, clock(off)).0;
      if |img1.blk| != NUM_BLOCKS then img1 else WriteChunks(raw, img1, p, data[n..], off + n, c, clock)
  }

  /** The offset of the last call WriteChunks makes. */
  function LastCall(off: nat, len: nat, c: nat): nat
    requires c > 0
    decreases len
  {
    if len <= c then off else LastCall(off + c, len - c, c)
  }

  /** For every chunk size, writing in chunks leaves the same disk as one write of the whole made
      at the time of the last chunk. */
  lemma {:induction false} ChunkedWrite(raw: Block -> Page, img: Image, own: Owners, p: Path, data: seq<Byte>,
      off: nat, c: nat, clock: nat -> nat)
    requires WellFormed(img, own) && |img.blk| == NUM_BLOCKS && c > 0 && data != [] && Fits(img, p, off, |data|)
    ensures WriteChunks(raw, img, p, data, off, c, clock) ==
              Write(raw, img, p, data, off, clock(LastCall(off, |data|, c))).0
    decreases |data|
  {
    hide WellFormed, Write, FreeBlocks, WriteOwners, Abs, Fits;
    var n := Min(c, |data|);
    var img1 := Write(raw, img, p, data[..n], off, clock(off)).0;
    assert data == data[..n] + data[n..];
    RestFits(raw, img, own, p, data[..n], |data[n..]|, off, clock(off));
    WriteStays(raw, img, own, p, data[..n], off, clock(off));
    if n == |data| {
      assert data[..n] == data && data[n..] == [];
      assert WriteChunks(raw, img1, p, data[n..], off + n, c, clock) == img1;
    } else {
      ChunkedWrite(raw, img1, WriteOwners(raw, img, own, p, data[..n], off), p, data[n..], off + n, c, clock);
      WriteSplit(raw, img, own, p, data[..n], data[n..], off, clock(off), clock(LastCall(off, |data|, c)));
    }
  }
}
