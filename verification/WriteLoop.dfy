/** The block-by-block loop of fs_write as a function, and what one run of it does to blocks,
    pointers and bytes. */
module WriteLoop {
  import opened Layout
  import opened Volume
  import opened Lookup
  import opened Operations
  import opened Rewriting

  // ---------- The loop ----------

  /** The index of the block that holds offset off, and the position inside it. */
  function BlockOf(off: nat): nat { off / BLOCK_SIZE }
  function Within(off: nat): nat { off % BLOCK_SIZE }

  function Min(a: nat, b: nat): nat { if a < b then a else b }
  function Max(a: nat, b: nat): nat { if a < b then b else a }

  function Splice(page: Page, at: nat, bytes: seq<Byte>): Page
    requires at + |bytes| <= BLOCK_SIZE
  {
    page[..at] + bytes + page[at + |bytes|..]
  }

  /** How many of `left` bytes go into the block that holds offset off. */
  function ChunkLen(off: nat, left: nat): nat {
    Min(BLOCK_SIZE - Within(off), left)
  }

  /** The image, the cached pointers, and whether every allocation succeeded. */
  datatype Written = Written(img: Image, ptrs: Pointers, ok: bool)

  /** The block that offset off goes to: a live pointer's, or a newly allocated one. */
  ghost function Target(img: Image, ptrs: Pointers, live: nat, off: nat): nat
    requires off < MAX_FILE
  {
    if BlockOf(off) < live then ptrs[BlockOf(off)] else FirstFree(img.used)
  }

  /** One round: allocate if needed, read the block, overwrite part of it, write it back. */
  ghost function PutChunk(raw: Block -> Page, img: Image, ptrs: Pointers, live: nat, chunk: seq<Byte>,
      off: nat): Written
    requires off < MAX_FILE && Within(off) + |chunk| <= BLOCK_SIZE
    requires Target(img, ptrs, live, off) < |img.blk|
  {
    var b := Target(img, ptrs, live, off);
    var used := if BlockOf(off) < live then img.used else img.used + {b};
    var page := Splice(BytesOf(raw, img.blk[b]), Within(off), chunk);
    Written(Image(used, img.blk[b := Data(page)]), ptrs[BlockOf(off) := b], true)
  }

  /** The loop of fs_write from offset off on; `live` is the number of pointers the file had. */
  ghost function Run(raw: Block -> Page, img: Image, ptrs: Pointers, live: nat, buf: seq<Byte>, off: nat): (w: Written)
    requires |img.blk| == NUM_BLOCKS && off + |buf| <= MAX_FILE
    ensures |w.img.blk| == NUM_BLOCKS
    decreases |buf|
  {
    if buf == [] then Written(img, ptrs, true)
    else if Target(img, ptrs, live, off) >= NUM_BLOCKS then Written(img, ptrs, false)
    else
      var n := ChunkLen(off, |buf|);
      var w := PutChunk(raw, img, ptrs, live, buf[..n], off);
      Run(raw, w.img, w.ptrs, live, buf[n..], off + n)
  }

  lemma RunStep(raw: Block -> Page, img: Image, ptrs: Pointers, live: nat, buf: seq<Byte>, off: nat)
    requires |img.blk| == NUM_BLOCKS && off + |buf| <= MAX_FILE
    ensures buf == [] ==> Run(raw, img, ptrs, live, buf, off) == Written(img, ptrs, true)
    ensures buf != [] ==>
              var n := ChunkLen(off, |buf|);
              && 0 < n <= |buf| && Within(off) + n <= BLOCK_SIZE
              && Run(raw, img, ptrs, live, buf, off) ==
                   if Target(img, ptrs, live, off) >= NUM_BLOCKS then Written(img, ptrs, false)
                   else
                     var w := PutChunk(raw, img, ptrs, live, buf[..n], off);
                     Run(raw, w.img, w.ptrs, live, buf[n..], off + n)
  {
  }

  // ---------- What holds in the middle of the loop ----------

  /** Offsets the loop can be at: inside the live blocks, or at the start of a new one. */
  predicate Aligned(live: nat, off: nat) {
    off <= live * BLOCK_SIZE || Within(off) == 0
  }

  /** The first cur pointers are in place: those below live are the file's own, the others name
      distinct blocks that were free when the loop began; nothing else has changed. */
  ghost predicate Midway(img0: Image, own: Owners, f: nat, img: Image, ptrs: Pointers, cur: nat) {
    && IsNode(own, f) && IsInode(img0, f) && !IsDir(NodeOf(img0, f).attr.mode)
    && var live := BlocksFor(NodeOf(img0, f).size);
    && live <= cur <= NUM_PTRS
    && |img.blk| == |img0.blk| == NUM_BLOCKS && img0.used <= img.used
    && (forall i :: 0 <= i < live ==> ptrs[i] == NodeOf(img0, f).ptrs[i])
    && (forall i :: live <= i < cur ==>
          ptrs[i] in img.used && ptrs[i] !in img0.used && FIRST_DATA <= ptrs[i] < NUM_BLOCKS && img.blk[ptrs[i]].Data?)
    && (forall i, j :: live <= i < j < cur ==> ptrs[i] != ptrs[j])
    && (forall b: nat :: b in img.used ==> b < NUM_BLOCKS)
    && (forall b: nat :: b in img.used && b !in img0.used ==> exists i :: live <= i < cur && ptrs[i] == b)
    && (forall b: nat :: b in own && b < NUM_BLOCKS ==>
          if Other(own, f, b) then img.blk[b] == img0.blk[b] else img.blk[b].Data?)
  }

  /** Any two of the first cur pointers differ. */
  lemma Distinct(img0: Image, own: Owners, f: nat, img: Image, ptrs: Pointers, cur: nat, i: nat, j: nat)
    requires WellFormed(img0, own) && Midway(img0, own, f, img, ptrs, cur)
    requires i < cur && j < cur && i != j
    ensures ptrs[i] != ptrs[j]
  {
    DirTable(img0, own, f);
  }

  /** One of the first cur pointers names a data block in range. */
  lemma LiveBlock(img0: Image, own: Owners, f: nat, img: Image, ptrs: Pointers, cur: nat, i: nat)
    requires WellFormed(img0, own) && Midway(img0, own, f, img, ptrs, cur) && i < cur
    ensures ROOT <= ptrs[i] < NUM_BLOCKS && img.blk[ptrs[i]].Data? && ptrs[i] in img.used
    ensures !Other(own, f, ptrs[i])
  {
    DirTable(img0, own, f);
    if i < BlocksFor(NodeOf(img0, f).size) {
      assert GoodBlock(img0, own, ptrs[i]);
    }
  }

  /** The loop may run its next round for `chunk` bytes at offset off. */
  ghost predicate Ready(img0: Image, own: Owners, f: nat, img: Image, ptrs: Pointers, off: nat, len: nat) {
    && WellFormed(img0, own) && IsInode(img0, f)
    && var live := BlocksFor(NodeOf(img0, f).size);
       && off < MAX_FILE && Within(off) + len <= BLOCK_SIZE && Aligned(live, off)
       && Midway(img0, own, f, img, ptrs, Max(live, BlocksFor(off)))
       && Target(img, ptrs, live, off) < NUM_BLOCKS
  }

  /** A round rewrites a live block, or allocates the next one in order, and then for a pointer the
      inode has; the block is nobody else's and not that of another pointer. */
  lemma TargetApart(img0: Image, own: Owners, f: nat, img: Image, ptrs: Pointers, off: nat, len: nat)
    requires Ready(img0, own, f, img, ptrs, off, len)
    ensures var live := BlocksFor(NodeOf(img0, f).size);
            var cur, bn, b := Max(live, BlocksFor(off)), BlockOf(off), Target(img, ptrs, live, off);
            && bn < NUM_PTRS && ROOT <= b < NUM_BLOCKS && !Other(own, f, b) && b != f
            && (if bn < live then b in img.used && img.blk[b].Data?
                else bn == cur && IsLeast(b, FreeBlocks(img.used)) && b !in own)
            && (forall i :: 0 <= i < cur && i != bn ==> ptrs[i] != b)
  {
    var live := BlocksFor(NodeOf(img0, f).size);
    var cur, bn := Max(live, BlocksFor(off)), BlockOf(off);
    if bn < live {
      LiveBlock(img0, own, f, img, ptrs, cur, bn);
      forall i | 0 <= i < cur && i != bn ensures ptrs[i] != ptrs[bn] {
        Distinct(img0, own, f, img, ptrs, cur, i, bn);
      }
    } else {
      FirstFreeFresh(img.used);
      forall i | 0 <= i < cur ensures ptrs[i] in img.used {
        LiveBlock(img0, own, f, img, ptrs, cur, i);
      }
    }
  }

  lemma OverwriteKeeps(img0: Image, own: Owners, f: nat, img: Image, ptrs: Pointers, cur: nat, b: nat, page: Page)
    requires Midway(img0, own, f, img, ptrs, cur) && b < NUM_BLOCKS && !Other(own, f, b)
    ensures Midway(img0, own, f, img.(blk := img.blk[b := Data(page)]), ptrs, cur)
  {
  }

  lemma AppendKeeps(img0: Image, own: Owners, f: nat, img: Image, ptrs: Pointers, cur: nat, b: nat, page: Page)
    requires Midway(img0, own, f, img, ptrs, cur) && cur < NUM_PTRS
    requires FIRST_DATA <= b < NUM_BLOCKS && b !in img.used && b !in own
    ensures Midway(img0, own, f, Image(img.used + {b}, img.blk[b := Data(page)]), ptrs[cur := b], cur + 1)
  {
    var live := BlocksFor(NodeOf(img0, f).size);
    var ptrs' := ptrs[cur := b];
    forall x: nat | x in img.used + {b} && x !in img0.used ensures exists i :: live <= i < cur + 1 && ptrs'[i] == x {
      if x == b {
        assert ptrs'[cur] == b;
      } else {
        var i :| live <= i < cur && ptrs[i] == x;
        assert ptrs'[i] == x;
      }
    }
  }

  lemma PutChunkKeeps(raw: Block -> Page, img0: Image, own: Owners, f: nat, img: Image, ptrs: Pointers,
      chunk: seq<Byte>, off: nat)
    requires Ready(img0, own, f, img, ptrs, off, |chunk|)
    ensures var live := BlocksFor(NodeOf(img0, f).size);
            var w := PutChunk(raw, img, ptrs, live, chunk, off);
            Midway(img0, own, f, w.img, w.ptrs, Max(live, BlockOf(off) + 1))
  {
    var live := BlocksFor(NodeOf(img0, f).size);
    var cur, bn := Max(live, BlocksFor(off)), BlockOf(off);
    var b := Target(img, ptrs, live, off);
    TargetApart(img0, own, f, img, ptrs, off, |chunk|);
    var page := Splice(BytesOf(raw, img.blk[b]), Within(off), chunk);
    hide Midway;
    if bn < live {
      OverwriteKeeps(img0, own, f, img, ptrs, cur, b, page);
      assert ptrs[bn := b] == ptrs;
    } else {
      AppendKeeps(img0, own, f, img, ptrs, cur, b, page);
    }
  }

  /** One round changes exactly the bytes of its chunk. */
  lemma PutChunkBytes(raw: Block -> Page, img0: Image, own: Owners, f: nat, img: Image, ptrs: Pointers,
      chunk: seq<Byte>, off: nat, i: nat)
    requires Ready(img0, own, f, img, ptrs, off, |chunk|)
    requires BlockOf(i) < Max(BlocksFor(NodeOf(img0, f).size), BlocksFor(off)) || off <= i < off + |chunk|
    ensures var live := BlocksFor(NodeOf(img0, f).size);
            var w := PutChunk(raw, img, ptrs, live, chunk, off);
            ByteAt(w.img, w.ptrs, i) == if off <= i < off + |chunk| then chunk[i - off] else ByteAt(img, ptrs, i)
  {
    TargetApart(img0, own, f, img, ptrs, off, |chunk|);
    var bn := BlockOf(off);
    assert i == (BlockOf(i)) * BLOCK_SIZE + Within(i) && off == bn * BLOCK_SIZE + Within(off);
    hide WellFormed, Midway, FirstFree;
  }

  // ---------- The whole loop ----------

  /** The loop may start, or go on, with `len` bytes left at offset off. */
  ghost predicate Running(img0: Image, own: Owners, f: nat, img: Image, ptrs: Pointers, off: nat, len: nat) {
    && WellFormed(img0, own) && IsInode(img0, f) && off + len <= MAX_FILE
    && var live := BlocksFor(NodeOf(img0, f).size);
       && (len > 0 ==> Aligned(live, off)) && Midway(img0, own, f, img, ptrs, Max(live, BlocksFor(off)))
  }

  function Live(img0: Image, f: nat): nat
    requires IsInode(img0, f)
  {
    BlocksFor(NodeOf(img0, f).size)
  }

  /** What the loop's invariant says at once, before any further round. */
  lemma RunningNow(img0: Image, own: Owners, f: nat, img: Image, ptrs: Pointers, off: nat, len: nat)
    requires Running(img0, own, f, img, ptrs, off, len)
    ensures |img.blk| == NUM_BLOCKS && off + len <= MAX_FILE && IsInode(img0, f)
    ensures Midway(img0, own, f, img, ptrs, Max(Live(img0, f), BlocksFor(off)))
  {
  }

  /** Where a round ends: at the end of the data or at the end of the block. */
  lemma RoundEnd(live: nat, off: nat, len: nat)
    requires 0 < len
    ensures var n := ChunkLen(off, len);
            && 0 < n <= len && Within(off) + n <= BLOCK_SIZE
            && BlocksFor(off + n) == BlockOf(off) + 1
            && (n < len ==> Aligned(live, off + n))
  {
    assert off == BlockOf(off) * BLOCK_SIZE + Within(off);
  }

  /** After a round the loop is at the next offset, in the state the invariant describes. */
  lemma RoundRuns(raw: Block -> Page, img0: Image, own: Owners, f: nat, img: Image, ptrs: Pointers, off: nat,
      len: nat, chunk: seq<Byte>)
    requires Running(img0, own, f, img, ptrs, off, len) && 0 < len && |chunk| == ChunkLen(off, len)
    requires Target(img, ptrs, Live(img0, f), off) < NUM_BLOCKS
    ensures |img.blk| == NUM_BLOCKS && Ready(img0, own, f, img, ptrs, off, |chunk|)
    ensures var w := PutChunk(raw, img, ptrs, Live(img0, f), chunk, off);
            |w.img.blk| == NUM_BLOCKS && Running(img0, own, f, w.img, w.ptrs, off + |chunk|, len - |chunk|)
    ensures BlocksFor(off + |chunk|) == BlockOf(off) + 1
  {
    hide WellFormed, Midway, PutChunk, Target, BlocksFor, BlockOf, Within, ChunkLen, Aligned;
    RoundEnd(Live(img0, f), off, len);
    RunningNow(img0, own, f, img, ptrs, off, len);
    PutChunkKeeps(raw, img0, own, f, img, ptrs, chunk, off);
    MidwaySize(img0, own, f, PutChunk(raw, img, ptrs, Live(img0, f), chunk, off).img,
        PutChunk(raw, img, ptrs, Live(img0, f), chunk, off).ptrs,
               Max(Live(img0, f), BlockOf(off) + 1));
  }

  lemma MidwaySize(img0: Image, own: Owners, f: nat, img: Image, ptrs: Pointers, cur: nat)
    requires Midway(img0, own, f, img, ptrs, cur)
    ensures |img.blk| == NUM_BLOCKS
  {
  }

  /** A round finds no block only when it needs a new one and none is free. */
  lemma RoundStuck(img0: Image, own: Owners, f: nat, img: Image, ptrs: Pointers, off: nat, len: nat)
    requires Running(img0, own, f, img, ptrs, off, len) && 0 < len
    requires Target(img, ptrs, Live(img0, f), off) >= NUM_BLOCKS
    ensures Live(img0, f) <= BlockOf(off) && FreeBlocks(img.used) == {}
  {
    if BlockOf(off) < Live(img0, f) {
      LiveBlock(img0, own, f, img, ptrs, Max(Live(img0, f), BlocksFor(off)), BlockOf(off));
    }
  }

  /** Whether or not it runs out of space, the loop only fills blocks the file owns or that were
      free, and leaves `cur` pointers in place. */
  lemma {:induction false} RunKeeps(raw: Block -> Page, img0: Image, own: Owners, f: nat, img: Image, ptrs: Pointers,
      buf: seq<Byte>, off: nat)
      returns (cur: nat)
    requires |img.blk| == NUM_BLOCKS && off + |buf| <= MAX_FILE && IsInode(img0, f)
    requires Running(img0, own, f, img, ptrs, off, |buf|)
    ensures var w := Run(raw, img, ptrs, Live(img0, f), buf, off);
            && Midway(img0, own, f, w.img, w.ptrs, cur)
            && (w.ok ==> cur == Max(Live(img0, f), BlocksFor(off + |buf|)))
    decreases |buf|
  {
    hide Midway, WellFormed, PutChunk, Target, Running, Ready, Run, Live, BlocksFor, ChunkLen, Max, BlockOf, Within;
    cur := Max(Live(img0, f), BlocksFor(off));
    RunningNow(img0, own, f, img, ptrs, off, |buf|);
    RunStep(raw, img, ptrs, Live(img0, f), buf, off);
    if buf == [] {
      assert off + |buf| == off;
    } else if Target(img, ptrs, Live(img0, f), off) < NUM_BLOCKS {
      var n := ChunkLen(off, |buf|);
      var w := PutChunk(raw, img, ptrs, Live(img0, f), buf[..n], off);
      RoundRuns(raw, img0, own, f, img, ptrs, off, |buf|, buf[..n]);
      cur := RunKeeps(raw, img0, own, f, w.img, w.ptrs, buf[n..], off + n);
      assert off + n + |buf[n..]| == off + |buf|;
    }
  }

  /** The bytes after the loop: the buffer where it was written, the old bytes elsewhere. A loop
      that ran out of space has still written the part that falls into the live blocks. */
  lemma {:induction false} RunBytes(raw: Block -> Page, img0: Image, own: Owners, f: nat, img: Image, ptrs: Pointers,
      buf: seq<Byte>, off: nat, i: nat)
    requires |img.blk| == NUM_BLOCKS && off + |buf| <= MAX_FILE && IsInode(img0, f)
    requires Running(img0, own, f, img, ptrs, off, |buf|)
    requires BlockOf(i) < Live(img0, f) ||
             (Run(raw, img, ptrs, Live(img0, f), buf, off).ok &&
              (BlockOf(i) < BlocksFor(off) || off <= i < off + |buf|))
    ensures var w := Run(raw, img, ptrs, Live(img0, f), buf, off);
            ByteAt(w.img, w.ptrs, i) == if off <= i < off + |buf| then buf[i - off] else ByteAt(img, ptrs, i)
    decreases |buf|
  {
    hide Midway, WellFormed, PutChunk, Target, ByteAt, Running, Ready, Run, Live, BlocksFor, ChunkLen, BlockOf, Within;
    RunStep(raw, img, ptrs, Live(img0, f), buf, off);
    if buf != [] {
      if Target(img, ptrs, Live(img0, f), off) < NUM_BLOCKS {
        var n := ChunkLen(off, |buf|);
        var w := PutChunk(raw, img, ptrs, Live(img0, f), buf[..n], off);
        RoundRuns(raw, img0, own, f, img, ptrs, off, |buf|, buf[..n]);
        RoundBytes(raw, img0, own, f, img, ptrs, off, |buf|, buf[..n], i);
        RunBytes(raw, img0, own, f, w.img, w.ptrs, buf[n..], off + n, i);
      } else {
        RoundStuck(img0, own, f, img, ptrs, off, |buf|);
        BlockOrder(i, off);
      }
    }
  }

  lemma BlockOrder(i: nat, j: nat)
    ensures BlockOf(i) < BlockOf(j) ==> i < j
    ensures BlockOf(i) < BlocksFor(j) <==> i < BlocksFor(j) * BLOCK_SIZE
  {
  }

  lemma RoundBytes(raw: Block -> Page, img0: Image, own: Owners, f: nat, img: Image, ptrs: Pointers, off: nat,
      len: nat, chunk: seq<Byte>, i: nat)
    requires Running(img0, own, f, img, ptrs, off, len) && 0 < len && |chunk| == ChunkLen(off, len)
    requires Target(img, ptrs, Live(img0, f), off) < NUM_BLOCKS
    ensures |img.blk| == NUM_BLOCKS
    ensures var w := PutChunk(raw, img, ptrs, Live(img0, f), chunk, off);
            BlockOf(i) < Max(Live(img0, f), BlocksFor(off)) || off <= i < off + |chunk| ==>
              ByteAt(w.img, w.ptrs, i) == if off <= i < off + |chunk| then chunk[i - off] else ByteAt(img, ptrs, i)
    ensures BlockOf(i) < Live(img0, f) || BlockOf(i) < BlocksFor(off) ==>
            BlockOf(i) < Max(Live(img0, f), BlocksFor(off))
    ensures BlockOf(i) < BlocksFor(off) ==> BlockOf(i) < BlocksFor(off + |chunk|)
    ensures off <= i < off + |chunk| ==> BlockOf(i) < BlocksFor(off + |chunk|)
    ensures |chunk| == len || off + |chunk| <= i || BlockOf(i) < BlocksFor(off + |chunk|)
  {
    RoundRuns(raw, img0, own, f, img, ptrs, off, len, chunk);
    if BlockOf(i) < Max(Live(img0, f), BlocksFor(off)) || off <= i < off + |chunk| {
      PutChunkBytes(raw, img0, own, f, img, ptrs, chunk, off, i);
    }
    hide PutChunk, Running, Ready, Midway, WellFormed, Target;
  }

  /** The loop succeeds exactly when the new blocks it needs are free, and takes exactly those. */
  lemma {:induction false} RunSpace(raw: Block -> Page, img0: Image, own: Owners, f: nat, img: Image, ptrs: Pointers,
      buf: seq<Byte>, off: nat)
    requires |img.blk| == NUM_BLOCKS && off + |buf| <= MAX_FILE && IsInode(img0, f)
    requires Running(img0, own, f, img, ptrs, off, |buf|)
    ensures var need := Max(Live(img0, f), BlocksFor(off + |buf|)) - Max(Live(img0, f), BlocksFor(off));
            var w := Run(raw, img, ptrs, Live(img0, f), buf, off);
            && (w.ok <==> need <= |FreeBlocks(img.used)|)
            && |FreeBlocks(w.img.used)| == if w.ok then |FreeBlocks(img.used)| - need else 0
    decreases |buf|
  {
    hide Midway, WellFormed, PutChunk, Target, FreeBlocks, Running, Ready, Run, FirstFree, Live, BlocksFor, ChunkLen,
        Within, BlockOf;
    RunStep(raw, img, ptrs, Live(img0, f), buf, off);
    if buf == [] {
      assert off + |buf| == off;
    } else {
      RoundSpace(raw, img0, own, f, img, ptrs, off, buf);
      if Target(img, ptrs, Live(img0, f), off) < NUM_BLOCKS {
        var n := ChunkLen(off, |buf|);
        var w := PutChunk(raw, img, ptrs, Live(img0, f), buf[..n], off);
        RoundRuns(raw, img0, own, f, img, ptrs, off, |buf|, buf[..n]);
        RunSpace(raw, img0, own, f, w.img, w.ptrs, buf[n..], off + n);
        assert off + n + |buf[n..]| == off + |buf|;
      }
    }
  }

  /** What one round, or the failure to run one, means for the number of free blocks. */
  lemma RoundSpace(raw: Block -> Page, img0: Image, own: Owners, f: nat, img: Image, ptrs: Pointers, off: nat,
      buf: seq<Byte>)
    requires Running(img0, own, f, img, ptrs, off, |buf|) && buf != []
    ensures |img.blk| == NUM_BLOCKS && off < MAX_FILE
    ensures var n := ChunkLen(off, |buf|);
            && n <= |buf| && Within(off) + n <= BLOCK_SIZE
            && Max(Live(img0, f), BlocksFor(off + |buf|)) >= Max(Live(img0, f), BlocksFor(off + n))
            && if Target(img, ptrs, Live(img0, f), off) < NUM_BLOCKS
               then |FreeBlocks(PutChunk(raw, img, ptrs, Live(img0, f), buf[..n], off).img.used)| ==
                      |FreeBlocks(img.used)|
                      - (Max(Live(img0, f), BlocksFor(off + n)) - Max(Live(img0, f), BlocksFor(off)))
               else |FreeBlocks(img.used)| == 0 &&
                    Max(Live(img0, f), BlocksFor(off + |buf|)) > Max(Live(img0, f), BlocksFor(off))
  {
    var n := ChunkLen(off, |buf|);
    BlocksForLeast(off, BlocksFor(off + n));
    BlocksForLeast(off + n, BlocksFor(off + |buf|));
    if Target(img, ptrs, Live(img0, f), off) < NUM_BLOCKS {
      RoundRuns(raw, img0, own, f, img, ptrs, off, |buf|, buf[..n]);
      ChunkSpace(raw, img, ptrs, Live(img0, f), buf[..n], off);
      TargetApart(img0, own, f, img, ptrs, off, n);
    } else {
      RoundStuck(img0, own, f, img, ptrs, off, |buf|);
    }
  }

  lemma ChunkSpace(raw: Block -> Page, img: Image, ptrs: Pointers, live: nat, chunk: seq<Byte>, off: nat)
    requires off < MAX_FILE && Within(off) + |chunk| <= BLOCK_SIZE
    requires |img.blk| == NUM_BLOCKS && Target(img, ptrs, live, off) < NUM_BLOCKS
    ensures var w := PutChunk(raw, img, ptrs, live, chunk, off);
            |FreeBlocks(w.img.used)| ==
              if BlockOf(off) < live then |FreeBlocks(img.used)| else |FreeBlocks(img.used)| - 1
  {
    FreeBlocksMinus(img.used, FirstFree(img.used));
  }
}
