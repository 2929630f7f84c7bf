/** fs_write: exact return codes, the invariant, the resulting contents and the space taken. */
module Writing {
  import opened Layout
  import opened Volume
  import opened Lookup
  import opened TreeEdits
  import opened Operations
  import opened Creation
  import opened LookupErrors
  import opened Rewriting
  import opened WriteLoop

  ghost function Write(raw: Block -> Page, img: Image, p: Path, buf: seq<Byte>, off: nat, now: nat): (Image, Result)
    requires |img.blk| == NUM_BLOCKS
  {
    var inum := Resolve(img, p);
    if inum <= 0 || !IsInode(img, inum) then (img, PathError(inum))
    else
      var n := NodeOf(img, inum);
      if IsDir(n.attr.mode) then (img, Ret(-EISDIR))
      else if off > n.size then (img, Ret(0))
      else if off + |buf| > MAX_FILE then (img, Ret(-ENOSPC))
      else
        var w := Run(raw, img, n.ptrs, BlocksFor(n.size), buf, off);
        if !w.ok then (w.img, Aborted)
        else (w.img.(blk := w.img.blk[inum := INode(Grown(n, w.ptrs, off + |buf|, now))]), Ret(|buf|))
  }

  /** The inode fs_write stores at the end. */
  function Grown(n: Inode, ptrs: Pointers, end: nat, now: nat): Inode {
    Inode(n.attr.(mtime := now), Max(n.size, end), ptrs)
  }

  // ---------- Owners of the new blocks ----------

  /** own with pointers lo up to hi of file f added. */
  function Grow(own: Owners, f: nat, ptrs: Pointers, lo: nat, hi: nat): Owners
    decreases hi
  {
    if hi <= lo || NUM_PTRS < hi then own else Grow(own, f, ptrs, lo, hi - 1)[ptrs[hi - 1] := Extent(f, hi - 1)]
  }

  lemma {:induction false} GrowExact(own: Owners, f: nat, ptrs: Pointers, lo: nat, hi: nat)
    requires hi <= NUM_PTRS
    requires forall i, j :: lo <= i < j < hi ==> ptrs[i] != ptrs[j]
    requires forall i :: lo <= i < hi ==> ptrs[i] !in own
    ensures forall i :: lo <= i < hi ==>
              ptrs[i] in Grow(own, f, ptrs, lo, hi) && Grow(own, f, ptrs, lo, hi)[ptrs[i]] == Extent(f, i)
    ensures forall b :: b in own ==> b in Grow(own, f, ptrs, lo, hi) && Grow(own, f, ptrs, lo, hi)[b] == own[b]
    ensures forall b :: b in Grow(own, f, ptrs, lo, hi) && b !in own ==> exists i :: lo <= i < hi && ptrs[i] == b
    decreases hi
  {
    if lo < hi {
      GrowExact(own, f, ptrs, lo, hi - 1);
      forall b | b in Grow(own, f, ptrs, lo, hi) && b !in own ensures exists i :: lo <= i < hi && ptrs[i] == b {
        if b == ptrs[hi - 1] {
        } else {
          var i :| lo <= i < hi - 1 && ptrs[i] == b;
        }
      }
    }
  }

  // ---------- The disk after the loop ----------

  lemma StartRunning(img: Image, own: Owners, f: nat, off: nat, len: nat)
    requires WellFormed(img, own) && IsNode(own, f) && IsInode(img, f) && !IsDir(NodeOf(img, f).attr.mode)
    requires off <= NodeOf(img, f).size && off + len <= MAX_FILE
    ensures |img.blk| == NUM_BLOCKS && Running(img, own, f, img, NodeOf(img, f).ptrs, off, len)
  {
    DirTable(img, own, f);
    var n := NodeOf(img, f);
    BlocksForLeast(n.size, BlocksFor(n.size));
    BlocksForLeast(n.size, NUM_PTRS);
    BlocksForLeast(off, BlocksFor(n.size));
    forall b: nat | b in own && b < NUM_BLOCKS && !Other(own, f, b) ensures img.blk[b].Data? {
      assert GoodBlock(img, own, b);
    }
  }

  /** The owners after the loop: own with the blocks it allocated. */
  ghost function GrownOwners(img: Image, own: Owners, f: nat, ptrs: Pointers, cur: nat): Owners
    requires IsInode(img, f)
  {
    Grow(own, f, ptrs, BlocksFor(NodeOf(img, f).size), cur)
  }

  lemma GrownExact(img: Image, own: Owners, f: nat, img1: Image, ptrs: Pointers, cur: nat)
    requires WellFormed(img, own) && Midway(img, own, f, img1, ptrs, cur)
    ensures var own', live := GrownOwners(img, own, f, ptrs, cur), BlocksFor(NodeOf(img, f).size);
            && (forall i :: live <= i < cur ==> ptrs[i] in own' && own'[ptrs[i]] == Extent(f, i) && ptrs[i] !in own)
            && (forall b :: b in own ==> b in own' && own'[b] == own[b])
            && (forall b :: b in own' && b !in own ==> exists i :: live <= i < cur && ptrs[i] == b)
  {
    var live := BlocksFor(NodeOf(img, f).size);
    forall i | live <= i < cur ensures ptrs[i] !in own {
    }
    GrowExact(own, f, ptrs, live, cur);
  }

  lemma GrownExtents(img: Image, own: Owners, f: nat, img1: Image, ptrs: Pointers, cur: nat, b: nat)
    requires WellFormed(img, own) && Midway(img, own, f, img1, ptrs, cur)
    requires var own' := GrownOwners(img, own, f, ptrs, cur); b in own' && own'[b].Extent? && own'[b].file == f
    ensures var own' := GrownOwners(img, own, f, ptrs, cur);
            && own'[b].index < cur && ptrs[own'[b].index] == b && ROOT <= b < NUM_BLOCKS
            && img1.blk[b].Data? && b != f && b in img1.used
  {
    GrownExact(img, own, f, img1, ptrs, cur);
    if b in own {
      assert GoodBlock(img, own, b);
    }
  }

  lemma GrownInode(img: Image, own: Owners, f: nat, img1: Image, ptrs: Pointers, cur: nat, end: nat, now: nat)
    requires WellFormed(img, own) && Midway(img, own, f, img1, ptrs, cur)
    requires cur == BlocksFor(Max(NodeOf(img, f).size, end)) && end <= MAX_FILE
    ensures GoodInode(GrownOwners(img, own, f, ptrs, cur), f, Grown(NodeOf(img, f), ptrs, end, now))
  {
    DirTable(img, own, f);
    GrownExact(img, own, f, img1, ptrs, cur);
  }

  lemma GrownOthers(img: Image, own: Owners, f: nat, img1: Image, ptrs: Pointers, cur: nat)
    requires WellFormed(img, own) && Midway(img, own, f, img1, ptrs, cur)
    ensures SameOthers(own, GrownOwners(img, own, f, ptrs, cur), f)
  {
    GrownExact(img, own, f, img1, ptrs, cur);
  }

  lemma GrownRewritten(img: Image, own: Owners, f: nat, img1: Image, ptrs: Pointers, cur: nat, end: nat, now: nat)
    requires WellFormed(img, own) && Midway(img, own, f, img1, ptrs, cur)
    requires cur == BlocksFor(Max(NodeOf(img, f).size, end)) && end <= MAX_FILE
    ensures var n := Grown(NodeOf(img, f), ptrs, end, now);
            Rewritten(img, img1.(blk := img1.blk[f := INode(n)]), own, GrownOwners(img, own, f, ptrs, cur), f, n)
  {
    hide GrownOwners, GoodInode, GoodBlock, SameOthers, BlocksFor;
    assert GoodBlock(img, own, f);
    InRange(img, own, f);
    var own' := GrownOwners(img, own, f, ptrs, cur);
    GrownOthers(img, own, f, img1, ptrs, cur);
    GrownInode(img, own, f, img1, ptrs, cur, end, now);
    forall b: nat | b in own' ensures b in img1.used && (Other(own', f, b) || (own'[b].Extent? && own'[b].file == f)) {
      GrownUsed(img, own, f, img1, ptrs, cur, b);
    }
    forall b: nat | b in own' && own'[b].Extent? && own'[b].file == f
      ensures own'[b].index < cur && ptrs[own'[b].index] == b && ROOT <= b < NUM_BLOCKS && img1.blk[b].Data? && b != f
    {
      GrownExtents(img, own, f, img1, ptrs, cur, b);
    }
  }

  lemma InRange(img: Image, own: Owners, f: nat)
    requires WellFormed(img, own) && f in own
    ensures ROOT <= f < NUM_BLOCKS && f in img.used && 0 in img.used && 1 in img.used
  {
    assert GoodBlock(img, own, f);
  }

  lemma GrownUsed(img: Image, own: Owners, f: nat, img1: Image, ptrs: Pointers, cur: nat, b: nat)
    requires WellFormed(img, own) && Midway(img, own, f, img1, ptrs, cur)
    requires b in GrownOwners(img, own, f, ptrs, cur)
    ensures b in img1.used
  {
    GrownExact(img, own, f, img1, ptrs, cur);
  }

  lemma StuckRewritten(img: Image, own: Owners, f: nat, img1: Image, ptrs: Pointers, cur: nat)
    requires WellFormed(img, own) && Midway(img, own, f, img1, ptrs, cur)
    ensures Rewritten(img, img1, own, own, f, NodeOf(img, f))
  {
    DirTable(img, own, f);
    assert GoodBlock(img, own, f);
    forall b: nat | b in own && own[b].Extent? && own[b].file == f ensures GoodBlock(img, own, b) && img1.blk[b].Data? {
    }
  }

  /** data with bytes written over it from offset off on, growing it if they reach further. */
  function Overlay(data: seq<Byte>, off: nat, bytes: seq<Byte>): seq<Byte>
    requires off <= |data|
  {
    data[..off] + bytes + (if off + |bytes| < |data| then data[off + |bytes|..] else [])
  }

  /** img' is the image after the loop, with inode f possibly rewritten to m. */
  ghost predicate Finished(n: Inode, f: nat, w: Written, end: nat, m: Inode, img': Image) {
    && |img'.blk| == |w.img.blk| == NUM_BLOCKS && m.size <= MAX_FILE
    && (forall b: nat :: b < NUM_BLOCKS && b != f ==> img'.blk[b] == w.img.blk[b])
    && (forall i :: 0 <= i < BlocksFor(m.size) && i < NUM_PTRS ==> m.ptrs[i] == w.ptrs[i])
    && m.size == if w.ok then Max(n.size, end) else n.size
  }

  lemma OneByte(raw: Block -> Page, img: Image, own: Owners, f: nat, buf: seq<Byte>, off: nat, m: Inode, img': Image,
      i: nat, cur: nat)
    requires WellFormed(img, own) && IsNode(own, f) && IsInode(img, f) && |img.blk| == NUM_BLOCKS
    requires off <= NodeOf(img, f).size && off + |buf| <= MAX_FILE
    requires Running(img, own, f, img, NodeOf(img, f).ptrs, off, |buf|)
    requires var w := Run(raw, img, NodeOf(img, f).ptrs, Live(img, f), buf, off);
             && Finished(NodeOf(img, f), f, w, off + |buf|, m, img') && i < m.size
             && Midway(img, own, f, w.img, w.ptrs, cur) && (w.ok ==> cur == Max(Live(img, f), BlocksFor(off + |buf|)))
    ensures ByteAt(img', m.ptrs, i) ==
              if off <= i < off + |buf| then buf[i - off] else ByteAt(img, NodeOf(img, f).ptrs, i)
  {
    hide WellFormed, Midway, Running, Run, ByteAt;
    var n := NodeOf(img, f);
    var w := Run(raw, img, n.ptrs, Live(img, f), buf, off);
    BlocksForLeast(m.size, BlocksFor(m.size));
    BlocksForLeast(n.size, BlocksFor(n.size));
    BlockRange(i, m.size, n.size, off, |buf|);
    MidwayRange(img, own, f, w.img, w.ptrs, cur);
    RunBytes(raw, img, own, f, img, n.ptrs, buf, off, i);
    LiveBlock(img, own, f, w.img, w.ptrs, cur, BlockOf(i));
    InRange(img, own, f);
    ByteMoved(w.img, img', w.ptrs, m.ptrs, f, i);
  }

  lemma MidwayRange(img: Image, own: Owners, f: nat, img1: Image, ptrs: Pointers, cur: nat)
    requires Midway(img, own, f, img1, ptrs, cur)
    ensures IsInode(img, f) && BlocksFor(NodeOf(img, f).size) <= cur <= NUM_PTRS
  {
  }

  lemma BlockRange(i: nat, size: nat, size0: nat, off: nat, len: nat)
    requires i < size && off <= size0
    ensures BlockOf(i) < BlocksFor(size)
    ensures size == size0 ==> BlockOf(i) < BlocksFor(size0)
    ensures size == Max(size0, off + len) ==> BlocksFor(size) == Max(BlocksFor(size0), BlocksFor(off + len))
    ensures size == Max(size0, off + len) ==> BlockOf(i) < BlocksFor(size0) || off <= i < off + len
  {
  }

  lemma ByteMoved(img: Image, img': Image, ptrs: Pointers, ptrs': Pointers, f: nat, i: nat)
    requires |img'.blk| == |img.blk| == NUM_BLOCKS && BlockOf(i) < NUM_PTRS
    requires ptrs'[BlockOf(i)] == ptrs[BlockOf(i)] && ptrs[BlockOf(i)] < NUM_BLOCKS
    requires img.blk[ptrs[BlockOf(i)]] == img'.blk[ptrs[BlockOf(i)]]
    ensures ByteAt(img', ptrs', i) == ByteAt(img, ptrs, i)
  {
  }

  lemma RunContents(raw: Block -> Page, img: Image, own: Owners, f: nat, buf: seq<Byte>, off: nat, m: Inode,
      img': Image)
    requires WellFormed(img, own) && IsNode(own, f) && IsInode(img, f) && !IsDir(NodeOf(img, f).attr.mode)
    requires var n := NodeOf(img, f); off <= n.size && off + |buf| <= MAX_FILE
    requires var w := Run(raw, img, NodeOf(img, f).ptrs, Live(img, f), buf, off);
             Finished(NodeOf(img, f), f, w, off + |buf|, m, img')
    ensures m.size <= |Overlay(Contents(img, NodeOf(img, f)), off, buf)|
    ensures Contents(img', m) == Overlay(Contents(img, NodeOf(img, f)), off, buf)[..m.size]
  {
    hide WellFormed, Midway, Running, Run, ByteAt;
    var n := NodeOf(img, f);
    StartRunning(img, own, f, off, |buf|);
    var cur := RunKeeps(raw, img, own, f, img, n.ptrs, buf, off);
    forall i: nat | i < m.size ensures Contents(img', m)[i] == Overlay(Contents(img, n), off, buf)[i] {
      OneByte(raw, img, own, f, buf, off, m, img', i, cur);
    }
  }

  // ---------- fs_write ----------

  /** What fs_write answers, read off the tree and the number of free blocks. A write past the end
      answers 0 where the comment at fs5600.c:1139 promises EINVAL, and a full disk aborts where
      ENOSPC is promised. */
  ghost function WriteCode(fs: Tree, free: nat, p: Path, len: nat, off: nat): Result {
    if p !in fs then Ret(PathCode(fs, p))
    else if fs[p].Directory? then Ret(-EISDIR)
    else if off > |fs[p].data| then Ret(0)
    else if off + len > MAX_FILE then Ret(-ENOSPC)
    else if NewBlocks(|fs[p].data|, off + len) > free then Aborted
    else Ret(len)
  }

  /** How many blocks a file of `size` bytes needs in addition to reach offset `end`. */
  function NewBlocks(size: nat, end: nat): nat {
    BlocksFor(Max(size, end)) - BlocksFor(size)
  }

  /** The owners after a write: on success the file gains the pointers up to its new size. */
  ghost function WriteOwners(raw: Block -> Page, img: Image, own: Owners, p: Path, buf: seq<Byte>, off: nat): Owners
    requires |img.blk| == NUM_BLOCKS
  {
    var inum := Resolve(img, p);
    if inum <= 0 || !IsInode(img, inum) then own
    else
      var n := NodeOf(img, inum);
      if IsDir(n.attr.mode) || off > n.size || off + |buf| > MAX_FILE then own
      else
        var w := Run(raw, img, n.ptrs, BlocksFor(n.size), buf, off);
        if !w.ok then own else GrownOwners(img, own, inum, w.ptrs, BlocksFor(Max(n.size, off + |buf|)))
  }

  lemma WriteAnswers(raw: Block -> Page, img: Image, own: Owners, p: Path, buf: seq<Byte>, off: nat, now: nat)
    requires WellFormed(img, own)
    ensures Write(raw, img, p, buf, off, now).1 == WriteCode(Abs(img), |FreeBlocks(img.used)|, p, |buf|, off)
    ensures Write(raw, img, p, buf, off, now).0 == img ||
            (p in Abs(img) && Abs(img)[p].File? && off <= |Abs(img)[p].data| && off + |buf| <= MAX_FILE)
  {
    AbsWalk(img, own, p);
    PathExact(img, own, p);
    if p in Abs(img) && Abs(img)[p].File? && off <= |Abs(img)[p].data| && off + |buf| <= MAX_FILE {
      var f := Walk(img, p).value;
      var n := NodeOf(img, f);
      StartRunning(img, own, f, off, |buf|);
      RunSpace(raw, img, own, f, img, n.ptrs, buf, off);
      BlockRange(0, Max(n.size, off + |buf|) + 1, n.size, off, |buf| + 1);
      hide WellFormed, Running, Run, Abs, FreeBlocks, Walk;
      assert BlocksFor(Max(n.size, off + |buf|)) == Max(BlocksFor(n.size), BlocksFor(off + |buf|));
    }
  }

  /** With enough free blocks a write inside the size limit puts the buffer at its offset,
      extends the file if needed, stamps it, and changes nothing else a user sees. */
  lemma WriteWorks(raw: Block -> Page, img: Image, own: Owners, p: Path, buf: seq<Byte>, off: nat, now: nat)
    requires WellFormed(img, own) && p in Abs(img) && Abs(img)[p].File?
    requires off <= |Abs(img)[p].data| && off + |buf| <= MAX_FILE
    requires NewBlocks(|Abs(img)[p].data|, off + |buf|) <= |FreeBlocks(img.used)|
    ensures var (img', r) := Write(raw, img, p, buf, off, now);
            var e := Abs(img)[p];
            && r == Ret(|buf|)
            && WellFormed(img', WriteOwners(raw, img, own, p, buf, off)) && SameWalks(img, img')
            && Abs(img') == Abs(img)[p := File(e.attr.(mtime := now), Overlay(e.data, off, buf))]
            && |FreeBlocks(img'.used)| == |FreeBlocks(img.used)| - NewBlocks(|e.data|, off + |buf|)
  {
    AbsWalk(img, own, p);
    WriteAnswers(raw, img, own, p, buf, off, now);
    var f := Walk(img, p).value;
    var n := NodeOf(img, f);
    WriteFile(raw, img, own, f, buf, off, now);
    var w := Run(raw, img, n.ptrs, Live(img, f), buf, off);
    var m := Grown(n, w.ptrs, off + |buf|, now);
    var img' := w.img.(blk := w.img.blk[f := INode(m)]);
    var own' := GrownOwners(img, own, f, w.ptrs, BlocksFor(m.size));
    RewrittenKeeps(img, img', own, own', f, m);
    RewrittenAbs(img, img', own, own', f, m, p);
  }

  lemma WriteFile(raw: Block -> Page, img: Image, own: Owners, f: nat, buf: seq<Byte>, off: nat, now: nat)
    requires WellFormed(img, own) && IsNode(own, f) && IsInode(img, f) && !IsDir(NodeOf(img, f).attr.mode)
    requires |img.blk| == NUM_BLOCKS && off <= NodeOf(img, f).size && off + |buf| <= MAX_FILE
    requires NewBlocks(NodeOf(img, f).size, off + |buf|) <= |FreeBlocks(img.used)|
    ensures var n := NodeOf(img, f);
            var w := Run(raw, img, n.ptrs, Live(img, f), buf, off);
            var m := Grown(n, w.ptrs, off + |buf|, now);
            && w.ok && f < |w.img.blk|
            && var img' := w.img.(blk := w.img.blk[f := INode(m)]);
               && Rewritten(img, img', own, GrownOwners(img, own, f, w.ptrs, BlocksFor(m.size)), f, m)
               && Contents(img', m) == Overlay(Contents(img, n), off, buf)
               && |FreeBlocks(img'.used)| == |FreeBlocks(img.used)| - NewBlocks(n.size, off + |buf|)
  {
    hide WellFormed, Midway, Running, Run, Rewritten, GrownOwners, FreeBlocks;
    var n := NodeOf(img, f);
    var w := Run(raw, img, n.ptrs, Live(img, f), buf, off);
    var m := Grown(n, w.ptrs, off + |buf|, now);
    InRange(img, own, f);
    StartRunning(img, own, f, off, |buf|);
    BlockRange(0, Max(n.size, off + |buf|) + 1, n.size, off, |buf| + 1);
    assert BlocksFor(m.size) == Max(Live(img, f), BlocksFor(off + |buf|));
    assert BlocksFor(off) <= Live(img, f);
    RunSpace(raw, img, own, f, img, n.ptrs, buf, off);
    var cur := RunKeeps(raw, img, own, f, img, n.ptrs, buf, off);
    GrownRewritten(img, own, f, w.img, w.ptrs, cur, off + |buf|, now);
    var img' := w.img.(blk := w.img.blk[f := INode(m)]);
    KeptPointers(img, own, f, w.img, w.ptrs, cur);
    RunContents(raw, img, own, f, buf, off, m, img');
    var o := Overlay(Contents(img, n), off, buf);
    assert o[..m.size] == o;
  }

  /** A write that runs out of blocks aborts: what it had written inside the old size stays, the
      size and the attributes do not change, and every other path is untouched. */
  lemma WriteAborts(raw: Block -> Page, img: Image, own: Owners, p: Path, buf: seq<Byte>, off: nat, now: nat)
    requires WellFormed(img, own) && p in Abs(img) && Abs(img)[p].File?
    requires off <= |Abs(img)[p].data| && off + |buf| <= MAX_FILE
    requires NewBlocks(|Abs(img)[p].data|, off + |buf|) > |FreeBlocks(img.used)|
    ensures var (img', r) := Write(raw, img, p, buf, off, now);
            var e := Abs(img)[p];
            && r == Aborted && WellFormed(img', own) && SameWalks(img, img') && FreeBlocks(img'.used) == {}
            && |e.data| <= |Overlay(e.data, off, buf)|
            && Abs(img') == Abs(img)[p := File(e.attr, Overlay(e.data, off, buf)[..|e.data|])]
  {
    AbsWalk(img, own, p);
    WriteAnswers(raw, img, own, p, buf, off, now);
    var f := Walk(img, p).value;
    var n := NodeOf(img, f);
    StuckFile(raw, img, own, f, buf, off);
    var w := Run(raw, img, n.ptrs, Live(img, f), buf, off);
    RewrittenKeeps(img, w.img, own, own, f, n);
    RewrittenAbs(img, w.img, own, own, f, n, p);
  }

  lemma StuckFile(raw: Block -> Page, img: Image, own: Owners, f: nat, buf: seq<Byte>, off: nat)
    requires WellFormed(img, own) && IsNode(own, f) && IsInode(img, f) && !IsDir(NodeOf(img, f).attr.mode)
    requires |img.blk| == NUM_BLOCKS && off <= NodeOf(img, f).size && off + |buf| <= MAX_FILE
    requires NewBlocks(NodeOf(img, f).size, off + |buf|) > |FreeBlocks(img.used)|
    ensures var n := NodeOf(img, f);
            var w := Run(raw, img, n.ptrs, Live(img, f), buf, off);
            && !w.ok && FreeBlocks(w.img.used) == {}
            && Rewritten(img, w.img, own, own, f, n)
            && n.size <= |Overlay(Contents(img, n), off, buf)|
            && Contents(w.img, n) == Overlay(Contents(img, n), off, buf)[..n.size]
  {
    hide WellFormed, Midway, Running, Run, Rewritten, FreeBlocks;
    var n := NodeOf(img, f);
    var w := Run(raw, img, n.ptrs, Live(img, f), buf, off);
    InRange(img, own, f);
    StartRunning(img, own, f, off, |buf|);
    BlockRange(0, Max(n.size, off + |buf|) + 1, n.size, off, |buf| + 1);
    assert BlocksFor(Max(n.size, off + |buf|)) == Max(Live(img, f), BlocksFor(off + |buf|));
    assert BlocksFor(off) <= Live(img, f);
    RunSpace(raw, img, own, f, img, n.ptrs, buf, off);
    var cur := RunKeeps(raw, img, own, f, img, n.ptrs, buf, off);
    StuckRewritten(img, own, f, w.img, w.ptrs, cur);
    KeptPointers(img, own, f, w.img, w.ptrs, cur);
    RunContents(raw, img, own, f, buf, off, n, w.img);
  }

  lemma KeptPointers(img: Image, own: Owners, f: nat, img1: Image, ptrs: Pointers, cur: nat)
    requires WellFormed(img, own) && Midway(img, own, f, img1, ptrs, cur)
    ensures NodeOf(img, f).size <= MAX_FILE
    ensures forall i :: 0 <= i < BlocksFor(NodeOf(img, f).size) && i < NUM_PTRS ==> NodeOf(img, f).ptrs[i] == ptrs[i]
  {
    DirTable(img, own, f);
  }
}
