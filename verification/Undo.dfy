/** Calls that undo each other, and the exact number of blocks each call takes or gives back. */
module Undo {
  import opened Layout
  import opened Paths
  import opened Volume
  import opened Operations
  import opened Creation
  import opened LookupErrors
  import opened Rewriting
  import opened Updates
  import opened Unlinking
  import opened Deletion
  import opened Writing
  import opened Queries
  import opened Calls
  import opened Counting
  import opened History
  import opened Space

  // ---------- Counting ----------

  /** How the number of free blocks changes when a call succeeds: create takes one block, mkdir
      two, a write the blocks of its growth; unlink gives back one more than the file's blocks,
      rmdir two, truncate the file's blocks; the others change nothing. */
  ghost function Taken(fs: Tree, op: Op): int
    requires op.path in fs || op.OpCreate? || op.OpMkdir?
  {
    match op
    case OpCreate(_, _, _, _) => 1
    case OpMkdir(_, _, _, _) => 2
    case OpUnlink(p, _) => if fs[p].File? then -1 - BlocksFor(|fs[p].data|) else 0
    case OpRmdir(_, _) => -2
    case OpTruncate(p, _) => var n: int := BlocksFor(if fs[p].File? then |fs[p].data| else 0); -n
    case OpWrite(p, buf, off, _) => if fs[p].File? && off <= |fs[p].data| then NewBlocks(|fs[p].data|, off + |buf|)
        else 0
    case _ => 0
  }

  /** A call succeeds when it answers 0, and a write when it answers its length inside a file. */
  ghost predicate Succeeds(s: Seen, op: Op) {
    var p, fs := op.path, s.tree;
    if op.OpWrite? then p in fs && fs[p].File? && op.off <= |fs[p].data| && Answer(s, op) == Ret(|op.buf|)
    else Answer(s, op) == Ret(0)
  }

  lemma TakenStep(s: Seen, op: Op)
    requires Succeeds(s, op) && [] in s.tree && (op.OpRmdir? ==> op.path != [])
    ensures op.path in s.tree || op.OpCreate? || op.OpMkdir?
    ensures FreeAfter(s, op, Answer(s, op)) == s.free - Taken(s.tree, op)
  {
    PathSign(s.tree, op.path);
  }

  lemma PathSign(fs: Tree, p: Path)
    requires [] in fs
    ensures p !in fs ==> PathCode(fs, p) < 0
  {
  }

  lemma SpaceFacts(raw: Block -> Page, img: Image, own: Owners, op: Op)
    requires WellFormed(img, own) && Legal(op) && |img.blk| == NUM_BLOCKS
    ensures WellFormed(Apply(raw, img, op).0, OwnersAfter(raw, img, own, op)) && [] in Abs(img)
    ensures var s := SeenIn(img); |FreeBlocks(Apply(raw, img, op).0.used)| == FreeAfter(s, op, Answer(s, op))
  {
    hide Apply, OwnersAfter, Answer, FreeAfter, StepWalks, Effect;
    RootExists(img, own);
    TreeRefines(raw, img, own, op);
    FreeStep(raw, img, own, op);
  }

  lemma Wraps(free: nat, free': nat, t: int, c: nat)
    requires free' == free - t
    ensures ((free' - c) % WORD + t) % WORD == (free - c) % WORD
  {
  }

  /** The number of free blocks, and with it the free count statfs reports, changes by exactly
      what a successful call takes. */
  lemma SpaceExact(raw: Block -> Page, img: Image, own: Owners, op: Op, diskSize: nat)
    requires WellFormed(img, own) && Legal(op) && |img.blk| == NUM_BLOCKS && 2 <= diskSize <= NUM_BLOCKS
    requires Succeeds(SeenIn(img), op)
    ensures op.path in Abs(img) || op.OpCreate? || op.OpMkdir?
    ensures |FreeBlocks(Apply(raw, img, op).0.used)| == |FreeBlocks(img.used)| - Taken(Abs(img), op)
    ensures (Statfs(Apply(raw, img, op).0, diskSize).1 + Taken(Abs(img), op)) % WORD == Statfs(img, diskSize).1
  {
    hide WellFormed, Apply, OwnersAfter, Abs, Statfs, FreeBlocks, Succeeds, FreeAfter, Answer, Taken, Legal;
    var img' := Apply(raw, img, op).0;
    LegalRmdir(op);
    SpaceFacts(raw, img, own, op);
    TakenStep(SeenIn(img), op);
    StatfsFree(img, own, diskSize);
    StatfsFree(img', OwnersAfter(raw, img, own, op), diskSize);
    Wraps(|FreeBlocks(img.used)|, |FreeBlocks(img'.used)|, Taken(Abs(img), op), NUM_BLOCKS - diskSize);
  }

  lemma LegalRmdir(op: Op)
    requires Legal(op)
    ensures op.OpRmdir? ==> op.path != []
  {
  }

  // ---------- Undoing ----------

  /** Taking a file's or a new directory's blocks away from the owners after it was made leaves
      the owners from before. */
  lemma DropNew(img: Image, own: Owners, par: nat, inum: nat, table: nat)
    requires WellFormed(img, own) && HasDir(img, par)
    requires inum !in own && table !in own
    ensures Drop(EntryOwners(img, if table == inum then own else own[table := Table(inum)], par, inum), inum) == own
  {
    var own' := EntryOwners(img, if table == inum then own else own[table := Table(inum)], par, inum);
    forall b | b in own ensures !Belongs(own', inum, b) && own'[b] == own[b] {
      assert GoodBlock(img, own, b);
    }
  }

  lemma DropRewritten(own: Owners, own': Owners, f: nat)
    requires SameOthers(own, own', f)
    ensures Drop(own', f) == Drop(own, f)
  {
    forall b ensures b in Drop(own, f) <==> b in Drop(own', f) {
      assert b in Drop(own, f) ==> Other(own, f, b) && Other(own', f, b);
      assert b in Drop(own', f) ==> Other(own', f, b) && Other(own, f, b);
    }
  }

  /** A write, truncate, chmod or utime of file p. */
  predicate OnFile(op: Op, p: Path) {
    op.path == p && (op.OpWrite? || op.OpTruncate? || op.OpChmod? || op.OpUtime?)
  }

  lemma StillGood(raw: Block -> Page, img: Image, own: Owners, op: Op)
    requires WellFormed(img, own) && Legal(op) && |img.blk| == NUM_BLOCKS
    ensures WellFormed(Apply(raw, img, op).0, OwnersAfter(raw, img, own, op))
            && |Apply(raw, img, op).0.blk| == NUM_BLOCKS
  {
    hide Apply, OwnersAfter, Answer, Effect, StepWalks, Legal;
    TreeRefines(raw, img, own, op);
  }

  /** Using a file leaves everything but its own live pointers to the owners it had, marks and
      frees no other block, and changes the tree at its path only. */
  lemma FileStep(raw: Block -> Page, img: Image, own: Owners, op: Op)
    requires WellFormed(img, own) && Legal(op) && |img.blk| == NUM_BLOCKS && OnFile(op, op.path)
    requires op.path in Abs(img) && Abs(img)[op.path].File? && Walk(img, op.path).Some?
    requires Apply(raw, img, op).1 != Aborted
    ensures var img', own' := Apply(raw, img, op).0, OwnersAfter(raw, img, own, op);
            var x := Walk(img, op.path).value;
            && WellFormed(img', own') && |img'.blk| == NUM_BLOCKS
            && Walk(img', op.path) == Some(x) && Drop(own', x) == Drop(own, x) && Leaked(img', own') == Leaked(img, own)
            && op.path in Abs(img') && Abs(img')[op.path].File?
            && Abs(img') == Abs(img)[op.path := Abs(img')[op.path]]
  {
    hide WithLow, WellFormed, Write, Truncate, Chmod, Utime, Abs, Drop, Leaked, WriteOwners, Legal;
    AbsWalk(img, own, op.path);
    StepLeaks(raw, img, own, op);
    StillGood(raw, img, own, op);
    var p := op.path;
    var x := Walk(img, p).value;
    match op
    case OpWrite(_, buf, off, now) =>
      WriteAnswers(raw, img, own, p, buf, off, now);
      WriteUse(raw, img, own, p, buf, off, now);
    case OpTruncate(_, len) =>
      TruncateWorks(img, own, p, len);
      if len == 0 {
        TruncateOthers(own, x);
        DropRewritten(own, DropExtents(own, x), x);
      }
    case OpChmod(_, mode) => ChmodWorks(img, own, p, mode);
    case OpUtime(_, mtime) => UtimeWorks(img, own, p, mtime);
  }

  lemma TruncateOthers(own: Owners, x: nat)
    ensures SameOthers(own, DropExtents(own, x), x)
  {
    forall b: nat | Other(own, x, b) ensures Other(DropExtents(own, x), x, b) {
    }
  }

  lemma WriteUse(raw: Block -> Page, img: Image, own: Owners, p: Path, buf: seq<Byte>, off: nat, now: nat)
    requires WellFormed(img, own) && |img.blk| == NUM_BLOCKS && p in Abs(img) && Abs(img)[p].File? && Walk(img, p).Some?
    requires Write(raw, img, p, buf, off, now).1 != Aborted
    ensures var img', own', x := Write(raw, img, p, buf, off, now).0, WriteOwners(raw, img, own, p, buf, off),
            Walk(img, p).value;
            && WellFormed(img', own')
            && Walk(img', p) == Some(x) && Drop(own', x) == Drop(own, x)
            && p in Abs(img') && Abs(img')[p].File?
            && Abs(img') == Abs(img)[p := Abs(img')[p]]
  {
    WriteAnswers(raw, img, own, p, buf, off, now);
    AbsWalk(img, own, p);
    if off <= |Abs(img)[p].data| && off + |buf| <= MAX_FILE {
      var x := Walk(img, p).value;
      WriteFile(raw, img, own, x, buf, off, now);
      WriteWorks(raw, img, own, p, buf, off, now);
      DropRewritten(own, WriteOwners(raw, img, own, p, buf, off), x);
    } else {
      WriteNoOwners(raw, img, own, p, buf, off, now);
    }
  }

  lemma {:induction false} FileRun(raw: Block -> Page, img: Image, own: Owners, p: Path, ops: seq<Op>)
    requires WellFormed(img, own) && |img.blk| == NUM_BLOCKS
    requires p in Abs(img) && Abs(img)[p].File? && Walk(img, p).Some?
    requires forall i :: 0 <= i < |ops| ==> Legal(ops[i]) && OnFile(ops[i], p)
    requires Aborted !in Play(raw, img, ops).1
    ensures var img', own' := Play(raw, img, ops).0, OwnersAll(raw, img, own, ops);
            var x := Walk(img, p).value;
            && WellFormed(img', own') && |img'.blk| == NUM_BLOCKS
            && Walk(img', p) == Some(x) && Drop(own', x) == Drop(own, x) && Leaked(img', own') == Leaked(img, own)
            && p in Abs(img') && Abs(img')[p].File?
            && Abs(img') == Abs(img)[p := Abs(img')[p]]
    decreases |ops|
  {
    hide WellFormed, Apply, OwnersAfter, Abs, Legal, Leaked, Drop;
    if ops == [] {
      assert Abs(img) == Abs(img)[p := Abs(img)[p]];
    } else {
      var (img1, r) := Apply(raw, img, ops[0]);
      StepRefines(raw, img, own, ops[0]);
      SizeOf(img1, OwnersAfter(raw, img, own, ops[0]));
      assert r == Play(raw, img, ops).1[0];
      FileStep(raw, img, own, ops[0]);
      assert Play(raw, img1, ops[1..]).1 == Play(raw, img, ops).1[1..];
      FileRun(raw, img1, OwnersAfter(raw, img, own, ops[0]), p, ops[1..]);
    }
  }

  /** The same owned and the same leaked blocks make the same bitmap. */
  lemma SameUsed(img: Image, img': Image, own: Owners)
    requires WellFormed(img, own) && WellFormed(img', own) && Leaked(img', own) == Leaked(img, own)
    ensures img'.used == img.used
  {
    OwnedUsed(img, own);
    forall b: nat ensures b in img'.used <==> b in img.used {
      assert b in Leaked(img', own) <==> b in Leaked(img, own);
    }
  }

  lemma BackToBefore(fs: Tree, p: Path, e: Entity, now: nat)
    requires p != [] && p !in fs && Parent(p) in fs
    ensures Without(Touched(fs[p := e], Parent(p), now), p) == Touched(fs, Parent(p), now)
  {
    assert Parent(p) != p;
  }

  lemma UnlinkFile(img: Image, own: Owners, p: Path)
    requires WellFormed(img, own) && p in Abs(img) && Abs(img)[p].File?
    ensures UnlinkError(Abs(img), p) == 0
  {
    AbsWalk(img, own, p);
    AbsWalk(img, own, Parent(p));
    RootExists(img, own);
  }

  lemma CreateStart(raw: Block -> Page, img: Image, own: Owners, p: Path, mode: bv32, ctx: Caller, junk: Pointers)
    requires WellFormed(img, own) && |img.blk| == NUM_BLOCKS && Canonical(p)
             && Create(img, p, mode, ctx, junk).1 == Ret(0)
    ensures p != [] && p !in Abs(img) && Parent(p) in Abs(img)
    ensures var img1, own1 := Create(img, p, mode, ctx, junk).0, CreateOwners(img, own, p);
            && WellFormed(img1, own1) && |img1.blk| == NUM_BLOCKS && Leaked(img1, own1) == Leaked(img, own)
            && Walk(img1, p) == Some(FirstFree(img.used)) && Drop(own1, FirstFree(img.used)) == own
            && p in Abs(img1) && Abs(img1)[p].File? && Abs(img1) == Abs(img)[p := Abs(img1)[p]]
  {
    GoodLast(p);
    CreateCode(img, own, p, mode, ctx, junk);
    CreateWorks(img, own, p, mode, ctx, junk);
    NewPlaceExact(img, own, p);
    FirstFreeFresh(img.used);
    OwnedUsed(img, own);
    var img1, own1 := Create(img, p, mode, ctx, junk).0, CreateOwners(img, own, p);
    SizeOf(img1, own1);
    DropNew(img, own, NewPlace(img, p), FirstFree(img.used), FirstFree(img.used));
    CreateMarks(img, own, p, mode, ctx, junk);
    LeakedSets(img, img1, own, own1, {FirstFree(img.used)});
  }

  /** create, any run of writes, truncates, chmods and utimes on the new file that does not run
      out of space, and unlink: the tree is back, its parent's time stamp aside, every block has
      its old owner, and the bitmap is the same bit for bit. */
  lemma {:induction false} CreateUseUnlink(raw: Block -> Page, img: Image, own: Owners, p: Path, mode: bv32,
      ctx: Caller, junk: Pointers, ops: seq<Op>, now: nat)
    requires WellFormed(img, own) && |img.blk| == NUM_BLOCKS && Canonical(p)
             && Create(img, p, mode, ctx, junk).1 == Ret(0)
    requires forall i :: 0 <= i < |ops| ==> Legal(ops[i]) && OnFile(ops[i], p)
    requires var img1 := Create(img, p, mode, ctx, junk).0;
             |img1.blk| == NUM_BLOCKS && Aborted !in Play(raw, img1, ops).1
    ensures Parent(p) in Abs(img)
    ensures var img1 := Create(img, p, mode, ctx, junk).0;
            var (img', r) := Unlink(Play(raw, img1, ops).0, p, now);
            && r == Ret(0) && WellFormed(img', own)
            && img'.used == img.used
            && Abs(img') == Touched(Abs(img), Parent(p), now)
  {
    hide WellFormed, Create, Unlink, Abs, Leaked, Drop, Legal, Canonical, OnFile, CreateOwners, Play, OwnersAll;
    var img1, own1 := Create(img, p, mode, ctx, junk).0, CreateOwners(img, own, p);
    CreateStart(raw, img, own, p, mode, ctx, junk);
    FileRun(raw, img1, own1, p, ops);
    FinishUnlink(img, Play(raw, img1, ops).0, own, OwnersAll(raw, img1, own1, ops), p, now);
  }

  /** img2 is img with one more entity at path p, owning what own2 has beyond own. */
  ghost predicate OneMore(img: Image, img2: Image, own: Owners, own2: Owners, p: Path) {
    && WellFormed(img, own) && WellFormed(img2, own2) && p != [] && p !in Abs(img) && Parent(p) in Abs(img)
    && Walk(img2, p).Some? && Drop(own2, Walk(img2, p).value) == own && Leaked(img2, own2) == Leaked(img, own)
    && p in Abs(img2) && Abs(img2) == Abs(img)[p := Abs(img2)[p]]
  }

  lemma FinishUnlink(img: Image, img2: Image, own: Owners, own2: Owners, p: Path, now: nat)
    requires OneMore(img, img2, own, own2, p) && Abs(img2)[p].File?
    ensures Parent(p) in Abs(img)
    ensures var (img', r) := Unlink(img2, p, now);
            && r == Ret(0) && WellFormed(img', own) && img'.used == img.used
            && Abs(img') == Touched(Abs(img), Parent(p), now)
  {
    hide WellFormed, Unlink, Abs, Drop;
    var img' := Unlink(img2, p, now).0;
    UnlinkFile(img2, own2, p);
    UnlinkWorks(img2, own2, p, now);
    OwnedUsed(img2, own2);
    DropLess(own2, Walk(img2, p).value);
    SameLeaks(img2, img', own2, own);
    SameUsed(img, img', own);
    BackToBefore(Abs(img), p, Abs(img2)[p], now);
  }

  lemma FinishRmdir(img: Image, img2: Image, own: Owners, own2: Owners, p: Path, now: nat)
    requires OneMore(img, img2, own, own2, p) && RmdirError(Abs(img2), p) == 0
    requires Abs(img2)[p].Directory? && Abs(img2)[p].size <= BLOCK_SIZE
    ensures Parent(p) in Abs(img)
    ensures var (img', r) := Rmdir(img2, p, now);
            && r == Ret(0) && WellFormed(img', own) && img'.used == img.used
            && Abs(img') == Touched(Abs(img), Parent(p), now)
  {
    hide WellFormed, Rmdir, Abs, Drop, Leaked;
    var img' := Rmdir(img2, p, now).0;
    RmdirCode(img2, own2, p, now);
    RmdirWorks(img2, own2, p, now);
    RmdirLeaks(img2, own2, p, now);
    SameUsed(img, img', own);
    BackToBefore(Abs(img), p, Abs(img2)[p], now);
  }

  lemma MkdirStart(img: Image, own: Owners, p: Path, mode: bv32, ctx: Caller, junk: Pointers)
    requires WellFormed(img, own) && |img.blk| == NUM_BLOCKS && Canonical(p)
             && Mkdir(img, p, mode, ctx, junk).1 == Ret(0)
    ensures OneMore(img, Mkdir(img, p, mode, ctx, junk).0, own, MkdirOwners(img, own, p), p)
    ensures var e := Abs(Mkdir(img, p, mode, ctx, junk).0)[p]; e.Directory? && e.size == BLOCK_SIZE
  {
    hide Mkdir, WellFormed, Drop, Leaked, Abs;
    GoodLast(p);
    MkdirCode(img, own, p, mode, ctx, junk);
    MkdirWorks(img, own, p, mode, ctx, junk);
    NewPlaceExact(img, own, p);
    DirBlocksFresh(img.used);
    OwnedUsed(img, own);
    var (inum, table) := DirBlocks(img.used);
    var img1, own1 := Mkdir(img, p, mode, ctx, junk).0, MkdirOwners(img, own, p);
    NewPlaceDir(img, own, p);
    DropNew(img, own, NewPlace(img, p), inum, table);
    MkdirMarks(img, own, p, mode, ctx, junk);
    LeakedSets(img, img1, own, own1, {inum, table});
  }

  lemma NewPlaceDir(img: Image, own: Owners, p: Path)
    requires WellFormed(img, own) && NewPlace(img, p) >= 0
    ensures p != [] && p !in Abs(img) && Parent(p) in Abs(img) && HasDir(img, NewPlace(img, p))
  {
    NewPlaceExact(img, own, p);
    AbsWalk(img, own, p);
    AbsWalk(img, own, Parent(p));
  }

  /** Nothing is below a path that is not in the tree. */
  lemma NoneBelow(img: Image, own: Owners, p: Path, name: Name)
    requires WellFormed(img, own) && p !in Abs(img)
    ensures p + [name] !in Abs(img)
  {
    assert Parent(p + [name]) == p;
    AbsWalk(img, own, p);
    AbsWalk(img, own, p + [name]);
  }

  /** A directory just made can be removed. */
  lemma NewIsEmpty(img: Image, img1: Image, own: Owners, own1: Owners, p: Path)
    requires WellFormed(img, own) && WellFormed(img1, own1) && p !in Abs(img)
    requires p in Abs(img1) && Abs(img1)[p].Directory? && Abs(img1) == Abs(img)[p := Abs(img1)[p]]
    ensures RmdirError(Abs(img1), p) == 0
  {
    hide WellFormed, Abs;
    forall name ensures p + [name] !in Abs(img1) {
      NoneBelow(img, own, p, name);
      assert p + [name] != p;
    }
    ParentIsDir(img1, own1, p);
  }

  /** mkdir followed by rmdir: the tree is back, its parent's time stamp aside, every block has
      its old owner, and the bitmap is the same bit for bit. */
  lemma MkdirRmdir(img: Image, own: Owners, p: Path, mode: bv32, ctx: Caller, junk: Pointers, now: nat)
    requires WellFormed(img, own) && |img.blk| == NUM_BLOCKS && Canonical(p)
             && Mkdir(img, p, mode, ctx, junk).1 == Ret(0)
    ensures Parent(p) in Abs(img)
    ensures var (img', r) := Rmdir(Mkdir(img, p, mode, ctx, junk).0, p, now);
            && r == Ret(0) && WellFormed(img', own)
            && img'.used == img.used
            && Abs(img') == Touched(Abs(img), Parent(p), now)
  {
    hide WellFormed, Mkdir, Rmdir, Abs, Canonical, MkdirOwners, Drop, Leaked, RmdirError;
    var img1, own1 := Mkdir(img, p, mode, ctx, junk).0, MkdirOwners(img, own, p);
    MkdirStart(img, own, p, mode, ctx, junk);
    NewIsEmpty(img, img1, own, own1, p);
    FinishRmdir(img, img1, own, own1, p, now);
  }

  lemma ParentIsDir(img: Image, own: Owners, p: Path)
    requires WellFormed(img, own) && p in Abs(img) && Abs(img)[p].Directory?
    ensures Parent(p) in Abs(img) && Abs(img)[Parent(p)].Directory?
  {
    AbsWalk(img, own, p);
    AbsWalk(img, own, Parent(p));
    RootExists(img, own);
  }
}
