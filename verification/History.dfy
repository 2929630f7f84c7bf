/** Runs of calls: over every run the disk stays one singly-owned tree, and answers, tree and free
    count are those of the abstract file system. */
module History {
  import opened Layout
  import opened Volume
  import opened TreeEdits
  import opened Operations
  import opened Creation
  import opened LookupErrors
  import opened Updates
  import opened Deletion
  import opened Renaming
  import opened Writing
  import opened Calls
  import opened Counting

  /** One call keeps the disk well formed, answers as the abstract file system does, and does the
      same to the tree; every path it does not concern keeps its inode. */
  ghost predicate TreeStep(raw: Block -> Page, img: Image, own: Owners, op: Op)
    requires |img.blk| == NUM_BLOCKS
  {
    var (img', r) := Apply(raw, img, op);
    && WellFormed(img', OwnersAfter(raw, img, own, op))
    && r == Answer(SeenIn(img), op)
    && Abs(img') == Effect(Abs(img), op, r)
    && StepWalks(img, img', op, r)
  }

  /** The same, with the number of free blocks. */
  ghost predicate StepHolds(raw: Block -> Page, img: Image, own: Owners, op: Op)
    requires |img.blk| == NUM_BLOCKS
  {
    var (img', r) := Apply(raw, img, op);
    && WellFormed(img', OwnersAfter(raw, img, own, op))
    && (SeenIn(img'), r) == AbstractStep(SeenIn(img), op)
    && StepWalks(img, img', op, r)
  }

  lemma AddStep(raw: Block -> Page, img: Image, own: Owners, op: Op)
    requires WellFormed(img, own) && Legal(op) && (op.OpCreate? || op.OpMkdir?) && |img.blk| == NUM_BLOCKS
    ensures TreeStep(raw, img, own, op)
  {
    hide WithLow, WellFormed, Create, Mkdir, Abs, WalksPut, SameWalks, AddAnswer;
    GoodLast(op.path);
    AbsWalk(img, own, op.path);
    match op
    case OpCreate(p, mode, ctx, junk) =>
      CreateCode(img, own, p, mode, ctx, junk);
      if Create(img, p, mode, ctx, junk).1 == Ret(0) {
        CreateWorks(img, own, p, mode, ctx, junk);
      } else {
        CreateFails(img, own, p, mode, ctx, junk);
      }
    case OpMkdir(p, mode, ctx, junk) =>
      MkdirCode(img, own, p, mode, ctx, junk);
      if Mkdir(img, p, mode, ctx, junk).1 == Ret(0) {
        MkdirWorks(img, own, p, mode, ctx, junk);
      } else {
        MkdirFails(img, own, p, mode, ctx, junk);
      }
  }

  lemma RemoveStep(raw: Block -> Page, img: Image, own: Owners, op: Op)
    requires WellFormed(img, own) && Legal(op) && (op.OpUnlink? || op.OpRmdir?) && |img.blk| == NUM_BLOCKS
    ensures TreeStep(raw, img, own, op)
  {
    hide WellFormed, Unlink, Rmdir, Abs, WalksPut, UnlinkError, RmdirError;
    match op
    case OpUnlink(p, now) =>
      UnlinkSign(Abs(img), p);
      UnlinkWorks(img, own, p, now);
    case OpRmdir(p, now) =>
      RmdirSign(Abs(img), p);
      RmdirCode(img, own, p, now);
      if RmdirError(Abs(img), p) == 0 {
        RmdirWorks(img, own, p, now);
      }
  }

  lemma RenameStep(raw: Block -> Page, img: Image, own: Owners, op: Op)
    requires WellFormed(img, own) && Legal(op) && |img.blk| == NUM_BLOCKS && op.OpRename?
    ensures TreeStep(raw, img, own, op)
  {
    hide WellFormed, Rename, Abs, WalksMoved, RenameError;
    AbsWalk(img, own, op.path);
    GoodLast(op.dst);
    RenameWorks(img, own, op.path, op.dst);
  }

  lemma EditStep(raw: Block -> Page, img: Image, own: Owners, op: Op)
    requires WellFormed(img, own) && |img.blk| == NUM_BLOCKS
    requires op.OpChmod? || op.OpUtime? || op.OpTruncate?
    ensures TreeStep(raw, img, own, op)
  {
    hide WithLow, WellFormed, Chmod, Utime, Truncate, Abs;
    AbsWalk(img, own, op.path);
    PathExact(img, own, op.path);
    match op
    case OpChmod(p, mode) => ChmodWorks(img, own, p, mode);
    case OpUtime(p, mtime) => UtimeWorks(img, own, p, mtime);
    case OpTruncate(p, len) => TruncateWorks(img, own, p, len);
  }

  lemma WriteStep(raw: Block -> Page, img: Image, own: Owners, op: Op)
    requires WellFormed(img, own) && op.OpWrite? && |img.blk| == NUM_BLOCKS
    ensures TreeStep(raw, img, own, op)
  {
    var OpWrite(p, buf, off, now) := op;
    WriteAnswers(raw, img, own, p, buf, off, now);
    AbsWalk(img, own, p);
    if p in Abs(img) && Abs(img)[p].File? && off <= |Abs(img)[p].data| && off + |buf| <= MAX_FILE {
      if NewBlocks(|Abs(img)[p].data|, off + |buf|) <= |FreeBlocks(img.used)| {
        WriteWorks(raw, img, own, p, buf, off, now);
      } else {
        WriteAborts(raw, img, own, p, buf, off, now);
        WriteNoOwners(raw, img, own, p, buf, off, now);
      }
    } else {
      WriteNoOwners(raw, img, own, p, buf, off, now);
    }
  }

  lemma WriteNoOwners(raw: Block -> Page, img: Image, own: Owners, p: Path, buf: seq<Byte>, off: nat, now: nat)
    requires WellFormed(img, own) && |img.blk| == NUM_BLOCKS
    requires var r := Write(raw, img, p, buf, off, now).1;
             r == Aborted || !(p in Abs(img) && Abs(img)[p].File? && off <= |Abs(img)[p].data|
                 && off + |buf| <= MAX_FILE)
    ensures WriteOwners(raw, img, own, p, buf, off) == own
  {
    AbsWalk(img, own, p);
  }

  lemma TreeRefines(raw: Block -> Page, img: Image, own: Owners, op: Op)
    requires WellFormed(img, own) && Legal(op) && |img.blk| == NUM_BLOCKS
    ensures TreeStep(raw, img, own, op)
  {
    hide TreeStep;
    match op
    case OpCreate(_, _, _, _) => AddStep(raw, img, own, op);
    case OpMkdir(_, _, _, _) => AddStep(raw, img, own, op);
    case OpUnlink(_, _) => RemoveStep(raw, img, own, op);
    case OpRmdir(_, _) => RemoveStep(raw, img, own, op);
    case OpRename(_, _) => RenameStep(raw, img, own, op);
    case OpWrite(_, _, _, _) => WriteStep(raw, img, own, op);
    case _ => EditStep(raw, img, own, op);
  }

  /** Every call keeps the invariant and refines the abstract step, answer included. */
  lemma StepRefines(raw: Block -> Page, img: Image, own: Owners, op: Op)
    requires WellFormed(img, own) && Legal(op)
    ensures |img.blk| == NUM_BLOCKS && StepHolds(raw, img, own, op)
  {
    assert |img.blk| == NUM_BLOCKS;
    hide *;
    TreeRefines(raw, img, own, op);
    FreeStep(raw, img, own, op);
    Together(raw, img, own, op);
  }

  lemma Together(raw: Block -> Page, img: Image, own: Owners, op: Op)
    requires |img.blk| == NUM_BLOCKS && TreeStep(raw, img, own, op)
    requires var (img', r) := Apply(raw, img, op); |FreeBlocks(img'.used)| == FreeAfter(SeenIn(img), op, r)
    ensures StepHolds(raw, img, own, op)
  {
    hide WellFormed, Abs, Apply, OwnersAfter, Answer, Effect, FreeAfter, FreeBlocks, StepWalks;
  }

  // ---------- Whole runs ----------

  /** The disk after a run of calls, and the result of each. */
  ghost function Play(raw: Block -> Page, img: Image, ops: seq<Op>): (Image, seq<Result>)
    requires |img.blk| == NUM_BLOCKS
    decreases |ops|
  {
    if ops == [] then (img, [])
    else
      var (img1, r) := Apply(raw, img, ops[0]);
      if |img1.blk| != NUM_BLOCKS then (img1, [r])
      else
        var (img', rs) := Play(raw, img1, ops[1..]);
        (img', [r] + rs)
  }

  ghost function OwnersAll(raw: Block -> Page, img: Image, own: Owners, ops: seq<Op>): Owners
    requires |img.blk| == NUM_BLOCKS
    decreases |ops|
  {
    if ops == [] then own
    else
      var img1 := Apply(raw, img, ops[0]).0;
      if |img1.blk| != NUM_BLOCKS then own
      else OwnersAll(raw, img1, OwnersAfter(raw, img, own, ops[0]), ops[1..])
  }

  /** Over every run of legal calls from a well-formed disk the disk stays one singly-owned tree,
      and what a user sees is what the abstract file system shows: every answer, the tree, and the
      number of free blocks. */
  lemma {:induction false} HistoryRefines(raw: Block -> Page, img: Image, own: Owners, ops: seq<Op>)
    requires WellFormed(img, own) && |img.blk| == NUM_BLOCKS
    requires forall i :: 0 <= i < |ops| ==> Legal(ops[i])
    ensures var (img', rs) := Play(raw, img, ops);
            && WellFormed(img', OwnersAll(raw, img, own, ops))
            && (SeenIn(img'), rs) == AbstractRun(SeenIn(img), ops)
            && |rs| == |ops|
    decreases |ops|
  {
    hide WellFormed, Apply, OwnersAfter, AbstractStep, SeenIn, Legal, StepWalks;
    if ops != [] {
      var img1 := Apply(raw, img, ops[0]).0;
      StepRefines(raw, img, own, ops[0]);
      SizeOf(img1, OwnersAfter(raw, img, own, ops[0]));
      HistoryRefines(raw, img1, OwnersAfter(raw, img, own, ops[0]), ops[1..]);
    }
  }

  lemma SizeOf(img: Image, own: Owners)
    requires WellFormed(img, own)
    ensures |img.blk| == NUM_BLOCKS
  {
  }
}
