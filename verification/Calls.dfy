/** The updating calls as data: what each does to a disk, and what it answers and does to the
    tree a user sees. */
module Calls {
  import opened Layout
  import opened Paths
  import opened Volume
  import opened TreeEdits
  import opened Operations
  import opened Creation
  import opened LookupErrors
  import opened Updates
  import opened Unlinking
  import opened Deletion
  import opened Renaming
  import opened Writing

  datatype Op =
    | OpCreate(path: Path, mode: bv32, ctx: Caller, junk: Pointers)
    | OpMkdir(path: Path, mode: bv32, ctx: Caller, junk: Pointers)
    | OpUnlink(path: Path, now: nat)
    | OpRmdir(path: Path, now: nat)
    | OpRename(path: Path, dst: Path)
    | OpChmod(path: Path, mode: bv32)
    | OpUtime(path: Path, mtime: nat)
    | OpTruncate(path: Path, len: int)
    | OpWrite(path: Path, buf: seq<Byte>, off: nat, now: nat)

  /** What a caller must respect: canonical paths, a new name that fits its slot, and no attempt
      to remove the root. */
  predicate Legal(op: Op) {
    && Canonical(op.path)
    && (op.OpRename? ==> Canonical(op.dst) && (op.dst != [] ==> |Last(op.dst)| <= NAME_MAX))
    && (op.OpRmdir? ==> op.path != [])
  }

  lemma GoodLast(p: Path)
    requires Canonical(p)
    ensures p != [] && |Last(p)| <= NAME_MAX ==> GoodName(Last(p))
  {
  }

  ghost function Apply(raw: Block -> Page, img: Image, op: Op): (Image, Result)
    requires |img.blk| == NUM_BLOCKS
  {
    match op
    case OpCreate(p, mode, ctx, junk) => Create(img, p, mode, ctx, junk)
    case OpMkdir(p, mode, ctx, junk) => Mkdir(img, p, mode, ctx, junk)
    case OpUnlink(p, now) => Unlink(img, p, now)
    case OpRmdir(p, now) => Rmdir(img, p, now)
    case OpRename(src, dst) => Rename(img, src, dst)
    case OpChmod(p, mode) => Chmod(img, p, mode)
    case OpUtime(p, mtime) => Utime(img, p, mtime)
    case OpTruncate(p, len) => Truncate(img, p, len)
    case OpWrite(p, buf, off, now) => Write(raw, img, p, buf, off, now)
  }

  /** Who owns what after a call. */
  ghost function OwnersAfter(raw: Block -> Page, img: Image, own: Owners, op: Op): Owners
    requires |img.blk| == NUM_BLOCKS
  {
    var x := Walk(img, op.path);
    if op.OpWrite? then WriteOwners(raw, img, own, op.path, op.buf, op.off)
    else if Apply(raw, img, op).1 != Ret(0) || (x.None? && !op.OpCreate? && !op.OpMkdir?) then own
    else
      match op
      case OpCreate(p, _, _, _) => CreateOwners(img, own, p)
      case OpMkdir(p, _, _, _) => MkdirOwners(img, own, p)
      case OpUnlink(_, _) => Drop(own, x.value)
      case OpRmdir(_, _) => Drop(own, x.value)
      case OpTruncate(_, _) => DropExtents(own, x.value)
      case _ => own
  }

  /** What a call that gave result r did to the tree. */
  ghost function Effect(fs: Tree, op: Op, r: Result): Tree {
    var p := op.path;
    match op
    case OpCreate(_, mode, ctx, _) =>
      if r == Ret(0)
      then fs[p := File(Attr(ctx.uid, ctx.gid, WithLow(0x8000, mode), ctx.now, ctx.now), [])]
      else fs
    case OpMkdir(_, mode, ctx, _) =>
      if r == Ret(0)
      then fs[p := Directory(Attr(ctx.uid, ctx.gid, WithLow(0x4000, mode), ctx.now, ctx.now), BLOCK_SIZE)]
      else fs
    case OpUnlink(_, now) =>
      if r == Ret(0) && Parent(p) in fs then Without(Touched(fs, Parent(p), now), p) else fs
    case OpRmdir(_, now) =>
      if r == Ret(0) && Parent(p) in fs then Without(Touched(fs, Parent(p), now), p) else fs
    case OpRename(_, dst) =>
      if r == Ret(0) then Moved(fs, p, dst) else fs
    case OpChmod(_, mode) =>
      if r == Ret(0) && p in fs
      then fs[p := WithAttr(fs[p], fs[p].attr.(mode := WithLow(fs[p].attr.mode, mode)))]
      else fs
    case OpUtime(_, mtime) =>
      if r == Ret(0) && p in fs then fs[p := WithAttr(fs[p], fs[p].attr.(mtime := mtime))] else fs
    case OpTruncate(_, _) =>
      if r == Ret(0) && p in fs then fs[p := File(fs[p].attr, [])] else fs
    case OpWrite(_, buf, off, now) =>
      if p in fs && fs[p].File? && off <= |fs[p].data| then
        if r == Ret(|buf|) then fs[p := File(fs[p].attr.(mtime := now), Overlay(fs[p].data, off, buf))]
        else if r == Aborted then fs[p := File(fs[p].attr, Cut(Overlay(fs[p].data, off, buf), |fs[p].data|))]
        else fs
      else fs
  }

  function Cut(s: seq<Byte>, n: nat): seq<Byte> {
    if n <= |s| then s[..n] else s
  }

  // ---------- The abstract file system ----------

  /** What the answers depend on: the tree and the number of free blocks. */
  datatype Seen = Seen(tree: Tree, free: nat)

  ghost function SeenIn(img: Image): Seen {
    Seen(Abs(img), |FreeBlocks(img.used)|)
  }

  /** What a call answers. */
  ghost function Answer(s: Seen, op: Op): Result {
    var p, fs := op.path, s.tree;
    match op
    case OpCreate(_, _, _, _) => AddAnswer(fs, s.free, p, 1)
    case OpMkdir(_, _, _, _) => AddAnswer(fs, s.free, p, 2)
    case OpUnlink(_, _) => Ret(UnlinkError(fs, p))
    case OpRmdir(_, _) => Ret(RmdirError(fs, p))
    case OpRename(_, dst) => Ret(RenameError(fs, p, dst))
    case OpChmod(_, _) => Ret(if p in fs then 0 else -ENOENT)
    case OpUtime(_, _) => Ret(FileError(fs, p))
    case OpTruncate(_, len) => Ret(if len != 0 then -EINVAL else FileError(fs, p))
    case OpWrite(_, buf, off, _) => WriteCode(fs, s.free, p, |buf|, off)
  }

  /** The answer of a call that needs a file at p, or 0. */
  ghost function FileError(fs: Tree, p: Path): int {
    if p !in fs then PathCode(fs, p) else if fs[p].Directory? then -EISDIR else 0
  }

  /** The number of free blocks after a call that answered r. */
  ghost function FreeAfter(s: Seen, op: Op, r: Result): nat {
    var p, fs := op.path, s.tree;
    match op
    case OpCreate(_, _, _, _) => if PlaceError(fs, p) == 0 then Less(s.free, 1) else s.free
    case OpMkdir(_, _, _, _) => if PlaceError(fs, p) == 0 then Less(s.free, 2) else s.free
    case OpUnlink(_, _) =>
      if r == Ret(0) && p in fs && fs[p].File? then s.free + 1 + BlocksFor(|fs[p].data|) else s.free
    case OpRmdir(_, _) => if r == Ret(0) then s.free + 2 else s.free
    case OpTruncate(_, _) => if r == Ret(0) && p in fs && fs[p].File? then s.free + BlocksFor(|fs[p].data|) else s.free
    case OpWrite(_, buf, off, _) =>
      if p in fs && fs[p].File? && off <= |fs[p].data| && off + |buf| <= MAX_FILE
      then Less(s.free, NewBlocks(|fs[p].data|, off + |buf|))
      else s.free
    case _ => s.free
  }

  /** n less m, or as much of it as there is. */
  function Less(n: nat, m: nat): nat {
    if m <= n then n - m else 0
  }

  /** One call on the abstract file system. */
  ghost function AbstractStep(s: Seen, op: Op): (Seen, Result) {
    var r := Answer(s, op);
    (Seen(Effect(s.tree, op, r), FreeAfter(s, op, r)), r)
  }

  /** A run of calls on the abstract file system. */
  ghost function AbstractRun(s: Seen, ops: seq<Op>): (Seen, seq<Result>)
    decreases |ops|
  {
    if ops == [] then (s, [])
    else
      var (s1, r) := AbstractStep(s, ops[0]);
      var (s', rs) := AbstractRun(s1, ops[1..]);
      (s', [r] + rs)
  }

  /** Which inodes paths lead to after a call that answered r. */
  ghost predicate StepWalks(img: Image, img': Image, op: Op, r: Result) {
    if r != Ret(0) then SameWalks(img, img')
    else
      match op
      case OpCreate(p, _, _, _) => WalksPut(img, img', p, Some(FirstFree(img.used)))
      case OpMkdir(p, _, _, _) => WalksPut(img, img', p, Some(FirstFree(img.used)))
      case OpUnlink(p, _) => WalksPut(img, img', p, None)
      case OpRmdir(p, _) => WalksPut(img, img', p, None)
      case OpRename(src, dst) => WalksMoved(img, img', src, dst)
      case _ => SameWalks(img, img')
  }
}
