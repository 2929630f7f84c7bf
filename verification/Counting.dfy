/** What each call marks and frees, and the number of free blocks after it. */
module Counting {
  import opened Layout
  import opened Volume
  import opened Lookup
  import opened Operations
  import opened Creation
  import opened LookupErrors
  import opened Updates
  import opened Unlinking
  import opened Deletion
  import opened Renaming
  import opened Writing
  import opened Calls

  lemma {:induction false} PointerCount(ptrs: Pointers, n: nat) returns (s: set<nat>)
    requires n <= NUM_PTRS && forall i, j :: 0 <= i < j < n ==> ptrs[i] != ptrs[j]
    ensures s == (set i | 0 <= i < NUM_PTRS && i < n :: ptrs[i]) && |s| == n
    decreases n
  {
    if n == 0 {
      s := {};
    } else {
      var t := PointerCount(ptrs, n - 1);
      s := t + {ptrs[n - 1]};
    }
  }

  lemma ExtentCount(img: Image, own: Owners, f: nat)
    requires WellFormed(img, own) && IsNode(own, f) && IsInode(img, f) && !IsDir(NodeOf(img, f).attr.mode)
    ensures |Extents(NodeOf(img, f))| == BlocksFor(NodeOf(img, f).size)
  {
    DirTable(img, own, f);
    var n := NodeOf(img, f);
    BlocksForLeast(n.size, NUM_PTRS);
    var s := PointerCount(n.ptrs, BlocksFor(n.size));
    assert s == Extents(n);
  }

  lemma FreeAfterMarking(used: set<nat>, s: set<nat>)
    requires s <= FreeBlocks(used)
    ensures |FreeBlocks(used + s)| == |FreeBlocks(used)| - |s|
  {
    assert FreeBlocks(used + s) == FreeBlocks(used) - s;
  }

  lemma FreeAfterFreeing(used: set<nat>, s: set<nat>)
    requires s <= used && forall b :: b in s ==> FIRST_DATA <= b < NUM_BLOCKS
    ensures |FreeBlocks(used - s)| == |FreeBlocks(used)| + |s|
  {
    assert FreeBlocks(used - s) == FreeBlocks(used) + s;
    assert FreeBlocks(used) !! s;
  }

  // ---------- What create and mkdir mark ----------

  lemma OwnedUsed(img: Image, own: Owners)
    requires WellFormed(img, own)
    ensures 0 in img.used && 1 in img.used && (forall b :: b in own ==> b in img.used)
    ensures 0 !in own && 1 !in own
  {
    assert 0 in own ==> GoodBlock(img, own, 0);
    assert 1 in own ==> GoodBlock(img, own, 1);
  }

  lemma CreateMarks(img: Image, own: Owners, p: Path, mode: bv32, ctx: Caller, junk: Pointers)
    requires WellFormed(img, own) && |img.blk| == NUM_BLOCKS
    ensures [] in Abs(img)
    ensures var (img', r) := Create(img, p, mode, ctx, junk);
            var own' := if r == Ret(0) then CreateOwners(img, own, p) else own;
            var marked := if PlaceError(Abs(img), p) == 0 && FreeBlocks(img.used) != {} then {FirstFree(img.used)}
                          else {};
            && img'.used == img.used + marked && marked !! img.used
            && own'.Keys == (if r == Ret(0) then own.Keys + marked else own.Keys)
  {
    hide WellFormed, Create, CreateOwners, Abs, ParentFull, FirstFree, NewPlace;
    CreateCode(img, own, p, mode, ctx, junk);
    if FreeBlocks(img.used) != {} {
      FirstFreeFresh(img.used);
    }
    if Create(img, p, mode, ctx, junk).1 == Ret(0) {
      CreateTook(img, own, p, mode, ctx, junk);
    } else {
      CreateFails(img, own, p, mode, ctx, junk);
    }
  }

  lemma CreateTook(img: Image, own: Owners, p: Path, mode: bv32, ctx: Caller, junk: Pointers)
    requires |img.blk| == NUM_BLOCKS && Create(img, p, mode, ctx, junk).1 == Ret(0)
    ensures Create(img, p, mode, ctx, junk).0.used == img.used + {FirstFree(img.used)}
    ensures CreateOwners(img, own, p).Keys == own.Keys + {FirstFree(img.used)}
  {
    hide NewPlace, FirstFree;
  }

  lemma MkdirMarks(img: Image, own: Owners, p: Path, mode: bv32, ctx: Caller, junk: Pointers)
    requires WellFormed(img, own) && |img.blk| == NUM_BLOCKS
    ensures [] in Abs(img)
    ensures var (img', r) := Mkdir(img, p, mode, ctx, junk);
            var (inum, table) := DirBlocks(img.used);
            var own' := if r == Ret(0) then MkdirOwners(img, own, p) else own;
            var marked := if PlaceError(Abs(img), p) < 0 || FreeBlocks(img.used) == {} then {}
                          else if |FreeBlocks(img.used)| == 1 then {inum} else {inum, table};
            && img'.used == img.used + marked && marked !! img.used
            && own'.Keys == (if r == Ret(0) then own.Keys + marked else own.Keys)
  {
    hide WellFormed, Mkdir, MkdirOwners, Abs, ParentFull, FirstFree, NewPlace;
    MkdirCode(img, own, p, mode, ctx, junk);
    DirBlocksFresh(img.used);
    if Mkdir(img, p, mode, ctx, junk).1 == Ret(0) {
      MkdirTook(img, own, p, mode, ctx, junk);
    } else {
      MkdirFails(img, own, p, mode, ctx, junk);
    }
  }

  lemma MkdirTook(img: Image, own: Owners, p: Path, mode: bv32, ctx: Caller, junk: Pointers)
    requires |img.blk| == NUM_BLOCKS && Mkdir(img, p, mode, ctx, junk).1 == Ret(0)
    ensures var (inum, table) := DirBlocks(img.used);
            && Mkdir(img, p, mode, ctx, junk).0.used == img.used + {inum, table}
            && MkdirOwners(img, own, p).Keys == own.Keys + {inum, table}
  {
    hide NewPlace, FirstFree;
  }

  lemma OneBlock(used: set<nat>)
    requires FreeBlocks(used) != {}
    ensures |FreeBlocks(used + {FirstFree(used)})| == |FreeBlocks(used)| - 1
  {
    FreeAfterMarking(used, {FirstFree(used)});
  }

  lemma TwoBlocks(used: set<nat>)
    requires |FreeBlocks(used)| >= 2
    ensures var (inum, table) := DirBlocks(used);
            |FreeBlocks(used + {inum, table})| == |FreeBlocks(used)| - 2
  {
    var (inum, table) := DirBlocks(used);
    DirBlocksFresh(used);
    FreeAfterMarking(used, {inum});
    FreeAfterMarking(used + {inum}, {table});
    assert used + {inum} + {table} == used + {inum, table};
  }

  lemma CreateSpace(img: Image, own: Owners, p: Path, mode: bv32, ctx: Caller, junk: Pointers)
    requires WellFormed(img, own) && |img.blk| == NUM_BLOCKS
    ensures var free := |FreeBlocks(img.used)|;
            |FreeBlocks(Create(img, p, mode, ctx, junk).0.used)| ==
              if PlaceError(Abs(img), p) == 0 then Less(free, 1) else free
  {
    hide WellFormed, Create, Abs, PlaceError, FirstFree, CreateOwners;
    CreateMarks(img, own, p, mode, ctx, junk);
    assert img.used + {} == img.used;
    if FreeBlocks(img.used) != {} {
      OneBlock(img.used);
    }
  }

  lemma MkdirSpace(img: Image, own: Owners, p: Path, mode: bv32, ctx: Caller, junk: Pointers)
    requires WellFormed(img, own) && |img.blk| == NUM_BLOCKS
    ensures var free := |FreeBlocks(img.used)|;
            |FreeBlocks(Mkdir(img, p, mode, ctx, junk).0.used)| ==
              if PlaceError(Abs(img), p) == 0 then Less(free, 2) else free
  {
    hide WellFormed, Mkdir, Abs, PlaceError, FirstFree, MkdirOwners;
    MkdirMarks(img, own, p, mode, ctx, junk);
    PlaceSign(Abs(img), p);
    assert img.used + {} == img.used;
    if |FreeBlocks(img.used)| >= 2 {
      TwoBlocks(img.used);
    } else if FreeBlocks(img.used) != {} {
      OneBlock(img.used);
    }
  }

  lemma PlaceSign(fs: Tree, p: Path)
    ensures PlaceError(fs, p) <= 0
  {
  }

  // ---------- What unlink, rmdir and truncate free ----------

  lemma RootIsDir(img: Image, own: Owners, p: Path)
    requires WellFormed(img, own) && p in Abs(img) && (p != [] || Abs(img)[p].File?)
    ensures Walk(img, p).Some? && Walk(img, p).value != ROOT
  {
    AbsWalk(img, own, p);
    RootExists(img, own);
    if Walk(img, p) == Some(ROOT) {
      WalkUnique(img, own, p, []);
    }
  }

  lemma OwnedRange(img: Image, own: Owners, b: nat)
    requires WellFormed(img, own) && b in own && b != ROOT
    ensures FIRST_DATA <= b < NUM_BLOCKS && b in img.used
  {
    assert GoodBlock(img, own, b);
  }

  lemma ExtentRange(img: Image, own: Owners, f: nat)
    requires WellFormed(img, own) && IsNode(own, f) && IsInode(img, f) && !IsDir(NodeOf(img, f).attr.mode)
    ensures forall b :: b in Extents(NodeOf(img, f)) ==> FIRST_DATA <= b < NUM_BLOCKS && b in img.used
    ensures f !in Extents(NodeOf(img, f))
  {
    forall b | b in Extents(NodeOf(img, f)) ensures FIRST_DATA <= b < NUM_BLOCKS && b in img.used && b != f {
      ExtentsOwned(img, own, f, b);
      OwnedRange(img, own, b);
    }
  }

  lemma TruncateSpace(img: Image, own: Owners, p: Path, len: int)
    requires WellFormed(img, own) && Truncate(img, p, len).1 == Ret(0)
    ensures p in Abs(img) && Abs(img)[p].File?
    ensures |FreeBlocks(Truncate(img, p, len).0.used)| == |FreeBlocks(img.used)| + BlocksFor(|Abs(img)[p].data|)
  {
    hide WellFormed, Truncate, Abs, FreeBlocks, Extents;
    TruncateWorks(img, own, p, len);
    PathExact(img, own, p);
    AbsWalk(img, own, p);
    var f := Walk(img, p).value;
    ExtentCount(img, own, f);
    ExtentRange(img, own, f);
    FreeAfterFreeing(img.used, Extents(NodeOf(img, f)));
  }

  lemma UnlinkSpace(img: Image, own: Owners, p: Path, now: nat)
    requires WellFormed(img, own) && UnlinkError(Abs(img), p) == 0
    ensures |FreeBlocks(Unlink(img, p, now).0.used)| == |FreeBlocks(img.used)| + 1 + BlocksFor(|Abs(img)[p].data|)
  {
    hide WellFormed, Unlink, Abs, FreeBlocks, Extents, Drop;
    UnlinkWorks(img, own, p, now);
    AbsWalk(img, own, p);
    var f := Walk(img, p).value;
    RootIsDir(img, own, p);
    FreedFile(img, own, f);
    ExtentCount(img, own, f);
    ExtentRange(img, own, f);
    NodeRange(img, own, f);
    FreeAfterFreeing(img.used, Extents(NodeOf(img, f)) + {f});
  }

  lemma NodeRange(img: Image, own: Owners, x: nat)
    requires WellFormed(img, own) && IsNode(own, x) && x != ROOT
    ensures FIRST_DATA <= x < NUM_BLOCKS && x in img.used
    ensures HasDir(img, x) ==>
              var t := TableOf(img, x);
              FIRST_DATA <= t < NUM_BLOCKS && t in img.used && t != x
  {
    OwnedRange(img, own, x);
    DirTable(img, own, x);
    if HasDir(img, x) {
      OwnedRange(img, own, TableOf(img, x));
    }
  }

  lemma RmdirSpace(img: Image, own: Owners, p: Path, now: nat)
    requires WellFormed(img, own) && p != [] && RmdirError(Abs(img), p) == 0
    ensures |FreeBlocks(Rmdir(img, p, now).0.used)| == |FreeBlocks(img.used)| + 2
  {
    hide WellFormed, Rmdir, Abs, FreeBlocks;
    RmdirWorks(img, own, p, now);
    AbsWalk(img, own, p);
    RootIsDir(img, own, p);
    var x := Walk(img, p).value;
    NodeRange(img, own, x);
    FreeAfterFreeing(img.used, {TableOf(img, x), x});
  }

  // ---------- All calls ----------

  lemma WriteSpace(raw: Block -> Page, img: Image, own: Owners, p: Path, buf: seq<Byte>, off: nat, now: nat)
    requires WellFormed(img, own) && |img.blk| == NUM_BLOCKS
    ensures var fs, free := Abs(img), |FreeBlocks(img.used)|;
            |FreeBlocks(Write(raw, img, p, buf, off, now).0.used)| ==
              if p in fs && fs[p].File? && off <= |fs[p].data| && off + |buf| <= MAX_FILE
              then Less(free, NewBlocks(|fs[p].data|, off + |buf|))
              else free
  {
    hide WellFormed, Write, Abs, NewBlocks, Overlay;
    WriteAnswers(raw, img, own, p, buf, off, now);
    if p in Abs(img) && Abs(img)[p].File? && off <= |Abs(img)[p].data| && off + |buf| <= MAX_FILE {
      if NewBlocks(|Abs(img)[p].data|, off + |buf|) <= |FreeBlocks(img.used)| {
        WriteWorks(raw, img, own, p, buf, off, now);
      } else {
        WriteAborts(raw, img, own, p, buf, off, now);
      }
    }
  }

  /** The number of free blocks after any call follows from the tree and the number before it. */
  lemma FreeStep(raw: Block -> Page, img: Image, own: Owners, op: Op)
    requires WellFormed(img, own) && Legal(op) && |img.blk| == NUM_BLOCKS
    ensures var (img', r) := Apply(raw, img, op);
            |FreeBlocks(img'.used)| == FreeAfter(SeenIn(img), op, r)
  {
    hide WellFormed, Create, Mkdir, Unlink, Rmdir, Rename, Chmod, Utime, Truncate, Write, Abs, FreeBlocks, PlaceError,
        UnlinkError, RmdirError, RenameError;
    match op
    case OpCreate(p, mode, ctx, junk) => CreateSpace(img, own, p, mode, ctx, junk);
    case OpMkdir(p, mode, ctx, junk) => MkdirSpace(img, own, p, mode, ctx, junk);
    case OpUnlink(p, now) =>
      UnlinkWorks(img, own, p, now);
      UnlinkSign(Abs(img), p);
      if UnlinkError(Abs(img), p) == 0 {
        UnlinkSpace(img, own, p, now);
      }
    case OpRmdir(p, now) =>
      RmdirCode(img, own, p, now);
      RmdirSign(Abs(img), p);
      if RmdirError(Abs(img), p) == 0 {
        RmdirSpace(img, own, p, now);
      }
    case OpRename(src, dst) =>
      GoodLast(dst);
      RenameWorks(img, own, src, dst);
    case OpChmod(p, mode) => ChmodWorks(img, own, p, mode);
    case OpUtime(p, mtime) => UtimeWorks(img, own, p, mtime);
    case OpTruncate(p, len) =>
      TruncateWorks(img, own, p, len);
      if Truncate(img, p, len).1 == Ret(0) {
        TruncateSpace(img, own, p, len);
      }
    case OpWrite(p, buf, off, now) => WriteSpace(raw, img, own, p, buf, off, now);
  }

  lemma UnlinkSign(fs: Tree, p: Path)
    ensures UnlinkError(fs, p) <= 0
    ensures UnlinkError(fs, p) == 0 ==> p in fs && fs[p].File?
  {
  }

  lemma RmdirSign(fs: Tree, p: Path)
    ensures RmdirError(fs, p) <= 0
    ensures RmdirError(fs, p) == 0 ==> p in fs && fs[p].Directory?
  {
  }
}
