/** What the calls answer on any well-formed disk, in plain numbers: 2 is ENOENT, 17 EEXIST, 20
    ENOTDIR, 21 EISDIR, 22 EINVAL, 28 ENOSPC and 39 ENOTEMPTY; a block has 4096 bytes, a bitmap
    names 32768 blocks, a directory holds 128 names of at most 27 letters, a file 1019 blocks. */
module Numbers {
  import opened Layout
  import opened Volume
  import opened Lookup
  import opened TreeEdits
  import opened Operations
  import opened Creation
  import opened LookupErrors
  import opened Updates
  import opened Unlinking
  import opened Deletion
  import opened Renaming
  import opened Writing
  import opened Queries

  /** The unmarked blocks that can hold data. */
  function Unmarked(img: Image): set<nat> {
    set b: nat | 3 <= b < 32768 && b !in img.used
  }

  lemma SameFree(img: Image)
    ensures Unmarked(img) == FreeBlocks(img.used)
  {
  }

  /** 128 names lead on from directory d. */
  ghost predicate Crammed(fs: Tree, d: Path) {
    exists names: set<Name> :: |names| == 128 && AllBelow(fs, d, names)
  }

  /** The answer of create (need == 1) and mkdir (need == 2). */
  ghost predicate AddNumber(fs: Tree, free: nat, p: Path, need: nat, r: Result) {
    && (p in fs ==> r == Ret(-17))
    && (p !in fs && p != [] ==>
          && (|Last(p)| >= 28 ==> r == Ret(-22))
          && (|Last(p)| <= 27 && Parent(p) !in fs ==> r == Ret(-2))
          && (|Last(p)| <= 27 && Parent(p) in fs && fs[Parent(p)].File? ==> r == Ret(-20))
          && (|Last(p)| <= 27 && Parent(p) in fs && fs[Parent(p)].Directory? ==>
                r == if free < need then Aborted else if Crammed(fs, Parent(p)) then Ret(-22) else Ret(0)))
  }

  lemma AddNumbers(img: Image, own: Owners, p: Path, mode: bv32, ctx: Caller, junk: Pointers)
    requires WellFormed(img, own) && |img.blk| == 32768
    ensures AddNumber(Abs(img), |Unmarked(img)|, p, 1, Create(img, p, mode, ctx, junk).1)
    ensures AddNumber(Abs(img), |Unmarked(img)|, p, 2, Mkdir(img, p, mode, ctx, junk).1)
  {
    hide WellFormed, Abs, Create, Mkdir;
    SameFree(img);
    RootExists(img, own);
    CreateCode(img, own, p, mode, ctx, junk);
    MkdirCode(img, own, p, mode, ctx, junk);
    assert FullDir(Abs(img), Parent(p)) <==> Crammed(Abs(img), Parent(p));
  }

  /** The root is inode 2, and a new file gets the least unmarked block from 3 on. */
  lemma PlaceNumbers(img: Image, own: Owners, p: Path, mode: bv32, ctx: Caller, junk: Pointers)
    requires WellFormed(img, own) && |img.blk| == 32768 && (p != [] && |Last(p)| <= 27 ==> GoodName(Last(p)))
    requires Create(img, p, mode, ctx, junk).1 == Ret(0)
    ensures Walk(img, []) == Some(2)
    ensures var x := Walk(Create(img, p, mode, ctx, junk).0, p);
            x.Some? && 3 <= x.value < 32768 && x.value !in img.used && forall b :: 3 <= b < x.value ==> b in img.used
  {
    hide WellFormed, Abs, Create;
    RootExists(img, own);
    CreateWorks(img, own, p, mode, ctx, junk);
    CreateCode(img, own, p, mode, ctx, junk);
    assert IsLeast(FirstFree(img.used), FreeBlocks(img.used));
    forall b | 3 <= b < FirstFree(img.used) ensures b in img.used {
      assert b !in FreeBlocks(img.used);
    }
  }

  lemma RemoveNumbers(img: Image, own: Owners, p: Path, now: nat)
    requires WellFormed(img, own)
    ensures var fs, u, d := Abs(img), Unlink(img, p, now).1, Rmdir(img, p, now).1;
            && (Parent(p) !in fs ==> u == Ret(-2) && d == Ret(-2))
            && (Parent(p) in fs && fs[Parent(p)].File? ==> u == Ret(-20) && d == Ret(-20))
            && (Parent(p) in fs && fs[Parent(p)].Directory? && p !in fs ==> u == Ret(-2) && d == Ret(-2))
            && (p in fs && fs[p].File? ==> u == Ret(0) && d == Ret(-20))
            && (p in fs && fs[p].Directory? ==> u == Ret(-21) && d == Ret(if HasChildren(fs, p) then -39 else 0))
  {
    hide WellFormed, Abs, Unlink, Rmdir, HasChildren;
    UnlinkWorks(img, own, p, now);
    RmdirCode(img, own, p, now);
    if p in Abs(img) {
      ParentThere(img, own, p);
    }
  }

  lemma ParentThere(img: Image, own: Owners, p: Path)
    requires WellFormed(img, own) && p in Abs(img)
    ensures Parent(p) in Abs(img) && Abs(img)[Parent(p)].Directory?
  {
    AbsWalk(img, own, p);
    AbsWalk(img, own, Parent(p));
    RootExists(img, own);
  }

  /** The code of a path that is not there: a file on the way, or a short missing name below the
      root at the end of the path, or a long one before it, gives -20, anything else -2. */
  lemma LookupNumbers(img: Image, own: Owners, p: Path, j: nat)
    requires WellFormed(img, own) && j < |p| && p[..j] in Abs(img) && p[..j + 1] !in Abs(img)
    ensures var fs := Abs(img);
            Resolve(img, p) ==
              if fs[p[..j]].File? then -20
              else if j < |p| - 1 && |p[j]| >= 28 then -20
              else if 0 < j == |p| - 1 && |p[j]| <= 27 then -20
              else -2
  {
    AbsWalk(img, own, p[..j]);
    AbsWalk(img, own, p[..j + 1]);
    hide WellFormed, Abs, Walk;
    LookupErrorExact(img, own, p, j);
  }

  lemma EditNumbers(img: Image, own: Owners, p: Path, mode: bv32, mtime: nat, len: int)
    requires WellFormed(img, own)
    ensures var fs, c, u, t := Abs(img), Chmod(img, p, mode).1, Utime(img, p, mtime).1, Truncate(img, p, len).1;
            && (p in fs ==> c == Ret(0) && u == Ret(if fs[p].File? then 0 else -21))
            && (p !in fs ==> c == Ret(-2) && u == Ret(Resolve(img, p)))
            && (len != 0 ==> t == Ret(-22))
            && (len == 0 ==> t == if p !in fs then Ret(Resolve(img, p)) else Ret(if fs[p].File? then 0 else -21))
  {
    hide WellFormed, Abs, Chmod, Utime, Truncate, WithLow;
    PathExact(img, own, p);
    ChmodWorks(img, own, p, mode);
    UtimeWorks(img, own, p, mtime);
    TruncateWorks(img, own, p, len);
  }

  lemma RenameNumbers(img: Image, own: Owners, src: Path, dst: Path)
    requires WellFormed(img, own) && (dst != [] ==> GoodName(Last(dst)))
    ensures var fs, r := Abs(img), Rename(img, src, dst).1;
            && (src !in fs ==> r == Ret(if Resolve(img, src) == -20 then -22 else -2))
            && (src in fs && dst in fs ==> r == Ret(-17))
            && (src in fs && dst !in fs ==>
                  r == Ret(if |src| == |dst| && Parent(src) == Parent(dst) then 0 else -22))
  {
    hide WellFormed, Abs, Rename;
    PathExact(img, own, src);
    RenameWorks(img, own, src, dst);
  }

  /** A file never exceeds 4173824 bytes; a write takes the blocks of 4096 bytes it lacks. */
  lemma WriteNumbers(raw: Block -> Page, img: Image, own: Owners, p: Path, buf: seq<Byte>, off: nat, now: nat)
    requires WellFormed(img, own) && |img.blk| == 32768
    ensures var fs, r := Abs(img), Write(raw, img, p, buf, off, now).1;
            && (p !in fs ==> r == Ret(Resolve(img, p)))
            && (p in fs && fs[p].Directory? ==> r == Ret(-21))
            && (p in fs && fs[p].File? ==>
                  var size := |fs[p].data|;
                  && (off > size ==> r == Ret(0))
                  && (off <= size && off + |buf| > 4173824 ==> r == Ret(-28))
                  && (off <= size && off + |buf| <= 4173824 ==>
                        var end := if size < off + |buf| then off + |buf| else size;
                        r == if (end + 4095) / 4096 - (size + 4095) / 4096 > |Unmarked(img)| then Aborted
                            else Ret(|buf|)))
  {
    hide WellFormed, Abs, Write;
    SameFree(img);
    PathExact(img, own, p);
    WriteAnswers(raw, img, own, p, buf, off, now);
  }

  lemma ReadNumbers(img: Image, own: Owners, p: Path, len: nat, off: nat)
    requires WellFormed(img, own)
    ensures var fs, d, g, l := Abs(img), Read(img, p, len, off), Getattr(img, p), Readdir(img, p);
            && (p !in fs ==> d.0 == g.0 == Ret(Resolve(img, p)) && l.0 == Ret(-2))
            && (p in fs ==> g.0 == Ret(0))
            && (p in fs && fs[p].Directory? ==> d.0 == Ret(-21) && l.0 == Ret(0))
            && (p in fs && fs[p].File? ==> l.0 == Ret(-20))
  {
    hide WellFormed, Abs, Read, Getattr, Readdir;
    PathExact(img, own, p);
    ReadExact(img, own, p, len, off);
    GetattrExact(img, own, p);
    ReaddirExact(img, own, p);
  }
}
