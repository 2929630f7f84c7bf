/** chmod, utime and truncate: exact return codes, the invariant, and the change to the tree. */
module Updates {
  import opened Layout
  import opened Volume
  import opened Lookup
  import opened TreeEdits
  import opened Operations
  import opened Creation
  import opened LookupErrors
  import opened Rewriting

  /** The same live blocks with the same contents make the same file. */
  lemma ContentsSame(img: Image, img': Image, own: Owners, f: nat, n: Inode, n': Inode)
    requires WellFormed(img, own) && IsNode(own, f) && IsInode(img, f) && NodeOf(img, f) == n && !IsDir(n.attr.mode)
    requires n'.size == n.size && n'.ptrs == n.ptrs && |img'.blk| == |img.blk|
    requires forall b: nat :: b in own && own[b].Extent? && b < |img.blk| ==> img'.blk[b] == img.blk[b]
    ensures Contents(img', n') == Contents(img, n)
  {
    DirTable(img, own, f);
    forall i | 0 <= i < n.size ensures ByteAt(img', n.ptrs, i) == ByteAt(img, n.ptrs, i) {
      assert GoodBlock(img, own, n.ptrs[i / BLOCK_SIZE]);
    }
  }

  // ---------- attributes ----------

  function WithAttr(e: Entity, attr: Attr): Entity {
    if e.File? then File(attr, e.data) else Directory(attr, e.size)
  }

  lemma SetAttrRewritten(img: Image, own: Owners, m: nat, attr: Attr)
    requires WellFormed(img, own) && IsNode(own, m) && IsInode(img, m)
    requires IsDir(attr.mode) == IsDir(NodeOf(img, m).attr.mode) && IsReg(attr.mode) == IsReg(NodeOf(img, m).attr.mode)
    ensures Rewritten(img, SetAttr(img, m, attr), own, own, m, NodeOf(img, m).(attr := attr))
  {
    assert GoodBlock(img, own, m);
    DirTable(img, own, m);
    forall b | b in own && own[b].Extent? && own[b].file == m ensures GoodBlock(img, own, b) {
    }
  }

  /** Changing an inode's attributes, but not its kind, changes just those attributes. */
  lemma SetAttrWorks(img: Image, own: Owners, p: Path, attr: Attr)
    requires WellFormed(img, own) && p in Abs(img)
    requires IsDir(attr.mode) == IsDir(Abs(img)[p].attr.mode) && IsReg(attr.mode) == IsReg(Abs(img)[p].attr.mode)
    ensures var m := Walk(img, p).value;
            && IsNode(own, m) && IsInode(img, m) && NodeOf(img, m).attr == Abs(img)[p].attr
            && WellFormed(SetAttr(img, m, attr), own) && SameWalks(img, SetAttr(img, m, attr))
            && Abs(SetAttr(img, m, attr)) == Abs(img)[p := WithAttr(Abs(img)[p], attr)]
  {
    AbsWalk(img, own, p);
    var m := Walk(img, p).value;
    var n := NodeOf(img, m);
    var img', n' := SetAttr(img, m, attr), n.(attr := attr);
    SetAttrRewritten(img, own, m, attr);
    RewrittenKeeps(img, img', own, own, m, n');
    RewrittenAbs(img, img', own, own, m, n', p);
    if !IsDir(n.attr.mode) {
      forall b: nat | b in own && own[b].Extent? && b < |img.blk| ensures img'.blk[b] == img.blk[b] {
        assert GoodBlock(img, own, b);
      }
      ContentsSame(img, img', own, m, n, n');
    }
  }

  /** chmod answers 0 exactly when the path exists, and then replaces the low twelve mode bits there
      and nothing else. */
  lemma ChmodWorks(img: Image, own: Owners, p: Path, mode: bv32)
    requires WellFormed(img, own)
    ensures var (img', r) := Chmod(img, p, mode);
            && WellFormed(img', own) && img'.used == img.used && SameWalks(img, img')
            && if p in Abs(img)
               then
                 var a := Abs(img)[p].attr;
                 var a' := a.(mode := WithLow(a.mode, mode));
                 r == Ret(0) && Abs(img') == Abs(img)[p := WithAttr(Abs(img)[p], a')]
               else r == Ret(-ENOENT) && img' == img
  {
    hide WithLow, ChangeMode, IsDir, IsReg;
    AbsWalk(img, own, p);
    if p in Abs(img) {
      var a := Abs(img)[p].attr;
      ModeKinds(a.mode, mode);
      StoredModes(a.mode, mode);
      SetAttrWorks(img, own, p, a.(mode := ChangeMode(a.mode, mode)));
    }
  }

  /** The changed mode as a number: the low twelve bits asked for, all others as before. */
  lemma ChmodMode(img: Image, own: Owners, p: Path, mode: bv32)
    requires WellFormed(img, own) && p in Abs(img)
    ensures var fs := Abs(Chmod(img, p, mode).0);
            && p in fs
            && fs[p].attr.mode as int % 0x1000 == mode as int % 0x1000
            && fs[p].attr.mode as int / 0x1000 == Abs(img)[p].attr.mode as int / 0x1000
  {
    hide WellFormed, Chmod, Abs, WithLow;
    ChmodWorks(img, own, p, mode);
    WithLowValue(Abs(img)[p].attr.mode, mode);
  }

  /** utime sets the modification time of an existing file and refuses everything else. */
  lemma UtimeWorks(img: Image, own: Owners, p: Path, mtime: nat)
    requires WellFormed(img, own)
    ensures var (img', r) := Utime(img, p, mtime);
            && WellFormed(img', own) && img'.used == img.used && SameWalks(img, img')
            && if p in Abs(img) && Abs(img)[p].File?
               then r == Ret(0) && Abs(img') == Abs(img)[p := WithAttr(Abs(img)[p], Abs(img)[p].attr.(mtime := mtime))]
               else img' == img && r == if p in Abs(img) then Ret(-EISDIR) else Ret(PathCode(Abs(img), p))
  {
    AbsWalk(img, own, p);
    PathExact(img, own, p);
    if p in Abs(img) && Abs(img)[p].File? {
      SetAttrWorks(img, own, p, Abs(img)[p].attr.(mtime := mtime));
    }
  }

  // ---------- truncate ----------

  function DropExtents(own: Owners, f: nat): Owners {
    map b | b in own && Other(own, f, b) :: own[b]
  }

  /** The blocks truncate and unlink free are exactly the live pointers the file owns. */
  lemma ExtentsOwned(img: Image, own: Owners, f: nat, b: nat)
    requires WellFormed(img, own) && IsNode(own, f) && IsInode(img, f) && !IsDir(NodeOf(img, f).attr.mode)
    ensures b in Extents(NodeOf(img, f)) <==> b in own && own[b].Extent? && own[b].file == f
  {
    DirTable(img, own, f);
    if b in own && own[b].Extent? {
      assert GoodBlock(img, own, b);
    }
  }

  lemma TruncateRewritten(img: Image, own: Owners, f: nat)
    requires WellFormed(img, own) && IsNode(own, f) && IsInode(img, f) && !IsDir(NodeOf(img, f).attr.mode)
    ensures var n := NodeOf(img, f);
            var img' := Image(img.used - Extents(n), img.blk[f := INode(n.(size := 0))]);
            Rewritten(img, img', own, DropExtents(own, f), f, n.(size := 0))
  {
    DirTable(img, own, f);
    var n := NodeOf(img, f);
    forall b | b in DropExtents(own, f) ensures b !in Extents(n) {
      ExtentsOwned(img, own, f, b);
    }
    forall b | b in {0, 1} ensures b !in Extents(n) {
      ExtentsOwned(img, own, f, b);
      assert b in own ==> GoodBlock(img, own, b);
    }
    forall b | Other(own, f, b) ensures Other(DropExtents(own, f), f, b) {
    }
  }

  /** truncate to length 0 empties an existing file, keeps its attributes, and frees its blocks. */
  lemma TruncateWorks(img: Image, own: Owners, p: Path, len: int)
    requires WellFormed(img, own)
    ensures var (img', r) := Truncate(img, p, len);
            if len == 0 && p in Abs(img) && Abs(img)[p].File?
            then var f := Walk(img, p).value;
                 && r == Ret(0) && IsInode(img, f)
                 && WellFormed(img', DropExtents(own, f)) && SameWalks(img, img')
                 && Abs(img') == Abs(img)[p := File(Abs(img)[p].attr, [])]
                 && img'.used == img.used - Extents(NodeOf(img, f))
            else img' == img && r == if len != 0 then Ret(-EINVAL)
                                     else if p in Abs(img) then Ret(-EISDIR)
                                     else Ret(PathCode(Abs(img), p))
  {
    AbsWalk(img, own, p);
    PathExact(img, own, p);
    if len == 0 && p in Abs(img) && Abs(img)[p].File? {
      var f := Walk(img, p).value;
      var n := NodeOf(img, f);
      var img' := Truncate(img, p, len).0;
      TruncateRewritten(img, own, f);
      RewrittenKeeps(img, img', own, DropExtents(own, f), f, n.(size := 0));
      RewrittenAbs(img, img', own, DropExtents(own, f), f, n.(size := 0), p);
    }
  }
}
