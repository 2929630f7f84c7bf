/** How one changed directory entry changes the result of every path walk. */
module TreeEdits {
  import opened Layout
  import opened Volume
  import opened Lookup

  /** A node whose inode and live blocks are untouched looks the same. */
  lemma ViewSame(img: Image, img': Image, own: Owners, m: nat)
    requires IsInode(img, m) && IsInode(img', m) && NodeOf(img', m) == NodeOf(img, m)
    requires WellFormed(img, own) && IsNode(own, m) && |img'.blk| == |img.blk|
    requires forall b :: b in own && own[b].Extent? && own[b].file == m && b < |img.blk| ==> img'.blk[b] == img.blk[b]
    ensures ViewOf(img', NodeOf(img', m)) == ViewOf(img, NodeOf(img, m))
  {
    DirTable(img, own, m);
    var n := NodeOf(img, m);
    if !IsDir(n.attr.mode) {
      forall i | 0 <= i < n.size ensures ByteAt(img', n.ptrs, i) == ByteAt(img, n.ptrs, i) {
        assert GoodBlock(img, own, n.ptrs[i / BLOCK_SIZE]);
      }
    }
  }

  /** Changes to blocks nothing owns, and marks added to the bitmap, are invisible. */
  ghost predicate SameOwned(img: Image, img': Image, own: Owners) {
    && |img'.blk| == |img.blk| == NUM_BLOCKS
    && (forall b :: b in own && b < NUM_BLOCKS ==> img'.blk[b] == img.blk[b])
    && img.used <= img'.used
    && (forall b :: b in img'.used ==> b < NUM_BLOCKS)
  }

  lemma SameOwnedDir(img: Image, img': Image, own: Owners, m: nat)
    requires WellFormed(img, own) && SameOwned(img, img', own) && IsNode(own, m)
    ensures IsInode(img', m) && IsInode(img, m) && NodeOf(img', m) == NodeOf(img, m)
    ensures HasDir(img', m) == HasDir(img, m)
    ensures HasDir(img, m) ==> TableOf(img', m) == TableOf(img, m) && SlotsOf(img', m) == SlotsOf(img, m)
  {
    DirTable(img, own, m);
  }

  lemma SameOwnedKeeps(img: Image, img': Image, own: Owners)
    requires WellFormed(img, own) && SameOwned(img, img', own)
    ensures WellFormed(img', own)
  {
    forall b | b in own ensures GoodBlock(img', own, b) {
      assert GoodBlock(img, own, b);
      hide GoodInode, GoodSlots;
      match own[b]
      case Root =>
      case Entry(m, _, _) => SameOwnedDir(img, img', own, m);
      case Table(m) => SameOwnedDir(img, img', own, m);
      case Spare(m, _) => SameOwnedDir(img, img', own, m);
      case Extent(f, _) => SameOwnedDir(img, img', own, f);
    }
  }

  /** Every path leads to the inode it led to. */
  ghost predicate SameWalks(img: Image, img': Image) {
    forall q :: Walk(img', q) == Walk(img, q)
  }

  /** Path p leads to x, or nowhere; every other path leads to the inode it led to. */
  ghost predicate WalksPut(img: Image, img': Image, p: Path, x: Option<nat>) {
    forall q :: Walk(img', q) == if q == p then x else Walk(img, q)
  }

  lemma SameOwnedAbs(img: Image, img': Image, own: Owners)
    requires WellFormed(img, own) && SameOwned(img, img', own)
    ensures Abs(img') == Abs(img) && SameWalks(img, img')
  {
    forall m, n | IsNode(own, m) ensures Child(img', m, n) == Child(img, m, n) {
      SameOwnedDir(img, img', own, m);
    }
    forall q ensures At(img', q) == At(img, q) && Walk(img', q) == Walk(img, q) {
      WalkSame(img, img', own, q);
      WalkNode(img, own, q);
      if Walk(img, q).Some? {
        SameOwnedDir(img, img', own, Walk(img, q).value);
        ViewSame(img, img', own, Walk(img, q).value);
      }
    }
  }

  lemma AbsPut(img: Image, img': Image, p: Path, e: Entity)
    requires forall q :: At(img', q) == if q == p then Some(e) else At(img, q)
    ensures Abs(img') == Abs(img)[p := e]
  {
  }

  ghost predicate SameLinks(img: Image, img': Image, own: Owners) {
    forall m, n :: IsNode(own, m) ==> Child(img', m, n) == Child(img, m, n)
  }

  /** The links of img' are those of img, with directory par's `name` now leading to `to`. */
  ghost predicate Relinked(img: Image, img': Image, own: Owners, par: nat, name: Name, to: Option<nat>) {
    forall m, n :: IsNode(own, m) ==>
      Child(img', m, n) == if m == par && n == name then to else Child(img, m, n)
  }

  ghost predicate Childless(img: Image, m: nat) {
    forall n :: Child(img, m, n) == None
  }

  lemma {:induction false} WalkSame(img: Image, img': Image, own: Owners, q: Path)
    requires WellFormed(img, own) && SameLinks(img, img', own)
    ensures Walk(img', q) == Walk(img, q)
    decreases |q|
  {
    if q != [] {
      WalkSame(img, img', own, Parent(q));
      WalkNode(img, own, Parent(q));
    }
  }

  /** Adding an entry for an inode without children adds one path and changes no other. */
  lemma {:induction false} WalkAdded(img: Image, img': Image, own: Owners, p: Path, par: nat, inum: nat, q: Path)
    requires WellFormed(img, own) && p != []
    requires Walk(img, Parent(p)) == Some(par) && Walk(img, p) == None
    requires Relinked(img, img', own, par, Last(p), Some(inum)) && Childless(img', inum)
    ensures Walk(img', q) == if q == p then Some(inum) else Walk(img, q)
    decreases |q|
  {
    if q != [] {
      var d := Parent(q);
      WalkAdded(img, img', own, p, par, inum, d);
      WalkNode(img, own, d);
      if d != p && Walk(img, d) == Some(par) {
        WalkUnique(img, own, d, Parent(p));
        SamePath(p, q);
      }
    }
  }

  /** Removing the entry of an inode without children removes one path and changes no other. */
  lemma {:induction false} WalkRemoved(img: Image, img': Image, own: Owners, p: Path, par: nat, inum: nat, q: Path)
    requires WellFormed(img, own) && p != []
    requires Walk(img, Parent(p)) == Some(par) && Walk(img, p) == Some(inum)
    requires Relinked(img, img', own, par, Last(p), None) && Childless(img, inum)
    ensures Walk(img', q) == if q == p then None else Walk(img, q)
    decreases |q|
  {
    if q != [] {
      var d := Parent(q);
      WalkRemoved(img, img', own, p, par, inum, d);
      WalkNode(img, own, d);
      if d != p && Walk(img, d) == Some(par) {
        WalkUnique(img, own, d, Parent(p));
        SamePath(p, q);
      }
    }
  }

  /** Where a path stood before src was renamed to dst. */
  function Origin(src: Path, dst: Path, q: Path): Option<Path> {
    if dst <= q then Some(src + q[|dst|..])
    else if src <= q then None
    else Some(q)
  }

  /** The links of img' are those of img, with par's entry `was` renamed to `now`. */
  ghost predicate Renamed(img: Image, img': Image, own: Owners, par: nat, was: Name, now: Name) {
    forall m, n :: IsNode(own, m) ==>
      Child(img', m, n) ==
        if m == par && n == now then Child(img, par, was)
        else if m == par && n == was then None
        else Child(img, m, n)
  }

  lemma OriginStep(src: Path, dst: Path, q: Path)
    requires src != [] && dst != [] && src != dst && Parent(src) == Parent(dst)
    requires q != []
    ensures q == dst ==> Origin(src, dst, q) == Some(src) && Origin(src, dst, Parent(q)) == Some(Parent(src))
    ensures q == src ==> Origin(src, dst, q) == None && Origin(src, dst, Parent(q)) == Some(Parent(src))
    ensures q != src && q != dst ==>
              match Origin(src, dst, q)
              case None => Origin(src, dst, Parent(q)) == None
              case Some(o) =>
                && o != [] && Last(o) == Last(q) && Origin(src, dst, Parent(q)) == Some(Parent(o))
                && (Parent(o) == Parent(src) ==> o == q)
  {
    SamePath(src, dst);
    assert |src| == |dst|;
    if q != src && q != dst {
      assert dst <= q <==> dst <= Parent(q);
      assert src <= q <==> src <= Parent(q);
      if dst <= q {
        var o := src + q[|dst|..];
        assert Parent(o) == src + Parent(q)[|dst|..] && Last(o) == Last(q);
        assert |Parent(o)| > |Parent(src)|;
      }
    } else {
      assert !(dst <= Parent(q)) && !(src <= Parent(q));
      assert q == dst ==> src + q[|dst|..] == src;
      assert q == src && dst <= q ==> dst == q;
    }
  }

  /** A rename inside one directory moves the whole subtree and nothing else. */
  lemma {:induction false} WalkRenamed(img: Image, img': Image, own: Owners, src: Path, dst: Path, par: nat, q: Path)
    requires WellFormed(img, own) && src != [] && dst != [] && src != dst && Parent(src) == Parent(dst)
    requires Walk(img, Parent(src)) == Some(par)
    requires Renamed(img, img', own, par, Last(src), Last(dst))
    ensures var o := Origin(src, dst, q);
            Walk(img', q) == if o.None? then None else Walk(img, o.value)
    decreases |q|
  {
    if q == [] {
      assert Origin(src, dst, q) == Some(q);
    } else {
      WalkRenamed(img, img', own, src, dst, par, Parent(q));
      OriginStep(src, dst, q);
      SamePath(src, dst);
      WalkNode(img, own, Parent(src));
      if q != src && q != dst && Origin(src, dst, q).Some? {
        var o := Origin(src, dst, q).value;
        WalkNode(img, own, Parent(o));
        if Walk(img, Parent(o)) == Some(par) {
          WalkUnique(img, own, Parent(o), Parent(src));
          SamePath(q, src);
          SamePath(q, dst);
        }
      }
    }
  }
}
