/** Calls that rewrite one inode, and possibly the data blocks it owns, in place: chmod, utime,
    truncate, write, and the parent's time stamp in unlink and rmdir. */
module Rewriting {
  import opened Layout
  import opened Volume
  import opened Lookup
  import opened TreeEdits

  /** Block b is owned, but not as one of the live pointers of inode f. */
  predicate Other(own: Owners, f: nat, b: nat) {
    b in own && !(own[b].Extent? && own[b].file == f)
  }

  /** Ownership differs only in the live pointers of f. */
  ghost predicate SameOthers(own: Owners, own': Owners, f: nat) {
    && (forall b: nat :: Other(own, f, b) ==> Other(own', f, b))
    && (forall b: nat :: Other(own', f, b) ==> Other(own, f, b) && own'[b] == own[b])
  }

  /** The live pointers of f are those of inode n, and they name data blocks. */
  ghost predicate ExtentsOf(img: Image, own: Owners, f: nat, n: Inode) {
    forall b: nat :: b in own && own[b].Extent? && own[b].file == f ==>
      && ROOT <= b < |img.blk| && img.blk[b].Data? && !IsDir(n.attr.mode)
      && own[b].index < BlocksFor(n.size) && own[b].index < NUM_PTRS && n.ptrs[own[b].index] == b
  }

  /** img' is img with inode f rewritten to n, and nothing else touched that f does not own. */
  ghost predicate Rewritten(img: Image, img': Image, own: Owners, own': Owners, f: nat, n: Inode) {
    && IsNode(own, f) && IsInode(img, f)
    && |img'.blk| == |img.blk| == NUM_BLOCKS
    && (forall b: nat :: b in img'.used ==> b < NUM_BLOCKS)
    && (forall b: nat :: b in own' ==> b in img'.used) && 0 in img'.used && 1 in img'.used
    && SameOthers(own, own', f)
    && img'.blk[f] == INode(n)
    && (forall b: nat :: Other(own, f, b) && b != f && b < NUM_BLOCKS ==> img'.blk[b] == img.blk[b])
    && IsDir(n.attr.mode) == IsDir(NodeOf(img, f).attr.mode)
    && (IsDir(n.attr.mode) ==> n.size == NodeOf(img, f).size && n.ptrs == NodeOf(img, f).ptrs)
    && GoodInode(own', f, n) && ExtentsOf(img', own', f, n)
  }

  lemma RewrittenNode(img: Image, img': Image, own: Owners, own': Owners, f: nat, n: Inode, m: nat)
    requires WellFormed(img, own) && Rewritten(img, img', own, own', f, n) && IsNode(own, m)
    ensures IsNode(own', m) && Depth(own', m) == Depth(own, m) && IsInode(img, m) && IsInode(img', m)
    ensures NodeOf(img', m) == if m == f then n else NodeOf(img, m)
    ensures HasDir(img', m) == HasDir(img, m)
    ensures HasDir(img, m) ==> TableOf(img', m) == TableOf(img, m) && SlotsOf(img', m) == SlotsOf(img, m)
  {
    DirTable(img, own, f);
    DirTable(img, own, m);
    assert Other(own, f, m) && Other(own', f, m);
    if HasDir(img, m) {
      assert Other(own, f, TableOf(img, m));
    }
  }

  lemma OthersInode(own: Owners, own': Owners, f: nat, m: nat, n: Inode)
    requires SameOthers(own, own', f) && GoodInode(own, m, n) && m != f
    ensures GoodInode(own', m, n)
  {
    if IsDir(n.attr.mode) {
      assert Other(own, f, n.ptrs[0]);
      forall i | 1 <= i < BlocksFor(n.size) ensures n.ptrs[i] in own' && own'[n.ptrs[i]] == Spare(m, i) {
        assert Other(own, f, n.ptrs[i]);
      }
    } else {
      forall i | 0 <= i < BlocksFor(n.size) ensures n.ptrs[i] in own' && own'[n.ptrs[i]] == Extent(m, i) {
        assert Other(own, f, n.ptrs[i]);
      }
    }
  }

  lemma OthersSlots(own: Owners, own': Owners, f: nat, m: nat, slots: Slots)
    requires SameOthers(own, own', f) && Depth(own', m) == Depth(own, m) && GoodSlots(own, m, slots)
    ensures GoodSlots(own', m, slots)
  {
    forall k | 0 <= k < NUM_DIRENTS && slots[k].valid
      ensures slots[k].inode in own' && own'[slots[k].inode] == own[slots[k].inode]
    {
      assert Other(own, f, slots[k].inode);
    }
  }

  lemma RewrittenOther(img: Image, img': Image, own: Owners, own': Owners, f: nat, n: Inode, b: nat)
    requires WellFormed(img, own) && Rewritten(img, img', own, own', f, n)
    requires Other(own', f, b)
    ensures GoodBlock(img', own', b)
  {
    assert Other(own, f, b) && own'[b] == own[b] && GoodBlock(img, own, b);
    hide GoodInode, GoodSlots;
    if IsNode(own, b) {
      RewrittenNode(img, img', own, own', f, n, b);
      if b != f {
        OthersInode(own, own', f, b, NodeOf(img, b));
      }
    }
    match own[b]
    case Root =>
    case Entry(m, _, _) =>
      RewrittenNode(img, img', own, own', f, n, m);
    case Table(m) =>
      RewrittenNode(img, img', own, own', f, n, m);
      OthersSlots(own, own', f, m, SlotsOf(img, m));
    case Spare(m, _) =>
      RewrittenNode(img, img', own, own', f, n, m);
    case Extent(g, _) =>
      RewrittenNode(img, img', own, own', f, n, g);
  }

  /** Rewriting an inode consistently with its new live pointers keeps the disk well formed. */
  lemma RewrittenKeeps(img: Image, img': Image, own: Owners, own': Owners, f: nat, n: Inode)
    requires WellFormed(img, own) && Rewritten(img, img', own, own', f, n)
    ensures WellFormed(img', own')
  {
    RewrittenNode(img, img', own, own', f, n, ROOT);
    RewrittenNode(img, img', own, own', f, n, f);
    assert Other(own, f, ROOT);
    hide GoodInode, GoodSlots;
    forall b | b in own' ensures GoodBlock(img', own', b) {
      if Other(own', f, b) {
        RewrittenOther(img, img', own, own', f, n, b);
      }
    }
  }

  lemma RewrittenWalk(img: Image, img': Image, own: Owners, own': Owners, f: nat, n: Inode, q: Path)
    requires WellFormed(img, own) && Rewritten(img, img', own, own', f, n)
    ensures Walk(img', q) == Walk(img, q)
  {
    forall m, name | IsNode(own, m) ensures Child(img', m, name) == Child(img, m, name) {
      RewrittenNode(img, img', own, own', f, n, m);
    }
    WalkSame(img, img', own, q);
  }

  lemma RewrittenAt(img: Image, img': Image, own: Owners, own': Owners, f: nat, n: Inode, p: Path, q: Path)
    requires WellFormed(img, own) && Rewritten(img, img', own, own', f, n) && Walk(img, p) == Some(f)
    ensures At(img', q) == if q == p then Some(ViewOf(img', n)) else At(img, q)
    ensures Walk(img', q) == Walk(img, q)
  {
    RewrittenWalk(img, img', own, own', f, n, q);
    WalkNode(img, own, q);
    if Walk(img, q).Some? {
      var m := Walk(img, q).value;
      RewrittenNode(img, img', own, own', f, n, m);
      if m == f {
        WalkUnique(img, own, p, q);
      } else {
        forall b | b in own && own[b].Extent? && own[b].file == m && b < |img.blk| ensures img'.blk[b] == img.blk[b] {
          assert Other(own, f, b);
        }
        ViewSame(img, img', own, m);
      }
    }
  }

  /** Rewriting the inode at a path changes what that path stands for, and nothing else. */
  lemma RewrittenAbs(img: Image, img': Image, own: Owners, own': Owners, f: nat, n: Inode, p: Path)
    requires WellFormed(img, own) && Rewritten(img, img', own, own', f, n) && Walk(img, p) == Some(f)
    ensures Abs(img') == Abs(img)[p := ViewOf(img', n)] && SameWalks(img, img')
  {
    forall q
      ensures At(img', q) == if q == p then Some(ViewOf(img', n)) else At(img, q)
      ensures Walk(img', q) == Walk(img, q)
    {
      RewrittenAt(img, img', own, own', f, n, p, q);
    }
    AbsPut(img, img', p, ViewOf(img', n));
  }
}
