/** Removing one directory entry together with everything its inode owns. */
module Unlinking {
  import opened Layout
  import opened Volume
  import opened Lookup
  import opened TreeEdits

  /** Block b is inode x itself, or one of its table blocks, or one of its live pointers. */
  predicate Belongs(own: Owners, x: nat, b: nat) {
    b in own && (b == x || own[b] == Table(x) || (own[b].Spare? && own[b].of == x) ||
                 (own[b].Extent? && own[b].file == x))
  }

  function Drop(own: Owners, x: nat): Owners {
    map b | b in own && !Belongs(own, x, b) :: own[b]
  }

  /** img' is img without slot k of directory par, which held the childless inode x. */
  ghost predicate Unlinked(img: Image, img': Image, own: Owners, par: nat, k: nat, x: nat) {
    && IsNode(own, par) && HasDir(img, par) && k < NUM_DIRENTS
    && SlotsOf(img, par)[k].valid && SlotsOf(img, par)[k].inode == x
    && x in own && own[x] == Entry(par, k, Depth(own, par) + 1)
    && |img'.blk| == |img.blk| == NUM_BLOCKS
    && img'.blk == img.blk[TableOf(img, par) := Dir(SlotsOf(img, par)[k := SlotsOf(img, par)[k].(valid := false)])]
    && (forall b: nat :: b in img'.used ==> b < NUM_BLOCKS)
    && (forall b: nat :: b in Drop(own, x) ==> b in img'.used) && 0 in img'.used && 1 in img'.used
    && (HasDir(img, x) ==> EmptyTable(SlotsOf(img, x)))
  }

  lemma UnlinkedDir(img: Image, img': Image, own: Owners, par: nat, k: nat, x: nat, m: nat)
    requires WellFormed(img, own) && Unlinked(img, img', own, par, k, x) && IsNode(own, m)
    ensures IsInode(img, m) && IsInode(img', m) && NodeOf(img', m) == NodeOf(img, m)
            && HasDir(img', m) == HasDir(img, m)
    ensures HasDir(img, m) ==>
              SlotsOf(img', m) ==
                if m == par then SlotsOf(img, par)[k := SlotsOf(img, par)[k].(valid := false)] else SlotsOf(img, m)
    ensures m != x ==> IsNode(Drop(own, x), m) && Depth(Drop(own, x), m) == Depth(own, m)
  {
    DirTable(img, own, par);
    DirTable(img, own, m);
  }

  lemma DropInode(own: Owners, x: nat, m: nat, n: Inode)
    requires GoodInode(own, m, n) && m != x && IsNode(own, x)
    ensures GoodInode(Drop(own, x), m, n)
  {
  }

  /** The slots of a surviving directory hold surviving inodes. */
  lemma DropSlots(own: Owners, x: nat, m: nat, slots: Slots, slots': Slots)
    requires GoodSlots(own, m, slots) && m != x && IsNode(own, m) && IsNode(own, x)
    requires forall j :: 0 <= j < NUM_DIRENTS && slots'[j].valid ==> slots'[j] == slots[j] && slots[j].inode != x
    ensures GoodSlots(Drop(own, x), m, slots')
  {
    forall j | 0 <= j < NUM_DIRENTS && slots'[j].valid
      ensures slots'[j].inode in Drop(own, x) && own[slots'[j].inode] == Drop(own, x)[slots'[j].inode]
    {
      assert slots'[j] == slots[j];
    }
    forall i, j | 0 <= i < j < NUM_DIRENTS && slots'[i].valid && slots'[j].valid
        ensures slots'[i].name != slots'[j].name {
      assert slots'[i] == slots[i] && slots'[j] == slots[j];
    }
  }

  lemma UnlinkedBlock(img: Image, img': Image, own: Owners, par: nat, k: nat, x: nat, b: nat)
    requires WellFormed(img, own) && Unlinked(img, img', own, par, k, x)
    requires b in Drop(own, x)
    ensures GoodBlock(img', Drop(own, x), b)
  {
    assert GoodBlock(img, own, b);
    DirTable(img, own, par);
    hide GoodInode;
    if IsNode(own, b) {
      DropInode(own, x, b, NodeOf(img, b));
    }
    match own[b]
    case Root =>
    case Entry(m, j, _) => UnlinkedDir(img, img', own, par, k, x, m);
    case Table(m) =>
      UnlinkedDir(img, img', own, par, k, x, m);
      DropSlots(own, x, m, SlotsOf(img, m), SlotsOf(img', m));
    case Spare(m, _) => UnlinkedDir(img, img', own, par, k, x, m);
    case Extent(f, _) => UnlinkedDir(img, img', own, par, k, x, f);
  }

  /** Removing a file or an empty directory keeps the disk well formed. */
  lemma UnlinkedKeeps(img: Image, img': Image, own: Owners, par: nat, k: nat, x: nat)
    requires WellFormed(img, own) && Unlinked(img, img', own, par, k, x)
    ensures WellFormed(img', Drop(own, x))
  {
    forall b | b in Drop(own, x) ensures GoodBlock(img', Drop(own, x), b) {
      UnlinkedBlock(img, img', own, par, k, x, b);
    }
  }

  lemma SlotCleared(slots: Slots, k: nat, n: Name)
    requires k < NUM_DIRENTS && slots[k].valid
    requires forall j :: 0 <= j < NUM_DIRENTS && j != k && slots[j].valid ==> slots[j].name != slots[k].name
    ensures FindName(slots[k := slots[k].(valid := false)], n) ==
              if n == slots[k].name then NUM_DIRENTS else FindName(slots, n)
  {
    var slots' := slots[k := slots[k].(valid := false)];
    if n != slots[k].name {
      assert forall j :: 0 <= j < NUM_DIRENTS ==> Named(slots'[j], n) == Named(slots[j], n);
    } else {
      assert forall j :: 0 <= j < NUM_DIRENTS ==> !Named(slots'[j], n);
    }
  }

  lemma UnlinkedLinks(img: Image, img': Image, own: Owners, par: nat, k: nat, x: nat)
    requires WellFormed(img, own) && Unlinked(img, img', own, par, k, x)
    ensures Relinked(img, img', own, par, SlotsOf(img, par)[k].name, None) && Childless(img, x)
  {
    DirTable(img, own, par);
    forall m, n | IsNode(own, m)
      ensures Child(img', m, n) == if m == par && n == SlotsOf(img, par)[k].name then None else Child(img, m, n)
    {
      UnlinkedDir(img, img', own, par, k, x, m);
      if m == par {
        SlotCleared(SlotsOf(img, par), k, n);
        assert FindName(SlotsOf(img, par), n) == k ==> n == SlotsOf(img, par)[k].name;
      }
    }
  }

  lemma UnlinkedAt(img: Image, img': Image, own: Owners, p: Path, par: nat, k: nat, x: nat, q: Path)
    requires WellFormed(img, own) && Unlinked(img, img', own, par, k, x)
    requires p != [] && Walk(img, Parent(p)) == Some(par) && Last(p) == SlotsOf(img, par)[k].name
    ensures Walk(img, p) == Some(x)
    ensures At(img', q) == if q == p then None else At(img, q)
    ensures Walk(img', q) == if q == p then None else Walk(img, q)
  {
    ChildBySlot(img, own, par, k);
    UnlinkedLinks(img, img', own, par, k, x);
    WalkRemoved(img, img', own, p, par, x, q);
    WalkNode(img, own, q);
    if Walk(img, q).Some? {
      UnlinkedDir(img, img', own, par, k, x, Walk(img, q).value);
      DirTable(img, own, par);
      ViewSame(img, img', own, Walk(img, q).value);
    }
  }

  ghost function Without(fs: Tree, p: Path): Tree {
    imap q | q in fs && q != p :: fs[q]
  }

  /** Exactly the removed name disappears from the tree. */
  lemma UnlinkedAbs(img: Image, img': Image, own: Owners, p: Path, par: nat, k: nat, x: nat)
    requires WellFormed(img, own) && Unlinked(img, img', own, par, k, x)
    requires p != [] && Walk(img, Parent(p)) == Some(par) && Last(p) == SlotsOf(img, par)[k].name
    ensures Abs(img') == Without(Abs(img), p) && WalksPut(img, img', p, None)
  {
    hide WellFormed, Unlinked, At, Walk, Abs, Without;
    forall q
      ensures At(img', q) == if q == p then None else At(img, q)
      ensures Walk(img', q) == if q == p then None else Walk(img, q)
    {
      UnlinkedAt(img, img', own, p, par, k, x, q);
    }
    AbsWithout(img, img', p);
  }

  lemma AbsWithout(img: Image, img': Image, p: Path)
    requires forall q :: At(img', q) == if q == p then None else At(img, q)
    ensures Abs(img') == Without(Abs(img), p)
  {
    hide At;
  }
}
