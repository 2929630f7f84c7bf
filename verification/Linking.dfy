/** create and mkdir: adding an entry keeps the disk well formed and adds exactly one path. */
module Linking {
  import opened Layout
  import opened Volume
  import opened Lookup
  import opened TreeEdits

  /** own' gives every block of own the same owner. */
  ghost predicate Extends(own: Owners, own': Owners) {
    forall b :: b in own ==> b in own' && own'[b] == own[b]
  }

  lemma GoodInodeExtends(own: Owners, own': Owners, m: nat, n: Inode)
    requires Extends(own, own') && GoodInode(own, m, n)
    ensures GoodInode(own', m, n)
  {
  }

  lemma GoodSlotsExtends(own: Owners, own': Owners, m: nat, slots: Slots)
    requires Extends(own, own') && m in own && GoodSlots(own, m, slots)
    ensures GoodSlots(own', m, slots)
  {
  }

  /** What changes when inode inum (with table block `table`, unless that is inum itself) is
      entered into slot k of directory par. */
  ghost predicate Linked(img: Image, img': Image, own: Owners, own': Owners, par: nat, k: nat, name: Name, inum: nat,
      table: nat) {
    && IsNode(own, par) && HasDir(img, par) && k < NUM_DIRENTS
    && inum !in own && table !in own && ROOT < inum < NUM_BLOCKS && ROOT < table < NUM_BLOCKS
    && Extends(own, own') && own'.Keys == own.Keys + {inum, table}
    && own'[inum] == Entry(par, k, Depth(own, par) + 1) && (table == inum || own'[table] == Table(inum))
    && |img'.blk| == |img.blk| == NUM_BLOCKS
    && img'.used == img.used + {inum, table}
    && (forall b :: b in own && b < NUM_BLOCKS && b != TableOf(img, par) ==> img'.blk[b] == img.blk[b])
    && img'.blk[TableOf(img, par)] == Dir(SlotsOf(img, par)[k := Dirent(true, inum, name)])
    && !SlotsOf(img, par)[k].valid && GoodName(name) && Child(img, par, name) == None
    && IsInode(img', inum)
    && var n := NodeOf(img', inum);
       if table == inum then IsReg(n.attr.mode) && !IsDir(n.attr.mode) && n.size == 0
       else IsDir(n.attr.mode) && n.size == BLOCK_SIZE && n.ptrs[0] == table
            && img'.blk[table].Dir? && EmptyTable(img'.blk[table].slots)
  }

  /** Directories other than the changed one look the same; the changed one keeps its table. */
  lemma LinkedDir(img: Image, img': Image, own: Owners, own': Owners, par: nat, k: nat, name: Name, inum: nat,
      table: nat, m: nat)
    requires WellFormed(img, own) && Linked(img, img', own, own', par, k, name, inum, table)
    requires IsNode(own, m)
    ensures IsInode(img', m) && NodeOf(img', m) == NodeOf(img, m) && HasDir(img', m) == HasDir(img, m)
    ensures HasDir(img, m) ==>
              SlotsOf(img', m) == if m == par then SlotsOf(img, par)[k := Dirent(true, inum, name)] else SlotsOf(img, m)
    ensures Depth(own', m) == Depth(own, m)
  {
    DirTable(img, own, par);
    DirTable(img, own, m);
  }

  lemma LinkedSlots(img: Image, img': Image, own: Owners, own': Owners, par: nat, k: nat, name: Name, inum: nat,
      table: nat)
    requires WellFormed(img, own) && Linked(img, img', own, own', par, k, name, inum, table)
    ensures GoodSlots(own', par, SlotsOf(img, par)[k := Dirent(true, inum, name)])
  {
    DirTable(img, own, par);
  }

  lemma LinkedOld(img: Image, img': Image, own: Owners, own': Owners, par: nat, k: nat, name: Name, inum: nat,
      table: nat, b: nat)
    requires WellFormed(img, own) && Linked(img, img', own, own', par, k, name, inum, table)
    requires b in own
    ensures GoodBlock(img', own', b)
  {
    assert GoodBlock(img, own, b);
    DirTable(img, own, par);
    hide GoodInode, GoodSlots;
    match own[b]
    case Table(m) =>
      LinkedDir(img, img', own, own', par, k, name, inum, table, m);
      LinkedSlots(img, img', own, own', par, k, name, inum, table);
      GoodSlotsExtends(own, own', m, SlotsOf(img, m));
    case Spare(m, i) =>
      LinkedDir(img, img', own, own', par, k, name, inum, table, m);
    case Extent(f, i) =>
      LinkedDir(img, img', own, own', par, k, name, inum, table, f);
    case Root =>
      GoodInodeExtends(own, own', b, NodeOf(img, b));
    case Entry(m, j, depth) =>
      LinkedDir(img, img', own, own', par, k, name, inum, table, m);
      GoodInodeExtends(own, own', b, NodeOf(img, b));
  }

  lemma LinkedNew(img: Image, img': Image, own: Owners, own': Owners, par: nat, k: nat, name: Name, inum: nat,
      table: nat)
    requires WellFormed(img, own) && Linked(img, img', own, own', par, k, name, inum, table)
    ensures GoodBlock(img', own', inum) && GoodBlock(img', own', table)
  {
    LinkedDir(img, img', own, own', par, k, name, inum, table, par);
  }

  /** Entering a new inode under an unused name keeps the disk well formed. */
  lemma LinkedKeeps(img: Image, img': Image, own: Owners, own': Owners, par: nat, k: nat, name: Name, inum: nat,
      table: nat)
    requires WellFormed(img, own)
    requires Linked(img, img', own, own', par, k, name, inum, table)
    ensures WellFormed(img', own')
  {
    forall b | b in own' ensures GoodBlock(img', own', b) {
      if b in own {
        LinkedOld(img, img', own, own', par, k, name, inum, table, b);
      } else {
        LinkedNew(img, img', own, own', par, k, name, inum, table);
      }
    }
  }

  /** The new name leads to the new inode, which has no entries; every other link stays. */
  lemma LinkedLinks(img: Image, img': Image, own: Owners, own': Owners, par: nat, k: nat, name: Name, inum: nat,
      table: nat)
    requires WellFormed(img, own) && Linked(img, img', own, own', par, k, name, inum, table)
    ensures Relinked(img, img', own, par, name, Some(inum)) && Childless(img', inum)
  {
    LinkedKeeps(img, img', own, own', par, k, name, inum, table);
    LinkedDir(img, img', own, own', par, k, name, inum, table, par);
    forall m, n | IsNode(own, m)
      ensures Child(img', m, n) == if m == par && n == name then Some(inum) else Child(img, m, n)
    {
      LinkedDir(img, img', own, own', par, k, name, inum, table, m);
      if m == par {
        SlotEntered(SlotsOf(img, par), k, name, inum, n);
      }
    }
  }

  lemma SlotEntered(slots: Slots, k: nat, name: Name, inum: nat, n: Name)
    requires k < NUM_DIRENTS && !slots[k].valid && FindName(slots, name) == NUM_DIRENTS
    ensures var slots' := slots[k := Dirent(true, inum, name)];
            FindName(slots', n) == if n == name then k else FindName(slots, n)
  {
    var slots' := slots[k := Dirent(true, inum, name)];
    if n == name {
      assert Named(slots'[k], name);
      assert forall j :: 0 <= j < k ==> Named(slots'[j], n) == Named(slots[j], n);
    } else {
      assert forall j :: 0 <= j < NUM_DIRENTS ==> Named(slots'[j], n) == Named(slots[j], n);
    }
  }

  lemma LinkedAt(img: Image, img': Image, own: Owners, own': Owners, p: Path, par: nat, k: nat, inum: nat, table: nat,
      q: Path)
    requires WellFormed(img, own) && p != [] && Walk(img, Parent(p)) == Some(par)
    requires Linked(img, img', own, own', par, k, Last(p), inum, table)
    ensures At(img', q) == if q == p then Some(ViewOf(img', NodeOf(img', inum))) else At(img, q)
    ensures Walk(img', q) == if q == p then Some(inum) else Walk(img, q)
  {
    LinkedLinks(img, img', own, own', par, k, Last(p), inum, table);
    WalkAdded(img, img', own, p, par, inum, q);
    WalkNode(img, own, q);
    if Walk(img, q).Some? {
      var m := Walk(img, q).value;
      DirTable(img, own, par);
      LinkedDir(img, img', own, own', par, k, Last(p), inum, table, m);
      ViewSame(img, img', own, m);
    }
  }

  /** Linking changes the tree a user sees at exactly one path, and every other path keeps its inode. */
  lemma LinkedAbs(img: Image, img': Image, own: Owners, own': Owners, p: Path, par: nat, k: nat, inum: nat, table: nat)
    requires WellFormed(img, own) && p != [] && Walk(img, Parent(p)) == Some(par)
    requires Linked(img, img', own, own', par, k, Last(p), inum, table)
    ensures Abs(img') == Abs(img)[p := ViewOf(img', NodeOf(img', inum))] && WalksPut(img, img', p, Some(inum))
  {
    forall q
      ensures At(img', q) == if q == p then Some(ViewOf(img', NodeOf(img', inum))) else At(img, q)
      ensures Walk(img', q) == if q == p then Some(inum) else Walk(img, q)
    {
      LinkedAt(img, img', own, own', p, par, k, inum, table, q);
    }
    AbsPut(img, img', p, ViewOf(img', NodeOf(img', inum)));
  }
}
