/** rename: exact return codes, the invariant, and the relocation of a whole subtree. */
module Renaming {
  import opened Layout
  import opened Volume
  import opened Lookup
  import opened TreeEdits
  import opened Operations
  import opened Creation
  import opened LookupErrors

  function RenamedSlots(slots: Slots, k: nat, name: Name): Slots
    requires k < NUM_DIRENTS
  {
    slots[k := slots[k].(name := name)]
  }

  /** img' is img with slot k of directory par carrying a name not used there before. */
  ghost predicate Relabelled(img: Image, img': Image, own: Owners, par: nat, k: nat, name: Name) {
    && IsNode(own, par) && HasDir(img, par) && k < NUM_DIRENTS && SlotsOf(img, par)[k].valid
    && Child(img, par, name) == None
    && img' == SetSlot(img, TableOf(img, par), SlotsOf(img, par), k, SlotsOf(img, par)[k].(name := name))
  }

  lemma RelabelledDir(img: Image, img': Image, own: Owners, par: nat, k: nat, name: Name, m: nat)
    requires WellFormed(img, own) && Relabelled(img, img', own, par, k, name) && IsNode(own, m)
    ensures IsInode(img, m) && IsInode(img', m) && NodeOf(img', m) == NodeOf(img, m)
            && HasDir(img', m) == HasDir(img, m)
    ensures HasDir(img, m) ==>
              SlotsOf(img', m) == if m == par then RenamedSlots(SlotsOf(img, par), k, name) else SlotsOf(img, m)
  {
    DirTable(img, own, par);
    DirTable(img, own, m);
  }

  lemma RelabelledSlots(own: Owners, par: nat, slots: Slots, k: nat, name: Name)
    requires GoodSlots(own, par, slots) && k < NUM_DIRENTS && slots[k].valid
    requires GoodName(name) && FindName(slots, name) == NUM_DIRENTS
    ensures GoodSlots(own, par, RenamedSlots(slots, k, name))
  {
    assert forall j :: 0 <= j < NUM_DIRENTS ==> !Named(slots[j], name);
  }

  lemma RelabelledKeeps(img: Image, img': Image, own: Owners, par: nat, k: nat, name: Name)
    requires WellFormed(img, own) && Relabelled(img, img', own, par, k, name) && GoodName(name)
    ensures WellFormed(img', own)
  {
    DirTable(img, own, par);
    RelabelledSlots(own, par, SlotsOf(img, par), k, name);
    forall b | b in own ensures GoodBlock(img', own, b) {
      assert GoodBlock(img, own, b);
      hide GoodInode, GoodSlots;
      match own[b]
      case Root =>
      case Entry(m, _, _) => RelabelledDir(img, img', own, par, k, name, m);
      case Table(m) => RelabelledDir(img, img', own, par, k, name, m);
      case Spare(m, _) => RelabelledDir(img, img', own, par, k, name, m);
      case Extent(f, _) => RelabelledDir(img, img', own, par, k, name, f);
    }
  }

  lemma SlotRelabelled(slots: Slots, k: nat, name: Name, n: Name)
    requires k < NUM_DIRENTS && slots[k].valid && FindName(slots, name) == NUM_DIRENTS
    requires forall j :: 0 <= j < NUM_DIRENTS && j != k && slots[j].valid ==> slots[j].name != slots[k].name
    ensures FindName(RenamedSlots(slots, k, name), n) ==
              if n == name then k else if n == slots[k].name then NUM_DIRENTS else FindName(slots, n)
  {
    var slots' := RenamedSlots(slots, k, name);
    assert forall j :: 0 <= j < NUM_DIRENTS ==> !Named(slots[j], name);
    if n == name {
      assert Named(slots'[k], name);
      assert forall j :: 0 <= j < k ==> !Named(slots'[j], name);
    } else if n == slots[k].name {
      assert forall j :: 0 <= j < NUM_DIRENTS ==> !Named(slots'[j], n);
    } else {
      assert forall j :: 0 <= j < NUM_DIRENTS ==> Named(slots'[j], n) == Named(slots[j], n);
    }
  }

  lemma RelabelledLinks(img: Image, img': Image, own: Owners, par: nat, k: nat, name: Name)
    requires WellFormed(img, own) && Relabelled(img, img', own, par, k, name)
    ensures Renamed(img, img', own, par, SlotsOf(img, par)[k].name, name)
  {
    DirTable(img, own, par);
    ChildBySlot(img, own, par, k);
    forall m, n | IsNode(own, m)
      ensures Child(img', m, n) ==
                if m == par && n == name then Child(img, par, SlotsOf(img, par)[k].name)
                else if m == par && n == SlotsOf(img, par)[k].name then None
                else Child(img, m, n)
    {
      RelabelledDir(img, img', own, par, k, name, m);
      if m == par {
        SlotRelabelled(SlotsOf(img, par), k, name, n);
      }
    }
  }

  /** The tree in which everything at or below src has moved to dst. */
  ghost function Moved(fs: Tree, src: Path, dst: Path): Tree {
    imap q | Origin(src, dst, q).Some? && Origin(src, dst, q).value in fs :: fs[Origin(src, dst, q).value]
  }

  lemma RelabelledAt(img: Image, img': Image, own: Owners, src: Path, dst: Path, par: nat, k: nat, q: Path)
    requires src != [] && dst != [] && src != dst && Parent(src) == Parent(dst)
    requires WellFormed(img, own) && Relabelled(img, img', own, par, k, Last(dst))
    requires Walk(img, Parent(src)) == Some(par) && SlotsOf(img, par)[k].name == Last(src)
    ensures var o := Origin(src, dst, q);
            At(img', q) == if o.None? then None else At(img, o.value)
  {
    RelabelledLinks(img, img', own, par, k, Last(dst));
    WalkRenamed(img, img', own, src, dst, par, q);
    var o := Origin(src, dst, q);
    if o.Some? && Walk(img, o.value).Some? {
      WalkNode(img, own, o.value);
      RelabelledDir(img, img', own, par, k, Last(dst), Walk(img, o.value).value);
      DirTable(img, own, par);
      ViewSame(img, img', own, Walk(img, o.value).value);
    }
  }

  /** Every path leads to the inode its origin led to. */
  ghost predicate WalksMoved(img: Image, img': Image, src: Path, dst: Path) {
    forall q :: Walk(img', q) == if Origin(src, dst, q).None? then None else Walk(img, Origin(src, dst, q).value)
  }

  lemma RelabelledWalks(img: Image, img': Image, own: Owners, src: Path, dst: Path, par: nat, k: nat)
    requires src != [] && dst != [] && src != dst && Parent(src) == Parent(dst)
    requires WellFormed(img, own) && Relabelled(img, img', own, par, k, Last(dst))
    requires Walk(img, Parent(src)) == Some(par) && SlotsOf(img, par)[k].name == Last(src)
    ensures WalksMoved(img, img', src, dst)
  {
    hide WellFormed, Relabelled, Origin, Walk;
    RelabelledLinks(img, img', own, par, k, Last(dst));
    forall q
      ensures Walk(img', q) == if Origin(src, dst, q).None? then None else Walk(img, Origin(src, dst, q).value)
    {
      WalkRenamed(img, img', own, src, dst, par, q);
    }
  }

  lemma RelabelledAbs(img: Image, img': Image, own: Owners, src: Path, dst: Path, par: nat, k: nat)
    requires src != [] && dst != [] && src != dst && Parent(src) == Parent(dst)
    requires WellFormed(img, own) && Relabelled(img, img', own, par, k, Last(dst))
    requires Walk(img, Parent(src)) == Some(par) && SlotsOf(img, par)[k].name == Last(src)
    ensures Abs(img') == Moved(Abs(img), src, dst)
  {
    hide WellFormed, At, Origin, Moved, Abs, Walk;
    forall q
      ensures At(img', q) == if Origin(src, dst, q).None? then None else At(img, Origin(src, dst, q).value)
    {
      RelabelledAt(img, img', own, src, dst, par, k, q);
    }
    AbsMoved(img, img', src, dst);
  }

  lemma AbsMoved(img: Image, img': Image, src: Path, dst: Path)
    requires forall q :: At(img', q) == if Origin(src, dst, q).None? then None else At(img, Origin(src, dst, q).value)
    ensures Abs(img') == Moved(Abs(img), src, dst)
  {
    hide At, Origin;
  }

  ghost function RenameError(fs: Tree, src: Path, dst: Path): int {
    if PathCode(fs, src) < 0 then (if PathCode(fs, src) == -ENOTDIR then -EINVAL else -ENOENT)
    else if dst in fs then -EEXIST
    else if |dst| != |src| || Parent(src) != Parent(dst) then -EINVAL
    else 0
  }

  lemma RenameRelabels(img: Image, own: Owners, src: Path, dst: Path) returns (par: nat, k: nat)
    requires WellFormed(img, own) && RenameError(Abs(img), src, dst) == 0
    ensures src != [] && dst != [] && src != dst && Parent(src) == Parent(dst)
    ensures Rename(img, src, dst).1 == Ret(0) && Relabelled(img, Rename(img, src, dst).0, own, par, k, Last(dst))
    ensures Walk(img, Parent(src)) == Some(par) && SlotsOf(img, par)[k].name == Last(src)
  {
    PathExact(img, own, src);
    AbsWalk(img, own, src);
    AbsWalk(img, own, dst);
    RootExists(img, own);
    AbsWalk(img, own, Parent(src));
    WalkNode(img, own, Parent(src));
    par := Walk(img, Parent(src)).value;
    ChildOwner(img, own, par, Last(src));
    k := FindName(SlotsOf(img, par), Last(src));
  }

  /** rename inside one directory moves the whole subtree at src to dst, each path keeping its
      inode, allocating and freeing nothing; anything else is refused without a change. */
  lemma RenameWorks(img: Image, own: Owners, src: Path, dst: Path)
    requires WellFormed(img, own) && (RenameError(Abs(img), src, dst) == 0 && dst != [] ==> GoodName(Last(dst)))
    ensures var (img', r) := Rename(img, src, dst);
            && r == Ret(RenameError(Abs(img), src, dst))
            && WellFormed(img', own) && img'.used == img.used
            && if RenameError(Abs(img), src, dst) == 0
               then Abs(img') == Moved(Abs(img), src, dst) && WalksMoved(img, img', src, dst)
               else img' == img
  {
    if RenameError(Abs(img), src, dst) == 0 {
      var par, k := RenameRelabels(img, own, src, dst);
      var img' := Rename(img, src, dst).0;
      RelabelledKeeps(img, img', own, par, k, Last(dst));
      RelabelledAbs(img, img', own, src, dst, par, k);
      RelabelledWalks(img, img', own, src, dst, par, k);
    } else {
      PathExact(img, own, src);
      AbsWalk(img, own, src);
      AbsWalk(img, own, dst);
    }
  }

  /** After a rename the new name resolves, whether or not it fits. */
  lemma RenamedResolves(img: Image, own: Owners, src: Path, dst: Path)
    requires WellFormed(img, own) && RenameError(Abs(img), src, dst) == 0
    ensures dst != [] && Walk(Rename(img, src, dst).0, dst).Some?
  {
    hide WellFormed, Rename, Relabelled;
    var par, k := RenameRelabels(img, own, src, dst);
    RelabelledAt(img, Rename(img, src, dst).0, own, src, dst, par, k, dst);
    assert Origin(src, dst, dst) == Some(src + dst[|dst|..]) && src + dst[|dst|..] == src;
  }

  /** rename keeps the disk well formed exactly when it does not store a name its slot cannot
      hold: nothing checks the new name's length. (A slot here keeps such a name whole; the copy
      at fs5600.c:639 runs past the field.) */
  lemma RenameKeepsIff(img: Image, own: Owners, src: Path, dst: Path)
    requires WellFormed(img, own)
    ensures (exists own' :: WellFormed(Rename(img, src, dst).0, own')) <==>
              !(RenameError(Abs(img), src, dst) == 0 && dst != [] && !GoodName(Last(dst)))
  {
    hide WellFormed, Rename, RenameError, Walk;
    var img' := Rename(img, src, dst).0;
    forall own' | WellFormed(img', own') && dst != [] && Walk(img', dst).Some? ensures GoodName(Last(dst)) {
      WalkNames(img', own', dst);
    }
    if RenameError(Abs(img), src, dst) == 0 && dst != [] && !GoodName(Last(dst)) {
      RenamedResolves(img, own, src, dst);
    } else {
      RenameWorks(img, own, src, dst);
    }
  }
}
