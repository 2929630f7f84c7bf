/** create and mkdir: their exact return codes, what they do to the tree, and that they keep
    the disk well formed. */
module Creation {
  import opened Layout
  import opened Volume
  import opened Lookup
  import opened TreeEdits
  import opened Operations
  import opened Linking

  /** The code create and mkdir answer with before they allocate anything, read off the tree. */
  ghost function PlaceError(fs: Tree, p: Path): int {
    if p == [] || p in fs then -EEXIST
    else if |Last(p)| > NAME_MAX then -EINVAL
    else if Parent(p) !in fs then -ENOENT
    else if !fs[Parent(p)].Directory? then -ENOTDIR
    else 0
  }

  lemma RootExists(img: Image, own: Owners)
    requires WellFormed(img, own)
    ensures Walk(img, []) == Some(ROOT) && [] in Abs(img) && Abs(img)[[]].Directory?
  {
    assert GoodBlock(img, own, ROOT);
  }

  /** A path is in the tree exactly when it resolves, and it stands for what its inode holds. */
  lemma AbsWalk(img: Image, own: Owners, p: Path)
    requires WellFormed(img, own)
    ensures p in Abs(img) <==> Walk(img, p).Some?
    ensures p in Abs(img) ==>
              var m := Walk(img, p).value;
              && IsNode(own, m) && IsInode(img, m) && Abs(img)[p] == ViewOf(img, NodeOf(img, m))
              && Resolve(img, p) == m >= ROOT
              && HasDir(img, m) == Abs(img)[p].Directory?
    ensures p !in Abs(img) ==> Resolve(img, p) in {-ENOENT, -ENOTDIR}
  {
    WalkNode(img, own, p);
    ResolveExact(img, own, p);
    if Walk(img, p).Some? {
      DirTable(img, own, Walk(img, p).value);
    }
  }

  lemma NewPlaceExact(img: Image, own: Owners, p: Path)
    requires WellFormed(img, own)
    ensures [] in Abs(img)
    ensures var e := PlaceError(Abs(img), p);
            if e < 0 then NewPlace(img, p) == e
            else Walk(img, p) == None && Walk(img, Parent(p)) == Some(NewPlace(img, p)) && IsNode(own, NewPlace(img, p))
  {
    RootExists(img, own);
    AbsWalk(img, own, p);
    if p != [] {
      AbsWalk(img, own, Parent(p));
    }
  }

  /** 128 names lead on from directory d. */
  ghost predicate FullDir(fs: Tree, d: Path) {
    exists names: set<Name> :: |names| == NUM_DIRENTS && AllBelow(fs, d, names)
  }

  ghost predicate AllBelow(fs: Tree, d: Path, names: set<Name>) {
    forall name :: name in names ==> d + [name] in fs
  }

  /** The answer of create (need == 1) and mkdir (need == 2) on a disk with `free` free blocks. */
  ghost function AddAnswer(fs: Tree, free: nat, p: Path, need: nat): Result {
    var e := PlaceError(fs, p);
    if e < 0 then Ret(e)
    else if free < need then Aborted
    else if FullDir(fs, Parent(p)) then Ret(-EINVAL)
    else Ret(0)
  }

  // ---------- Full directories ----------

  /** The names in a directory table. */
  function NamesOf(slots: seq<Dirent>): (names: set<Name>)
    ensures forall n :: n in names <==> exists k :: 0 <= k < |slots| && Named(slots[k], n)
  {
    if slots == [] then {}
    else
      var e := slots[|slots| - 1];
      var names := NamesOf(slots[..|slots| - 1]);
      assert forall k :: 0 <= k < |slots| - 1 ==> slots[k] == slots[..|slots| - 1][k];
      if e.valid then names + {e.name} else names
  }

  lemma NamesSnoc(slots: seq<Dirent>, e: Dirent)
    requires forall k :: 0 <= k < |slots| && slots[k].valid && e.valid ==> slots[k].name != e.name
    ensures |NamesOf(slots + [e])| == |NamesOf(slots)| + if e.valid then 1 else 0
  {
    assert (slots + [e])[..|slots|] == slots;
    assert e.valid ==> e.name !in NamesOf(slots);
  }

  /** A table of distinct names holds as many names as slots exactly when every slot is valid. */
  lemma {:induction false} NamesCount(slots: seq<Dirent>)
    requires forall j, k :: 0 <= j < k < |slots| && slots[j].valid && slots[k].valid ==> slots[j].name != slots[k].name
    ensures |NamesOf(slots)| <= |slots|
    ensures |NamesOf(slots)| == |slots| <==> forall k :: 0 <= k < |slots| ==> slots[k].valid
    decreases |slots|
  {
    hide NamesOf;
    if slots == [] {
      NoNames();
    } else {
      var init, e := slots[..|slots| - 1], slots[|slots| - 1];
      assert slots == init + [e];
      NamesCount(init);
      NamesSnoc(init, e);
    }
  }

  lemma NoNames()
    ensures NamesOf([]) == {}
  {
  }

  /** The parent directory of p has no slot left. */
  ghost predicate ParentFull(img: Image, p: Path) {
    var d := Walk(img, Parent(p));
    d.Some? && HasDir(img, d.value) && forall k :: 0 <= k < NUM_DIRENTS ==> SlotsOf(img, d.value)[k].valid
  }

  /** A directory has no slot left exactly when 128 names lead on from it. */
  lemma FullExact(img: Image, own: Owners, p: Path)
    requires WellFormed(img, own) && p != []
    ensures ParentFull(img, p) <==> FullDir(Abs(img), Parent(p))
  {
    var d := Parent(p);
    AbsWalk(img, own, d);
    forall name ensures d + [name] in Abs(img) <==> Walk(img, d).Some? && Child(img, Walk(img, d).value, name).Some? {
      assert Parent(d + [name]) == d && Last(d + [name]) == name;
      AbsWalk(img, own, d + [name]);
    }
    if Walk(img, d).Some? && HasDir(img, Walk(img, d).value) {
      DirTable(img, own, Walk(img, d).value);
      var slots := SlotsOf(img, Walk(img, d).value);
      NamesCount(slots);
      NamesBelow(Abs(img), d, slots);
    } else if FullDir(Abs(img), d) {
      NoneBelowFile(Abs(img), d);
    }
  }

  lemma NamesBelow(fs: Tree, d: Path, slots: Slots)
    requires forall name :: d + [name] in fs <==> FindName(slots, name) < NUM_DIRENTS
    requires |NamesOf(slots)| <= NUM_DIRENTS
    ensures FullDir(fs, d) <==> |NamesOf(slots)| == NUM_DIRENTS
  {
    forall name ensures name in NamesOf(slots) <==> d + [name] in fs {
      assert FindName(slots, name) < NUM_DIRENTS ==> Named(slots[FindName(slots, name)], name);
    }
    assert AllBelow(fs, d, NamesOf(slots));
    if FullDir(fs, d) {
      var names: set<Name> :| |names| == NUM_DIRENTS && AllBelow(fs, d, names);
      assert names <= NamesOf(slots);
      Smaller(names, NamesOf(slots));
    }
  }

  lemma Smaller(a: set<Name>, b: set<Name>)
    requires a <= b
    ensures |a| <= |b|
  {
    assert b == a + (b - a);
  }

  lemma NoneBelowFile(fs: Tree, d: Path)
    requires FullDir(fs, d)
    ensures exists name :: d + [name] in fs
  {
    var names: set<Name> :| |names| == NUM_DIRENTS && AllBelow(fs, d, names);
    var name :| name in names;
    assert d + [name] in fs;
  }

  ghost function CreateOwners(img: Image, own: Owners, p: Path): Owners {
    var par := NewPlace(img, p);
    if par < 0 then own
    else EntryOwners(img, own, par, FirstFree(img.used))
  }

  /** create answers 0 exactly when the path is new, its last name fits, its parent is a
      directory with a free slot, and a block is free; otherwise it answers as listed. */
  lemma CreateCode(img: Image, own: Owners, p: Path, mode: bv32, ctx: Caller, junk: Pointers)
    requires WellFormed(img, own)
    ensures [] in Abs(img)
    ensures Create(img, p, mode, ctx, junk).1 == AddAnswer(Abs(img), |FreeBlocks(img.used)|, p, 1)
  {
    NewPlaceExact(img, own, p);
    if PlaceError(Abs(img), p) == 0 {
      FullExact(img, own, p);
      FirstGap(SlotsOf(img, NewPlace(img, p)));
    }
  }

  lemma FirstGap(slots: Slots)
    ensures FindValid(slots, false) == NUM_DIRENTS <==> forall k :: 0 <= k < NUM_DIRENTS ==> slots[k].valid
  {
    assert forall k :: 0 <= k < FindValid(slots, false) ==> slots[k].valid;
  }

  /** The node written for a new inode: an empty file, or a directory with an empty table. */
  ghost predicate Fresh(img1: Image, inum: nat, table: nat) {
    && IsInode(img1, inum) && table < |img1.blk|
    && var n := NodeOf(img1, inum);
       if table == inum then IsReg(n.attr.mode) && !IsDir(n.attr.mode) && n.size == 0
       else IsDir(n.attr.mode) && n.size == BLOCK_SIZE && n.ptrs[0] == table
            && img1.blk[table].Dir? && EmptyTable(img1.blk[table].slots)
  }

  ghost function EntryOwners(img: Image, own: Owners, par: nat, inum: nat): Owners
    requires HasDir(img, par)
  {
    own[inum := Entry(par, FindValid(SlotsOf(img, par), false), Depth(own, par) + 1)]
  }

  lemma EnterLinked(img: Image, img1: Image, own: Owners, own': Owners, par: nat, name: Name, inum: nat, table: nat)
    requires WellFormed(img, own) && IsNode(own, par) && HasDir(img, par)
    requires GoodName(name) && Child(img, par, name) == None
    requires inum !in img.used && table !in img.used && ROOT < inum < NUM_BLOCKS && ROOT < table < NUM_BLOCKS
    requires |img1.blk| == NUM_BLOCKS && img1.used == img.used + {inum, table} && Fresh(img1, inum, table)
    requires forall b :: 0 <= b < NUM_BLOCKS && b != inum && b != table ==> img1.blk[b] == img.blk[b]
    requires own' == EntryOwners(img, if table == inum then own else own[table := Table(inum)], par, inum)
    requires Enter(img1, TableOf(img, par), SlotsOf(img, par), name, inum).1 == Ret(0)
    ensures Linked(img, Enter(img1, TableOf(img, par), SlotsOf(img, par), name, inum).0, own, own', par,
                   FindValid(SlotsOf(img, par), false), name, inum, table)
  {
    DirTable(img, own, par);
    assert GoodBlock(img, own, TableOf(img, par));
    assert Depth(own[table := Table(inum)], par) == Depth(own, par);
    assert own'.Keys == own.Keys + {inum, table};
    hide GoodSlots, GoodInode, GoodBlock;
  }

  /** Entering the freshly written inode keeps the disk well formed and adds it at path p. */
  lemma EnterWorks(img: Image, img1: Image, own: Owners, own': Owners, p: Path, par: nat, inum: nat, table: nat)
    requires WellFormed(img, own) && p != [] && GoodName(Last(p))
    requires Walk(img, p) == None && Walk(img, Parent(p)) == Some(par) && IsNode(own, par) && HasDir(img, par)
    requires inum !in img.used && table !in img.used && ROOT < inum < NUM_BLOCKS && ROOT < table < NUM_BLOCKS
    requires |img1.blk| == NUM_BLOCKS && img1.used == img.used + {inum, table} && Fresh(img1, inum, table)
    requires forall b :: 0 <= b < NUM_BLOCKS && b != inum && b != table ==> img1.blk[b] == img.blk[b]
    requires own' == EntryOwners(img, if table == inum then own else own[table := Table(inum)], par, inum)
    requires Enter(img1, TableOf(img, par), SlotsOf(img, par), Last(p), inum).1 == Ret(0)
    ensures var img' := Enter(img1, TableOf(img, par), SlotsOf(img, par), Last(p), inum).0;
            && WellFormed(img', own') && Abs(img') == Abs(img)[p := ViewOf(img1, NodeOf(img1, inum))]
            && WalksPut(img, img', p, Some(inum))
  {
    var img' := Enter(img1, TableOf(img, par), SlotsOf(img, par), Last(p), inum).0;
    var k := FindValid(SlotsOf(img, par), false);
    EnterLinked(img, img1, own, own', par, Last(p), inum, table);
    LinkedKeeps(img, img', own, own', par, k, Last(p), inum, table);
    LinkedAbs(img, img', own, own', p, par, k, inum, table);
    assert GoodBlock(img', own', inum);
    assert NodeOf(img', inum) == NodeOf(img1, inum);
    if table == inum {
      assert Contents(img', NodeOf(img1, inum)) == Contents(img1, NodeOf(img1, inum));
    }
  }

  /** A successful create keeps the disk well formed and adds one empty file to the tree. */
  lemma CreateWorks(img: Image, own: Owners, p: Path, mode: bv32, ctx: Caller, junk: Pointers)
    requires WellFormed(img, own) && (p != [] && |Last(p)| <= NAME_MAX ==> GoodName(Last(p)))
    requires Create(img, p, mode, ctx, junk).1 == Ret(0)
    ensures var img' := Create(img, p, mode, ctx, junk).0;
            && WellFormed(img', CreateOwners(img, own, p)) && WalksPut(img, img', p, Some(FirstFree(img.used)))
            && Abs(img') == Abs(img)[p := File(Attr(ctx.uid, ctx.gid, WithLow(0x8000, mode), ctx.now, ctx.now), [])]
  {
    NewPlaceExact(img, own, p);
    ModeKinds(0, mode);
    StoredModes(0, mode);
    FirstFreeFresh(img.used);
    var par, inum := NewPlace(img, p), FirstFree(img.used);
    var n := NewFile(ctx, mode, junk);
    var img1 := PutNew(img, inum, INode(n));
    assert img1.used == img.used + {inum, inum};
    assert Contents(img1, n) == [];
    EnterWorks(img, img1, own, CreateOwners(img, own, p), p, par, inum, inum);
  }

  /** The new file's mode as a number: a regular file, with the low twelve bits asked for. */
  lemma CreateMode(img: Image, own: Owners, p: Path, mode: bv32, ctx: Caller, junk: Pointers)
    requires WellFormed(img, own) && (p != [] && |Last(p)| <= NAME_MAX ==> GoodName(Last(p)))
    requires Create(img, p, mode, ctx, junk).1 == Ret(0)
    ensures var fs := Abs(Create(img, p, mode, ctx, junk).0);
            p in fs && fs[p].attr.mode as int == 0x8000 + mode as int % 0x1000
  {
    hide WellFormed, Create, Abs, WithLow;
    CreateWorks(img, own, p, mode, ctx, junk);
    WithLowValue(0x8000, mode);
  }

  lemma CreateFailImage(img: Image, own: Owners, p: Path, mode: bv32, ctx: Caller, junk: Pointers)
    requires WellFormed(img, own)
    requires Create(img, p, mode, ctx, junk).1 != Ret(0)
    ensures var img' := Create(img, p, mode, ctx, junk).0;
            && SameOwned(img, img', own)
            && img'.used == if NewPlace(img, p) >= 0 && FreeBlocks(img.used) != {}
               then img.used + {FirstFree(img.used)} else img.used
  {
    hide NewPlace, Resolve;
    if FirstFree(img.used) < NUM_BLOCKS {
      FirstFreeFresh(img.used);
    }
  }

  /** A create that does not answer 0 changes nothing a user sees; it marks a block only when
      the parent directory turns out to be full. */
  lemma CreateFails(img: Image, own: Owners, p: Path, mode: bv32, ctx: Caller, junk: Pointers)
    requires WellFormed(img, own)
    requires Create(img, p, mode, ctx, junk).1 != Ret(0)
    ensures [] in Abs(img)
    ensures var img' := Create(img, p, mode, ctx, junk).0;
            && WellFormed(img', own) && Abs(img') == Abs(img) && SameWalks(img, img')
            && img'.used == if PlaceError(Abs(img), p) == 0 && FreeBlocks(img.used) != {}
               then img.used + {FirstFree(img.used)} else img.used
  {
    hide Create, NewPlace, Abs, FreeBlocks, FirstFree, SameOwned;
    var img' := Create(img, p, mode, ctx, junk).0;
    NewPlaceExact(img, own, p);
    CreateFailImage(img, own, p, mode, ctx, junk);
    SameOwnedKeeps(img, img', own);
    SameOwnedAbs(img, img', own);
  }

  // ---------- mkdir ----------

  /** The inode block and the table block mkdir picks. */
  ghost function DirBlocks(used: set<nat>): (nat, nat) {
    (FirstFree(used), FirstFree(used + {FirstFree(used)}))
  }

  ghost function MkdirOwners(img: Image, own: Owners, p: Path): Owners {
    var par := NewPlace(img, p);
    var (inum, table) := DirBlocks(img.used);
    if par < 0 then own
    else EntryOwners(img, own[table := Table(inum)], par, inum)
  }

  lemma DirBlocksFresh(used: set<nat>)
    ensures var (inum, table) := DirBlocks(used);
            && (inum == NUM_BLOCKS <==> FreeBlocks(used) == {})
            && (inum < NUM_BLOCKS && table == NUM_BLOCKS <==> |FreeBlocks(used)| == 1)
            && (inum < NUM_BLOCKS && table < NUM_BLOCKS ==>
                  FIRST_DATA <= inum && inum !in used && FIRST_DATA <= table && table !in used && table != inum)
  {
    var (inum, table) := DirBlocks(used);
    var free := FreeBlocks(used);
    FreeBlocksMinus(used, inum);
    if inum < NUM_BLOCKS {
      FirstFreeFresh(used);
      assert inum in free && |free - {inum}| == |free| - 1;
      if table < NUM_BLOCKS {
        FirstFreeFresh(used + {inum});
        assert table in free - {inum};
      }
    }
  }

  /** mkdir answers like create, but needs two free blocks. */
  lemma MkdirCode(img: Image, own: Owners, p: Path, mode: bv32, ctx: Caller, junk: Pointers)
    requires WellFormed(img, own)
    ensures [] in Abs(img)
    ensures Mkdir(img, p, mode, ctx, junk).1 == AddAnswer(Abs(img), |FreeBlocks(img.used)|, p, 2)
  {
    NewPlaceExact(img, own, p);
    DirBlocksFresh(img.used);
    if PlaceError(Abs(img), p) == 0 {
      FullExact(img, own, p);
      FirstGap(SlotsOf(img, NewPlace(img, p)));
    }
  }

  /** A successful mkdir keeps the disk well formed and adds one empty directory to the tree. */
  lemma MkdirWorks(img: Image, own: Owners, p: Path, mode: bv32, ctx: Caller, junk: Pointers)
    requires WellFormed(img, own) && (p != [] && |Last(p)| <= NAME_MAX ==> GoodName(Last(p)))
    requires Mkdir(img, p, mode, ctx, junk).1 == Ret(0)
    ensures var img' := Mkdir(img, p, mode, ctx, junk).0;
            && WellFormed(img', MkdirOwners(img, own, p)) && WalksPut(img, img', p, Some(FirstFree(img.used)))
            && var attr := Attr(ctx.uid, ctx.gid, WithLow(0x4000, mode), ctx.now, ctx.now);
               Abs(img') == Abs(img)[p := Directory(attr, BLOCK_SIZE)]
  {
    NewPlaceExact(img, own, p);
    ModeKinds(0, mode);
    StoredModes(0, mode);
    DirBlocksFresh(img.used);
    var par := NewPlace(img, p);
    var (inum, table) := DirBlocks(img.used);
    var img1 := PutNew(PutNew(img, table, Dir(NoSlots())), inum, INode(NewDir(ctx, mode, junk, table)));
    assert img1.used == img.used + {inum, table};
    EnterWorks(img, img1, own, MkdirOwners(img, own, p), p, par, inum, table);
  }

  /** The new directory's mode as a number. */
  lemma MkdirMode(img: Image, own: Owners, p: Path, mode: bv32, ctx: Caller, junk: Pointers)
    requires WellFormed(img, own) && (p != [] && |Last(p)| <= NAME_MAX ==> GoodName(Last(p)))
    requires Mkdir(img, p, mode, ctx, junk).1 == Ret(0)
    ensures var fs := Abs(Mkdir(img, p, mode, ctx, junk).0);
            p in fs && fs[p].attr.mode as int == 0x4000 + mode as int % 0x1000
  {
    hide WellFormed, Mkdir, Abs, WithLow;
    MkdirWorks(img, own, p, mode, ctx, junk);
    WithLowValue(0x4000, mode);
  }

  lemma MkdirFailImage(img: Image, own: Owners, p: Path, mode: bv32, ctx: Caller, junk: Pointers)
    requires WellFormed(img, own)
    requires Mkdir(img, p, mode, ctx, junk).1 != Ret(0)
    ensures var img' := Mkdir(img, p, mode, ctx, junk).0;
            var (inum, table) := DirBlocks(img.used);
            && SameOwned(img, img', own)
            && img'.used == if NewPlace(img, p) < 0 || inum == NUM_BLOCKS then img.used
                            else if table == NUM_BLOCKS then img.used + {inum}
                            else img.used + {inum, table}
  {
    hide NewPlace, Resolve, FreeBlocks;
    DirBlocksFresh(img.used);
  }

  /** A mkdir that does not answer 0 changes nothing a user sees. */
  lemma MkdirFails(img: Image, own: Owners, p: Path, mode: bv32, ctx: Caller, junk: Pointers)
    requires WellFormed(img, own)
    requires Mkdir(img, p, mode, ctx, junk).1 != Ret(0)
    ensures [] in Abs(img)
    ensures var img' := Mkdir(img, p, mode, ctx, junk).0;
            var (inum, table) := DirBlocks(img.used);
            && WellFormed(img', own) && Abs(img') == Abs(img) && SameWalks(img, img')
            && img'.used == if PlaceError(Abs(img), p) < 0 || FreeBlocks(img.used) == {} then img.used
                            else if |FreeBlocks(img.used)| == 1 then img.used + {inum}
                            else img.used + {inum, table}
  {
    hide Mkdir, NewPlace, Abs, FreeBlocks, FirstFree, SameOwned, DirBlocks;
    var img' := Mkdir(img, p, mode, ctx, junk).0;
    NewPlaceExact(img, own, p);
    DirBlocksFresh(img.used);
    MkdirFailImage(img, own, p, mode, ctx, junk);
    SameOwnedKeeps(img, img', own);
    SameOwnedAbs(img, img', own);
  }
}
