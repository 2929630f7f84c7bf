/** unlink and rmdir: exact return codes, the invariant, the change to the tree, and the blocks
    given back. */
module Deletion {
  import opened Layout
  import opened Volume
  import opened Lookup
  import opened TreeEdits
  import opened Operations
  import opened Creation
  import opened Updates
  import opened Unlinking

  /** The tree with directory d's modification time set. */
  ghost function Touched(fs: Tree, d: Path, now: nat): Tree
    requires d in fs
  {
    fs[d := WithAttr(fs[d], fs[d].attr.(mtime := now))]
  }

  /** The slot cleared by inode number is the very slot the name walk resolved. */
  lemma SlotOfName(img: Image, own: Owners, p: Path)
    requires WellFormed(img, own) && p != [] && Walk(img, p).Some?
    ensures var d, x := Walk(img, Parent(p)), Walk(img, p).value;
            && d.Some? && HasDir(img, d.value)
            && var slots := SlotsOf(img, d.value);
               var k := FindName(slots, Last(p));
               && k < NUM_DIRENTS && FindInode(slots, x) == k && x in own && own[x] == Entry(d.value, k, |p|)
               && forall j :: 0 <= j < NUM_DIRENTS && j != k && slots[j].valid ==>
                    slots[j].inode != x && slots[j].name != Last(p)
  {
    var d, x := Walk(img, Parent(p)).value, Walk(img, p).value;
    WalkNode(img, own, Parent(p));
    ChildOwner(img, own, d, Last(p));
    DirTable(img, own, d);
    var slots := SlotsOf(img, d);
    var k := FindName(slots, Last(p));
    assert slots[k].inode == x;
    forall j | 0 <= j < NUM_DIRENTS && j != k && slots[j].valid ensures slots[j].inode != x {
      assert own[slots[j].inode] == Entry(d, j, |p|);
    }
  }

  lemma LeaveUnlinked(img: Image, imgA: Image, img': Image, own: Owners, used: set<nat>, par: nat, k: nat, x: nat,
      now: nat)
    requires WellFormed(img, own) && IsNode(own, par) && HasDir(img, par) && k < NUM_DIRENTS
    requires FindInode(SlotsOf(img, par), x) == k
    requires HasDir(img, x) ==> EmptyTable(SlotsOf(img, x))
    requires x != par && x in own && own[x] == Entry(par, k, Depth(own, par) + 1)
    requires imgA == SetAttr(img, par, NodeOf(img, par).attr.(mtime := now))
    requires img' == Leave(img.(used := used), par, x, now)
    requires (forall b: nat :: b in used ==> b < NUM_BLOCKS) && (forall b: nat :: b in Drop(own, x) ==> b in used)
             && 0 in used && 1 in used
    ensures Unlinked(imgA, img', own, par, k, x) && SlotsOf(imgA, par) == SlotsOf(img, par)
  {
    DirTable(img, own, par);
    DirTable(img, own, x);
  }

  /** Removing the entry of a file or an empty directory, having freed what it owns. */
  lemma LeaveWorks(img: Image, own: Owners, p: Path, used: set<nat>, now: nat)
    requires WellFormed(img, own) && p != [] && p in Abs(img)
    requires var x := Walk(img, p).value; HasDir(img, x) ==> EmptyTable(SlotsOf(img, x))
    requires forall b: nat :: b in used ==> b < NUM_BLOCKS
    requires forall b: nat :: b in Drop(own, Walk(img, p).value) ==> b in used
    requires 0 in used && 1 in used
    ensures Parent(p) in Abs(img) && Walk(img, Parent(p)).Some? && HasDir(img, Walk(img, Parent(p)).value)
    ensures var par, x := Walk(img, Parent(p)).value, Walk(img, p).value;
            var img' := Leave(img.(used := used), par, x, now);
            && WellFormed(img', Drop(own, x))
            && Abs(img') == Without(Touched(Abs(img), Parent(p), now), p) && WalksPut(img, img', p, None)
  {
    AbsWalk(img, own, p);
    WalkNode(img, own, p);
    SlotOfName(img, own, p);
    AbsWalk(img, own, Parent(p));
    WalkNode(img, own, Parent(p));
    var par, x := Walk(img, Parent(p)).value, Walk(img, p).value;
    var k := FindName(SlotsOf(img, par), Last(p));
    var attr := NodeOf(img, par).attr.(mtime := now);
    var imgA := SetAttr(img, par, attr);
    var img' := Leave(img.(used := used), par, x, now);
    SetAttrWorks(img, own, Parent(p), attr);
    SetAttrRewritten(img, own, par, attr);
    LeaveUnlinked(img, imgA, img', own, used, par, k, x, now);
    UnlinkedKeeps(imgA, img', own, par, k, x);
    UnlinkedAbs(imgA, img', own, p, par, k, x);
  }

  // ---------- unlink ----------

  ghost function UnlinkError(fs: Tree, p: Path): int {
    if Parent(p) !in fs then -ENOENT
    else if !fs[Parent(p)].Directory? then -ENOTDIR
    else if p !in fs then -ENOENT
    else if fs[p].Directory? then -EISDIR
    else 0
  }

  /** unlink removes an existing file: exactly its path goes, its parent is stamped, and exactly
      the blocks it owned are given back; anything else is refused without a change. */
  lemma UnlinkWorks(img: Image, own: Owners, p: Path, now: nat)
    requires WellFormed(img, own)
    ensures var (img', r) := Unlink(img, p, now);
            if UnlinkError(Abs(img), p) < 0 then img' == img && r == Ret(UnlinkError(Abs(img), p))
            else
              && r == Ret(0) && Walk(img, p).Some? && Parent(p) in Abs(img)
              && WellFormed(img', Drop(own, Walk(img, p).value))
              && Abs(img') == Without(Touched(Abs(img), Parent(p), now), p) && WalksPut(img, img', p, None)
              && img'.used == img.used - (own.Keys - Drop(own, Walk(img, p).value).Keys)
  {
    AbsWalk(img, own, p);
    AbsWalk(img, own, Parent(p));
    if UnlinkError(Abs(img), p) == 0 {
      RootExists(img, own);
      var x := Walk(img, p).value;
      var n := NodeOf(img, x);
      var used := img.used - Extents(n) - {x};
      FreedFile(img, own, x);
      LeaveWorks(img, own, p, used, now);
      assert used == img.used - (own.Keys - Drop(own, x).Keys);
    }
  }

  lemma FreedFile(img: Image, own: Owners, x: nat)
    requires WellFormed(img, own) && IsNode(own, x) && IsInode(img, x) && !IsDir(NodeOf(img, x).attr.mode)
    ensures Extents(NodeOf(img, x)) + {x} == own.Keys - Drop(own, x).Keys
    ensures 0 !in own && 1 !in own
  {
    forall b: nat ensures b in Extents(NodeOf(img, x)) + {x} <==> Belongs(own, x, b) {
      ExtentsOwned(img, own, x, b);
      if b in own {
        assert GoodBlock(img, own, b);
      }
    }
    assert 0 in own ==> GoodBlock(img, own, 0);
    assert 1 in own ==> GoodBlock(img, own, 1);
  }

  // ---------- rmdir ----------

  ghost predicate HasChildren(fs: Tree, p: Path) {
    exists name :: p + [name] in fs
  }

  /** A directory's table is empty exactly when no path leads below it. */
  lemma EmptyExact(img: Image, own: Owners, p: Path)
    requires WellFormed(img, own) && Walk(img, p).Some? && HasDir(img, Walk(img, p).value)
    ensures EmptyTable(SlotsOf(img, Walk(img, p).value)) <==> !HasChildren(Abs(img), p)
    ensures var slots := SlotsOf(img, Walk(img, p).value);
            EmptyTable(slots) <==> FindValid(slots, true) == NUM_DIRENTS
  {
    var m := Walk(img, p).value;
    var slots := SlotsOf(img, m);
    WalkNode(img, own, p);
    forall name ensures p + [name] in Abs(img) <==> Child(img, m, name).Some? {
      assert Parent(p + [name]) == p && Last(p + [name]) == name;
      AbsWalk(img, own, p + [name]);
    }
    if !EmptyTable(slots) {
      var k :| 0 <= k < NUM_DIRENTS && slots[k].valid;
      ChildBySlot(img, own, m, k);
      assert p + [slots[k].name] in Abs(img);
    }
  }

  ghost function RmdirError(fs: Tree, p: Path): int {
    if Parent(p) !in fs then -ENOENT
    else if !fs[Parent(p)].Directory? then -ENOTDIR
    else if p !in fs then -ENOENT
    else if !fs[p].Directory? then -ENOTDIR
    else if HasChildren(fs, p) then -ENOTEMPTY
    else 0
  }

  lemma RmdirCode(img: Image, own: Owners, p: Path, now: nat)
    requires WellFormed(img, own)
    ensures Rmdir(img, p, now).1 == Ret(RmdirError(Abs(img), p))
    ensures RmdirError(Abs(img), p) < 0 ==> Rmdir(img, p, now).0 == img
  {
    AbsWalk(img, own, p);
    AbsWalk(img, own, Parent(p));
    if p in Abs(img) && Abs(img)[p].Directory? {
      EmptyExact(img, own, p);
    }
  }

  /** What a directory owns besides its inode: its table block and its further blocks. */
  lemma FreedDir(img: Image, own: Owners, x: nat)
    requires WellFormed(img, own) && IsNode(own, x) && HasDir(img, x)
    ensures Extents(NodeOf(img, x)) + {x} == own.Keys - Drop(own, x).Keys
    ensures TableOf(img, x) in Extents(NodeOf(img, x)) && x !in Extents(NodeOf(img, x))
    ensures NodeOf(img, x).size <= BLOCK_SIZE <==> Extents(NodeOf(img, x)) == {TableOf(img, x)}
    ensures 0 !in own && 1 !in own
  {
    DirTable(img, own, x);
    var n := NodeOf(img, x);
    BlocksForLeast(n.size, 1);
    BlocksForLeast(n.size, NUM_PTRS);
    assert n.ptrs[0] in Extents(n);
    forall b: nat ensures b in Extents(n) + {x} <==> Belongs(own, x, b) {
      if b in own {
        assert GoodBlock(img, own, b);
      }
    }
    if n.size > BLOCK_SIZE {
      assert own[n.ptrs[1]] == Spare(x, 1) && n.ptrs[1] in Extents(n);
    }
    assert 0 in own ==> GoodBlock(img, own, 0);
    assert 1 in own ==> GoodBlock(img, own, 1);
  }

  /** rmdir of an empty directory other than the root removes exactly its path and gives back its
      inode and its table block; further blocks it had stay marked. */
  lemma RmdirWorks(img: Image, own: Owners, p: Path, now: nat)
    requires WellFormed(img, own) && p != [] && RmdirError(Abs(img), p) == 0
    ensures var img' := Rmdir(img, p, now).0;
            && Walk(img, p).Some? && Parent(p) in Abs(img) && HasDir(img, Walk(img, p).value)
            && WellFormed(img', Drop(own, Walk(img, p).value))
            && Abs(img') == Without(Touched(Abs(img), Parent(p), now), p) && WalksPut(img, img', p, None)
            && img'.used == img.used - {TableOf(img, Walk(img, p).value), Walk(img, p).value}
  {
    AbsWalk(img, own, p);
    AbsWalk(img, own, Parent(p));
    EmptyExact(img, own, p);
    var x := Walk(img, p).value;
    var used := img.used - {TableOf(img, x), x};
    FreedDir(img, own, x);
    LeaveWorks(img, own, p, used, now);
  }

  /** rmdir keeps the disk well formed exactly when it was not asked to remove an empty root:
      that call answers 0 and frees block 2, the root inode itself. */
  lemma RmdirKeepsIff(img: Image, own: Owners, p: Path, now: nat)
    requires WellFormed(img, own)
    ensures (exists own' :: WellFormed(Rmdir(img, p, now).0, own')) <==> !(p == [] && !HasChildren(Abs(img), []))
  {
    var img' := Rmdir(img, p, now).0;
    RmdirCode(img, own, p, now);
    RootExists(img, own);
    if p == [] && !HasChildren(Abs(img), []) {
      assert RmdirError(Abs(img), p) == 0;
      AbsWalk(img, own, p);
      assert ROOT !in img'.used;
    } else if RmdirError(Abs(img), p) == 0 {
      RmdirWorks(img, own, p, now);
    } else {
      assert WellFormed(img', own);
    }
  }
}
