/** Path lookup on a well-formed image: the directory graph is a tree, and the loop of
    path2inum finds exactly the inode the abstract walk reaches. */
module Lookup {
  import opened Layout
  import opened Volume

  // ---------- One directory ----------

  /** In a directory of a well-formed image a lookup does not depend on slot order: any valid
      slot with the name is the one found. */
  lemma ChildBySlot(img: Image, own: Owners, m: nat, k: nat)
    requires WellFormed(img, own) && IsNode(own, m) && HasDir(img, m)
    requires k < NUM_DIRENTS && SlotsOf(img, m)[k].valid
    ensures Child(img, m, SlotsOf(img, m)[k].name) == Some(SlotsOf(img, m)[k].inode)
    ensures FindName(SlotsOf(img, m), SlotsOf(img, m)[k].name) == k
  {
    DirTable(img, own, m);
    var slots := SlotsOf(img, m);
    var r := FindName(slots, slots[k].name);
    assert r <= k && slots[r].valid && slots[r].name == slots[k].name;
  }

  lemma DirTable(img: Image, own: Owners, m: nat)
    requires WellFormed(img, own) && IsNode(own, m)
    ensures IsInode(img, m) && GoodInode(own, m, NodeOf(img, m))
    ensures IsDir(NodeOf(img, m).attr.mode) ==> HasDir(img, m)
    ensures HasDir(img, m) ==>
              TableOf(img, m) in own && own[TableOf(img, m)] == Table(m) && GoodSlots(own, m, SlotsOf(img, m))
  {
    assert GoodBlock(img, own, m);
    var n := NodeOf(img, m);
    if IsDir(n.attr.mode) {
      assert GoodBlock(img, own, n.ptrs[0]);
    }
  }

  /** A name leads from directory m to inode x just when x is owned by the slot with that name. */
  lemma ChildOwner(img: Image, own: Owners, m: nat, name: Name)
    requires WellFormed(img, own) && IsNode(own, m)
    ensures var c := Child(img, m, name);
            c.Some? ==> HasDir(img, m) && c.value in own && GoodName(name) &&
                        var k := FindName(SlotsOf(img, m), name);
                        k < NUM_DIRENTS && own[c.value] == Entry(m, k, Depth(own, m) + 1)
  {
    DirTable(img, own, m);
  }

  // ---------- Paths ----------

  lemma SamePath(p: Path, q: Path)
    requires p != [] && q != []
    ensures p == q <==> Parent(p) == Parent(q) && Last(p) == Last(q)
  {
    assert p == Parent(p) + [Last(p)] && q == Parent(q) + [Last(q)];
  }

  lemma {:induction false} WalkNode(img: Image, own: Owners, p: Path)
    requires WellFormed(img, own)
    ensures Walk(img, p).Some? ==> IsNode(own, Walk(img, p).value) && Depth(own, Walk(img, p).value) == |p|
    ensures Walk(img, p).Some? ==> IsInode(img, Walk(img, p).value)
    decreases |p|
  {
    if p != [] && Walk(img, p).Some? {
      WalkNode(img, own, Parent(p));
      ChildOwner(img, own, Walk(img, Parent(p)).value, Last(p));
    }
    if Walk(img, p).Some? {
      assert GoodBlock(img, own, Walk(img, p).value);
    }
  }

  /** Two paths that reach the same inode are the same path: the directory graph is a tree. */
  lemma {:induction false} WalkUnique(img: Image, own: Owners, p: Path, q: Path)
    requires WellFormed(img, own)
    requires Walk(img, p).Some? && Walk(img, p) == Walk(img, q)
    ensures p == q
    decreases |p|
  {
    WalkNode(img, own, p);
    WalkNode(img, own, q);
    if p != [] {
      WalkNode(img, own, Parent(p));
      WalkNode(img, own, Parent(q));
      ChildOwner(img, own, Walk(img, Parent(p)).value, Last(p));
      ChildOwner(img, own, Walk(img, Parent(q)).value, Last(q));
      WalkUnique(img, own, Parent(p), Parent(q));
      SamePath(p, q);
    }
  }

  lemma {:induction false} WalkPrefix(img: Image, p: Path, j: nat)
    requires j <= |p| && Walk(img, p).Some?
    ensures Walk(img, p[..j]).Some?
    decreases |p|
  {
    if j == |p| {
      assert p[..j] == p;
    } else {
      assert Parent(p)[..j] == p[..j];
      WalkPrefix(img, Parent(p), j);
    }
  }

  /** Everything on the way to a path that resolves is a directory. */
  lemma WalkThroughDirs(img: Image, p: Path, j: nat)
    requires j < |p| && Walk(img, p).Some?
    ensures Walk(img, p[..j]).Some? && HasDir(img, Walk(img, p[..j]).value)
    ensures Child(img, Walk(img, p[..j]).value, p[j]) == Walk(img, p[..j + 1])
  {
    WalkPrefix(img, p, j);
    WalkPrefix(img, p, j + 1);
    assert Parent(p[..j + 1]) == p[..j] && Last(p[..j + 1]) == p[j];
  }

  /** Every component of a path that resolves is a legal name. */
  lemma {:induction false} WalkNames(img: Image, own: Owners, p: Path)
    requires WellFormed(img, own) && Walk(img, p).Some?
    ensures forall j :: 0 <= j < |p| ==> GoodName(p[j])
    decreases |p|
  {
    if p != [] {
      WalkNode(img, own, Parent(p));
      ChildOwner(img, own, Walk(img, Parent(p)).value, Last(p));
      WalkNames(img, own, Parent(p));
      forall j | 0 <= j < |p| ensures GoodName(p[j]) {
        assert j < |p| - 1 ==> p[j] == Parent(p)[j];
      }
    }
  }

  // ---------- path2inum ----------

  /** The answer of path2inum's loop when components p[..j] have led to inode cur. */
  function ResolveFrom(img: Image, p: Path, j: nat, cur: nat): int
    requires j < |p|
    decreases |p| - j
  {
    if |p[j]| > NAME_MAX then (if j < |p| - 1 then -ENOTDIR else -ENOENT)
    else match Child(img, cur, p[j])
      case None => if |p| > 1 && j == |p| - 1 then -ENOTDIR else -ENOENT
      case Some(n) =>
        if j == |p| - 1 then n
        else if !HasDir(img, n) then -ENOTDIR
        else ResolveFrom(img, p, j + 1, n)
  }

  function Resolve(img: Image, p: Path): int {
    if p == [] then ROOT else ResolveFrom(img, p, 0, ROOT)
  }

  lemma WalkNext(img: Image, p: Path, j: nat)
    requires j < |p| && Walk(img, p[..j]).Some?
    ensures Walk(img, p[..j + 1]) == Child(img, Walk(img, p[..j]).value, p[j])
  {
    assert Parent(p[..j + 1]) == p[..j] && Last(p[..j + 1]) == p[j];
  }

  lemma {:induction false} ResolveFromWalk(img: Image, own: Owners, p: Path, j: nat, cur: nat)
    requires WellFormed(img, own) && j < |p|
    requires Walk(img, p[..j]) == Some(cur) && HasDir(img, cur)
    ensures Walk(img, p).Some? ==> ResolveFrom(img, p, j, cur) == Walk(img, p).value
    ensures Walk(img, p).None? ==> ResolveFrom(img, p, j, cur) in {-ENOENT, -ENOTDIR}
    decreases |p| - j
  {
    hide WellFormed, Walk, Child, HasDir;
    var q := p[..j + 1];
    WalkNext(img, p, j);
    if Walk(img, p).Some? {
      WalkPrefix(img, p, j + 1);
      WalkNames(img, own, p);
    }
    if j == |p| - 1 {
      assert q == p;
    } else if Walk(img, q).Some? {
      if HasDir(img, Walk(img, q).value) {
        ResolveFromWalk(img, own, p, j + 1, Walk(img, q).value);
      } else if Walk(img, p).Some? {
        WalkThroughDirs(img, p, j + 1);
      }
    }
  }

  /** Lookup is sound and complete: path2inum answers n > 0 exactly when the path leads to inode n. */
  lemma ResolveExact(img: Image, own: Owners, p: Path)
    requires WellFormed(img, own)
    ensures Walk(img, p).Some? ==> Resolve(img, p) == Walk(img, p).value >= ROOT
    ensures Walk(img, p).None? ==> Resolve(img, p) in {-ENOENT, -ENOTDIR}
    ensures forall n: nat :: n > 0 ==> (Resolve(img, p) == n <==> Walk(img, p) == Some(n))
  {
    assert GoodBlock(img, own, ROOT);
    DirTable(img, own, ROOT);
    WalkNode(img, own, p);
    if Walk(img, p).Some? {
      assert GoodBlock(img, own, Walk(img, p).value);
    }
    if p != [] {
      assert p[..0] == [];
      ResolveFromWalk(img, own, p, 0, ROOT);
    }
  }
}
