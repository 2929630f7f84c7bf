/** read-img.py: the recursive walk over an image that lists inodes and checks the bitmap. */
module ImageWalk {
  import opened Layout
  import opened Paths
  import opened Volume
  import opened Lookup
  import opened Operations
  import opened Updates
  import opened Space

  /** Inode m is at or below path q. */
  ghost predicate Under(img: Image, q: Path, m: nat) {
    exists r :: q <= r && Walk(img, r) == Some(m)
  }

  /** The children a directory's slots name, in slot order. */
  function Children(slots: seq<Dirent>): seq<(Name, nat)> {
    if slots == [] then []
    else
      var e := slots[|slots| - 1];
      Children(slots[..|slots| - 1]) + (if e.valid then [(e.name, e.inode)] else [])
  }

  /** Each child listed is a child, every child is listed, and none is listed twice. */
  ghost predicate ListsChildren(img: Image, q: Path, children: seq<(Name, nat)>) {
    && (forall i :: 0 <= i < |children| ==> Walk(img, q + [children[i].0]) == Some(children[i].1))
    && (forall i, j :: 0 <= i < j < |children| ==> children[i].0 != children[j].0)
    && (forall name :: Walk(img, q + [name]).Some? ==> exists i :: 0 <= i < |children| && children[i].0 == name)
  }

  predicate ChildAt(slots: seq<Dirent>, k: nat, e: (Name, nat)) {
    k < |slots| && slots[k].valid && e == (slots[k].name, slots[k].inode)
  }

  ghost predicate IsChild(slots: seq<Dirent>, e: (Name, nat)) {
    exists k: nat :: ChildAt(slots, k, e)
  }

  lemma {:induction false} ChildrenSlots(slots: seq<Dirent>)
    requires forall j, k :: 0 <= j < k < |slots| && slots[j].valid && slots[k].valid ==> slots[j].name != slots[k].name
    ensures forall i :: 0 <= i < |Children(slots)| ==> IsChild(slots, Children(slots)[i])
    ensures forall k :: 0 <= k < |slots| && slots[k].valid ==> (slots[k].name, slots[k].inode) in Children(slots)
    ensures forall i, j :: 0 <= i < j < |Children(slots)| ==> Children(slots)[i].0 != Children(slots)[j].0
    decreases |slots|
  {
    if slots != [] {
      var last := |slots| - 1;
      var init := slots[..last];
      ChildrenSlots(init);
      var c, c' := Children(init), Children(slots);
      forall i | 0 <= i < |c'| ensures IsChild(slots, c'[i]) {
        if i < |c| {
          assert IsChild(init, c[i]);
          var k: nat :| ChildAt(init, k, c[i]);
          assert ChildAt(slots, k, c'[i]);
        } else {
          assert ChildAt(slots, last, c'[i]);
        }
      }
      forall i, j | 0 <= i < j < |c'| ensures c'[i].0 != c'[j].0 {
        if j == |c| {
          assert IsChild(init, c[i]);
          var k: nat :| ChildAt(init, k, c[i]);
          assert slots[k] == init[k] && slots[last].valid;
        }
      }
      forall k | 0 <= k < |slots| && slots[k].valid ensures (slots[k].name, slots[k].inode) in c' {
        if k < last {
          assert slots[k] == init[k];
        }
      }
    }
  }

  /** A child collected earlier stands in an earlier slot. */
  lemma {:induction false} ChildrenOrder(slots: seq<Dirent>, i: nat, j: nat, k: nat, m: nat)
    requires forall a, b :: 0 <= a < b < |slots| && slots[a].valid && slots[b].valid ==> slots[a].name != slots[b].name
    requires i < j < |Children(slots)| && ChildAt(slots, k, Children(slots)[i]) && ChildAt(slots, m, Children(slots)[j])
    ensures k < m
    decreases |slots|
  {
    var last := |slots| - 1;
    var init := slots[..last];
    var c := Children(init);
    ChildrenSlots(init);
    assert IsChild(init, c[i]);
    var k0: nat :| ChildAt(init, k0, c[i]);
    assert slots[k0] == init[k0] && k0 == k;
    if j < |c| {
      assert IsChild(init, c[j]);
      var m0: nat :| ChildAt(init, m0, c[j]);
      assert slots[m0] == init[m0] && m0 == m;
      ChildrenOrder(init, i, j, k, m);
    }
  }

  lemma DirChildren(img: Image, own: Owners, q: Path)
    requires WellFormed(img, own) && Walk(img, q).Some? && HasDir(img, Walk(img, q).value)
    ensures ListsChildren(img, q, Children(SlotsOf(img, Walk(img, q).value)))
  {
    var m := Walk(img, q).value;
    WalkNode(img, own, q);
    DirTable(img, own, m);
    var slots := SlotsOf(img, m);
    ChildrenSlots(slots);
    var children := Children(slots);
    forall name ensures Walk(img, q + [name]) == Child(img, m, name) {
      assert Parent(q + [name]) == q && Last(q + [name]) == name;
    }
    forall i | 0 <= i < |children| ensures Walk(img, q + [children[i].0]) == Some(children[i].1) {
      assert IsChild(slots, children[i]);
      var k: nat :| ChildAt(slots, k, children[i]);
      ChildBySlot(img, own, m, k);
    }
    forall name | Walk(img, q + [name]).Some? ensures exists i :: 0 <= i < |children| && children[i].0 == name {
      var k := FindName(slots, name);
      assert (slots[k].name, slots[k].inode) in children;
    }
  }

  lemma FileChildless(img: Image, own: Owners, q: Path)
    requires WellFormed(img, own) && Walk(img, q).Some? && !HasDir(img, Walk(img, q).value)
    ensures ListsChildren(img, q, [])
  {
    forall name ensures Walk(img, q + [name]) == None {
      assert Parent(q + [name]) == q && Last(q + [name]) == name;
    }
  }

  /** The inodes below the first i children. */
  ghost predicate UnderFirst(img: Image, q: Path, children: seq<(Name, nat)>, i: nat, m: nat) {
    exists j :: 0 <= j < i && j < |children| && Under(img, q + [children[j].0], m)
  }

  /** What lies at or below q is q's own inode and what lies at or below its children. */
  lemma UnderChildren(img: Image, own: Owners, q: Path, children: seq<(Name, nat)>, m: nat)
    requires WellFormed(img, own) && Walk(img, q).Some? && ListsChildren(img, q, children)
    ensures Under(img, q, m) <==> Walk(img, q) == Some(m) || UnderFirst(img, q, children, |children|, m)
  {
    hide WellFormed, Walk, ListsChildren, UnderFirst;
    if Under(img, q, m) {
      var r :| q <= r && Walk(img, r) == Some(m);
      if r != q {
        UnderOne(img, q, children, m, r);
      }
    }
    if Walk(img, q) == Some(m) {
      assert q <= q;
    }
    if UnderFirst(img, q, children, |children|, m) {
      UnderUp(img, q, children, m);
    }
  }

  lemma UnderUp(img: Image, q: Path, children: seq<(Name, nat)>, m: nat)
    requires UnderFirst(img, q, children, |children|, m)
    ensures Under(img, q, m)
  {
    hide Walk;
    var i :| 0 <= i < |children| && Under(img, q + [children[i].0], m);
    var r :| q + [children[i].0] <= r && Walk(img, r) == Some(m);
    assert q <= r;
  }

  lemma PrefixStep(q: Path, r: Path)
    requires q <= r && q != r
    ensures |q| < |r| && r[..|q| + 1] == q + [r[|q|]] && q + [r[|q|]] <= r
  {
  }

  lemma UnderOne(img: Image, q: Path, children: seq<(Name, nat)>, m: nat, r: Path)
    requires ListsChildren(img, q, children) && q <= r && q != r && Walk(img, r) == Some(m)
    ensures UnderFirst(img, q, children, |children|, m)
  {
    PrefixStep(q, r);
    WalkPrefix(img, r, |q| + 1);
    assert Walk(img, q + [r[|q|]]).Some?;
    var i :| 0 <= i < |children| && children[i].0 == r[|q|];
    assert Under(img, q + [children[i].0], m);
  }

  /** The subtrees of two children, and a directory and its subtrees, share no inode. */
  lemma UnderApart(img: Image, own: Owners, q: Path, a: Name, b: Name, m: nat)
    requires WellFormed(img, own) && Under(img, q + [a], m)
    ensures Walk(img, q) != Some(m)
    ensures a != b ==> !Under(img, q + [b], m)
  {
    var r :| q + [a] <= r && Walk(img, r) == Some(m);
    if Walk(img, q) == Some(m) {
      WalkUnique(img, own, q, r);
    }
    if a != b && Under(img, q + [b], m) {
      var r' :| q + [b] <= r' && Walk(img, r') == Some(m);
      assert r[|q|] == a && r'[|q|] == b;
      WalkUnique(img, own, r, r');
    }
  }

  // ---------- The walk ----------

  lemma UnderNext(img: Image, q: Path, children: seq<(Name, nat)>, i: nat, m: nat)
    requires i < |children|
    ensures UnderFirst(img, q, children, i + 1, m) <==>
              UnderFirst(img, q, children, i, m) || Under(img, q + [children[i].0], m)
  {
    if Under(img, q + [children[i].0], m) {
      assert 0 <= i < i + 1 && Under(img, q + [children[i].0], m);
    }
  }

  class Walker {
    const img: Image
    const marks: set<nat>                // what the bitmap block marks, right or wrong
    var inodes: set<nat>                 // the dictionary of inodes found
    var names: seq<string>               // the name of every visit, in order
    var found: seq<nat>                  // the inode number of every visit, in order
    ghost var paths: seq<Path>           // the path of every visit
    var unmarked: set<nat>               // blocks reported as not marked in the bitmap

    constructor (img: Image, marks: set<nat>)
      ensures this.img == img && this.marks == marks && inodes == {} && names == [] && found == [] && paths == []
              && unmarked == {}
    {
      this.img := img;
      this.marks := marks;
      inodes := {};
      names, found, paths := [], [], [];
      unmarked := {};
    }

    /** One visit per inode found, each under the inode's own path. */
    ghost predicate Consistent(own: Owners)
      reads this
    {
      && |names| == |found| == |paths|
      && (forall m :: m in inodes ==> m in own)
      && (forall m :: m in inodes <==> m in found)
      && (forall i, j :: 0 <= i < j < |found| ==> found[i] != found[j])
      && (forall i :: 0 <= i < |found| ==> Walk(img, paths[i]) == Some(found[i]) && names[i] == Render(paths[i]))
    }

    /** The blocks reported are the unmarked ones among those that belong to inodes found. */
    ghost predicate Reported(own: Owners)
      reads this
    {
      forall b: nat :: b in unmarked <==> b in own && b !in marks && NodeFor(own, b) in inodes
    }

    /** Note a visit. */
    method Visit(name: string, inum: nat, ghost q: Path, ghost own: Owners)
      requires WellFormed(img, own) && Consistent(own) && inum !in inodes
      requires Walk(img, q) == Some(inum) && name == Render(q)
      modifies this`inodes, this`names, this`found, this`paths
      ensures Consistent(own) && inodes == old(inodes) + {inum}
    {
      WalkNode(img, own, q);
      hide Walk, WellFormed, Render;
      inodes := inodes + {inum};
      names, found, paths := names + [name], found + [inum], paths + [q];
    }

    /** Report block b if the bitmap does not mark it. */
    method Check(b: nat)
      modifies this`unmarked
      ensures unmarked == if b in marks then old(unmarked) else old(unmarked) + {b}
    {
      if b !in marks {
        unmarked := unmarked + {b};
      }
    }

    /** The blocks of a file. */
    method CheckFile(node: Inode, xblks: nat)
      requires xblks == BlocksFor(node.size) <= NUM_PTRS
      modifies this`unmarked
      ensures unmarked == old(unmarked) + (Extents(node) - marks)
    {
      var i := 0;
      while i < xblks
        invariant i <= xblks
        invariant unmarked == old(unmarked) + ((set j | 0 <= j < NUM_PTRS && j < i :: node.ptrs[j]) - marks)
      {
        Check(node.ptrs[i]);
        i := i + 1;
      }
    }

    /** The children in one directory block. */
    method ReadBlock(slots: Slots) returns (children: seq<(Name, nat)>)
      ensures children == Children(slots)
    {
      children := [];
      var j := 0;
      while j < NUM_DIRENTS
        invariant j <= NUM_DIRENTS
        invariant children == Children(slots[..j])
      {
        if slots[j].valid {
          children := children + [(slots[j].name, slots[j].inode)];
        }
        assert slots[..j + 1][..j] == slots[..j];
        j := j + 1;
      }
      assert slots[..j] == slots;
    }

    /** The blocks of a directory, and the children in them. */
    method ReadTable(node: Inode, xblks: nat, inum: nat, ghost own: Owners) returns (children: seq<(Name, nat)>)
      requires WellFormed(img, own) && IsNode(own, inum) && HasDir(img, inum) && NodeOf(img, inum) == node
      requires xblks == BlocksFor(node.size)
      modifies this`unmarked
      ensures children == Children(SlotsOf(img, inum))
      ensures unmarked == old(unmarked) + (Extents(node) - marks)
    {
      hide WellFormed, BlocksFor, Children;
      children := [];
      TableBlocks(img, own, inum);
      var i := 0;
      while i < xblks
        invariant i <= xblks <= NUM_PTRS
        invariant children == if i == 0 then [] else Children(SlotsOf(img, inum))
        invariant unmarked == old(unmarked) + ((set j | 0 <= j < NUM_PTRS && j < i :: node.ptrs[j]) - marks)
      {
        var dblk := node.ptrs[i];
        Check(dblk);
        var more := ReadBlock(img.blk[dblk].slots);
        if i > 0 {
          NoChildren(img.blk[dblk].slots);
        }
        children := children + more;
        i := i + 1;
      }
    }

    /** What a visited inode offers: its blocks are checked, a directory's children returned. */
    method Inspect(inum: nat, ghost q: Path, ghost own: Owners) returns (children: seq<(Name, nat)>)
      requires WellFormed(img, own) && Walk(img, q) == Some(inum)
      modifies this`unmarked
      ensures ListsChildren(img, q, children)
      ensures forall b: nat :: b in unmarked <==>
                b in old(unmarked) || (b in own && b !in marks && NodeFor(own, b) == inum)
    {
      WalkNode(img, own, q);
      DirTable(img, own, inum);
      var node := img.blk[inum].node;
      Check(inum);
      var xblks := (node.size + 4095) / 4096;
      children := [];
      if IsReg(node.attr.mode) {
        KindsApart(node.attr.mode);
        FileChildless(img, own, q);
        BlocksForLeast(node.size, NUM_PTRS);
        CheckFile(node, xblks);
      } else {
        DirChildren(img, own, q);
        children := ReadTable(node, xblks, inum, own);
      }
      forall b: nat ensures b in own && NodeFor(own, b) == inum <==> b == inum || b in Extents(node) {
        BelongsTo(img, own, inum, b);
      }
    }

    /** The part of a visit before the recursion. */
    method Enter(name: string, inum: nat, ghost q: Path, ghost own: Owners) returns (children: seq<(Name, nat)>)
      requires WellFormed(img, own) && Consistent(own) && Reported(own) && inum !in inodes
      requires Walk(img, q) == Some(inum) && name == Render(q)
      modifies this
      ensures Consistent(own) && Reported(own) && inodes == old(inodes) + {inum}
      ensures ListsChildren(img, q, children)
    {
      hide WellFormed, Walk, Render, ListsChildren, NodeFor;
      Visit(name, inum, q, own);
      children := Inspect(inum, q, own);
    }

    /** The walk from one inode: it terminates, visits each inode at or below its path exactly
        once, under its own path, and reports exactly their unmarked blocks. */
    method Iter(name: string, inum: nat, ghost q: Path, ghost own: Owners)
      requires WellFormed(img, own) && Consistent(own) && Reported(own)
      requires Walk(img, q) == Some(inum) && name == Render(q)
      requires forall m: nat :: Under(img, q, m) ==> m !in inodes
      modifies this
      ensures Consistent(own) && Reported(own)
      ensures forall m: nat :: m in inodes <==> m in old(inodes) || Under(img, q, m)
      decreases own.Keys - inodes
    {
      hide WellFormed, Walk, Render, ListsChildren, Consistent, Reported, UnderFirst, Under;
      FoundNode(img, own, q);
      var children := Enter(name, inum, q, own);
      forall m: nat ensures Under(img, q, m) <==> m == inum || UnderFirst(img, q, children, |children|, m) {
        UnderChildren(img, own, q, children, m);
      }
      forall m: nat ensures !UnderFirst(img, q, children, 0, m) {
        UnderNone(img, q, children, m);
      }
      var i := 0;
      while i < |children|
        invariant i <= |children| && Consistent(own) && Reported(own)
        invariant forall m: nat :: m in inodes <==> m in old(inodes) || m == inum || UnderFirst(img, q, children, i, m)
        decreases |children| - i
      {
        var (n, c) := children[i];
        RenderSnoc(q, n);
        ChildWalk(img, q, children, i);
        forall m: nat | Under(img, q + [n], m) ensures m !in inodes {
          FreshChild(img, own, q, children, i, m);
        }
        forall m: nat ensures UnderFirst(img, q, children, i + 1, m) <==>
            UnderFirst(img, q, children, i, m) || Under(img, q + [n], m) {
          UnderNext(img, q, children, i, m);
        }
        Iter(name + "/" + n, c, q + [n], own);
        i := i + 1;
      }
    }
  }

  lemma FoundNode(img: Image, own: Owners, q: Path)
    requires WellFormed(img, own) && Walk(img, q).Some?
    ensures Under(img, q, Walk(img, q).value) && Walk(img, q).value in own
  {
    WalkNode(img, own, q);
    assert q <= q;
  }

  lemma UnderNone(img: Image, q: Path, children: seq<(Name, nat)>, m: nat)
    ensures !UnderFirst(img, q, children, 0, m)
  {
  }

  lemma ChildWalk(img: Image, q: Path, children: seq<(Name, nat)>, i: nat)
    requires ListsChildren(img, q, children) && i < |children|
    ensures Walk(img, q + [children[i].0]) == Some(children[i].1)
  {
  }

  /** The blocks that belong to a node: itself and what its live pointers name. */
  lemma BelongsTo(img: Image, own: Owners, m: nat, b: nat)
    requires WellFormed(img, own) && IsNode(own, m) && IsInode(img, m)
    ensures b in own && NodeFor(own, b) == m <==> b == m || b in Extents(NodeOf(img, m))
  {
    DirTable(img, own, m);
    if b in own {
      assert GoodBlock(img, own, b);
    }
    if !IsDir(NodeOf(img, m).attr.mode) {
      ExtentsOwned(img, own, m, b);
    }
  }

  /** A directory's blocks: the table, and after it blocks without entries. */
  lemma TableBlocks(img: Image, own: Owners, m: nat)
    requires WellFormed(img, own) && IsNode(own, m) && HasDir(img, m)
    ensures var n := NodeOf(img, m);
            && 1 <= BlocksFor(n.size) <= NUM_PTRS
            && forall i :: 0 <= i < BlocksFor(n.size) ==>
                 && n.ptrs[i] < |img.blk| && img.blk[n.ptrs[i]].Dir?
                 && (if i == 0 then img.blk[n.ptrs[i]].slots == SlotsOf(img, m)
                    else EmptyTable(img.blk[n.ptrs[i]].slots))
  {
    DirTable(img, own, m);
    var n := NodeOf(img, m);
    BlocksForLeast(n.size, NUM_PTRS);
    forall i | 1 <= i < BlocksFor(n.size)
      ensures n.ptrs[i] < |img.blk| && img.blk[n.ptrs[i]].Dir? && EmptyTable(img.blk[n.ptrs[i]].slots)
    {
      assert GoodBlock(img, own, n.ptrs[i]);
    }
  }

  lemma {:induction false} NoChildren(slots: seq<Dirent>)
    requires forall k :: 0 <= k < |slots| ==> !slots[k].valid
    ensures Children(slots) == []
    decreases |slots|
  {
    if slots != [] {
      NoChildren(slots[..|slots| - 1]);
    }
  }

  lemma KindsApart(mode: bv32)
    requires IsReg(mode)
    ensures !IsDir(mode)
  {
  }

  /** Below the next child lies nothing found so far. */
  lemma FreshChild(img: Image, own: Owners, q: Path, children: seq<(Name, nat)>, i: nat, m: nat)
    requires WellFormed(img, own) && ListsChildren(img, q, children) && i < |children|
    requires Under(img, q + [children[i].0], m)
    ensures Under(img, q, m) && Walk(img, q) != Some(m) && !UnderFirst(img, q, children, i, m)
  {
    UnderApart(img, own, q, children[i].0, children[i].0, m);
    var r :| q + [children[i].0] <= r && Walk(img, r) == Some(m);
    assert q <= r;
    forall j | 0 <= j < i ensures !Under(img, q + [children[j].0], m) {
      UnderApart(img, own, q, children[i].0, children[j].0, m);
    }
  }

  /** On any disk whose tree is well formed the whole walk finds exactly the inodes of the tree,
      visits each once, and reports exactly the reachable blocks the bitmap fails to mark; so it
      reports nothing when the bitmap is the disk's own. */
  method WalkImage(img: Image, marks: set<nat>, ghost own: Owners) returns (w: Walker)
    requires WellFormed(img, own)
    ensures w.img == img && w.marks == marks && w.Consistent(own)
    ensures forall m: nat :: m in w.inodes <==> IsNode(own, m)
    ensures w.unmarked == own.Keys - marks
    ensures marks == img.used ==> w.unmarked == {}
  {
    w := new Walker(img, marks);
    w.Iter("", ROOT, [], own);
    forall m: nat ensures Under(img, [], m) <==> IsNode(own, m) {
      if IsNode(own, m) {
        var r := NodeReached(img, own, m);
        assert [] <= r;
      }
      if Under(img, [], m) {
        var r :| [] <= r && Walk(img, r) == Some(m);
        WalkNode(img, own, r);
      }
    }
    forall b | b in own ensures IsNode(own, NodeFor(own, b)) {
      assert GoodBlock(img, own, b);
    }
  }
}
