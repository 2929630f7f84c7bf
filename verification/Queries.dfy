/** The calls that only look: read, getattr, readdir and statfs, and the error codes of path
    lookup. */
module Queries {
  import opened Layout
  import opened Volume
  import opened Lookup
  import opened Operations
  import opened Creation
  import opened LookupErrors
  import opened WriteLoop

  // ---------- read ----------

  /** The answer of fs_read and the bytes it delivers. */
  function Read(img: Image, p: Path, len: nat, off: nat): (Result, seq<Byte>) {
    var inum := Resolve(img, p);
    if inum <= 0 || !IsInode(img, inum) then (PathError(inum), [])
    else
      var n := NodeOf(img, inum);
      if IsDir(n.attr.mode) then (Ret(-EISDIR), [])
      else if off >= n.size then (Ret(0), [])
      else (Ret(Min(len, n.size - off)), Contents(img, n)[off..off + Min(len, n.size - off)])
  }

  /** A file reads as its bytes in the tree, clipped at its end. */
  lemma ReadExact(img: Image, own: Owners, p: Path, len: nat, off: nat)
    requires WellFormed(img, own)
    ensures var (r, data) := Read(img, p, len, off);
            if p in Abs(img) && Abs(img)[p].File?
            then
              var all := Abs(img)[p].data;
              && r == Ret(|data|)
              && data == (if off >= |all| then [] else all[off..Min(off + len, |all|)])
            else data == [] && r == if p in Abs(img) then Ret(-EISDIR) else Ret(PathCode(Abs(img), p))
  {
    AbsWalk(img, own, p);
    PathExact(img, own, p);
  }

  /** Read in pieces of at most c bytes, until a call delivers nothing. */
  function ReadAll(img: Image, p: Path, c: nat, off: nat, fuel: nat): seq<Byte>
    decreases fuel
  {
    var (_, data) := Read(img, p, c, off);
    if data == [] || fuel == 0 then [] else data + ReadAll(img, p, c, off + |data|, fuel - 1)
  }

  /** For every chunk size, reading until 0 takes at most size + 1 calls and delivers the whole
      file from the starting offset on. */
  lemma {:induction false} ReadAllExact(img: Image, own: Owners, p: Path, c: nat, off: nat, fuel: nat)
    requires WellFormed(img, own) && c > 0
    requires p in Abs(img) && Abs(img)[p].File? && off <= |Abs(img)[p].data| <= off + fuel
    ensures ReadAll(img, p, c, off, fuel) == Abs(img)[p].data[off..]
    ensures Read(img, p, c, |Abs(img)[p].data|) == (Ret(0), [])
    decreases fuel
  {
    hide WellFormed, Abs, Read;
    ReadExact(img, own, p, c, off);
    ReadExact(img, own, p, c, |Abs(img)[p].data|);
    var all := Abs(img)[p].data;
    var (_, data) := Read(img, p, c, off);
    if off < |all| {
      ReadAllExact(img, own, p, c, off + |data|, fuel - 1);
      assert data + all[off + |data|..] == all[off..];
    } else {
      assert all[off..] == [];
    }
  }

  // ---------- getattr and readdir ----------

  datatype Stat = Stat(ino: nat, mode: bv32, nlink: nat, uid: nat, gid: nat, size: nat, blocks: nat,
                       atime: nat, mtime: nat, ctime: nat)

  /** inode2stat. */
  function StatOf(n: Inode, inum: nat): Stat {
    Stat(inum, n.attr.mode, 1, n.attr.uid, n.attr.gid, n.size,
         if IsDir(n.attr.mode) then 1 else BlocksFor(n.size), n.attr.ctime, n.attr.mtime, n.attr.ctime)
  }

  function Getattr(img: Image, p: Path): (Result, Option<Stat>) {
    var inum := Resolve(img, p);
    if inum <= 0 || !IsInode(img, inum) then (PathError(inum), None)
    else (Ret(0), Some(StatOf(NodeOf(img, inum), inum)))
  }

  /** What getattr reports, read off the tree. The access time is the modification time, as the
      comment at fs5600.c:278 asks, exactly when the two stored times agree. */
  lemma GetattrExact(img: Image, own: Owners, p: Path)
    requires WellFormed(img, own)
    ensures var (r, st) := Getattr(img, p);
            if p in Abs(img)
            then
              var e := Abs(img)[p];
              && r == Ret(0) && st.Some? && Walk(img, p) == Some(st.value.ino)
              && Attr(st.value.uid, st.value.gid, st.value.mode, st.value.ctime, st.value.mtime) == e.attr
              && st.value.size == (if e.File? then |e.data| else e.size)
              && st.value.nlink == 1
              && (if e.File? then st.value.size <= st.value.blocks * BLOCK_SIZE < st.value.size + BLOCK_SIZE
                  else st.value.blocks == 1)
              && st.value.atime == e.attr.ctime
              && (st.value.atime == st.value.mtime <==> e.attr.ctime == e.attr.mtime)
            else st == None && r == PathError(Resolve(img, p))
  {
    AbsWalk(img, own, p);
    PathExact(img, own, p);
    if p in Abs(img) {
      DirTable(img, own, Walk(img, p).value);
    }
  }

  /** The entries readdir emits for these slots, in slot order. */
  function Listing(img: Image, slots: seq<Dirent>): seq<(Name, Stat)> {
    if slots == [] then []
    else
      var e := slots[|slots| - 1];
      Listing(img, slots[..|slots| - 1]) + (if e.valid && IsInode(img, e.inode)
          then [(e.name, StatOf(NodeOf(img, e.inode), e.inode))] else [])
  }

  function Readdir(img: Image, p: Path): (Result, seq<(Name, Stat)>) {
    var inum := Resolve(img, p);
    if inum <= 0 then (Ret(-ENOENT), [])
    else if !HasDir(img, inum) then (Ret(-ENOTDIR), [])
    else (Ret(0), Listing(img, SlotsOf(img, inum)))
  }

  /** e is what slot k lists. */
  predicate Lists(img: Image, slots: seq<Dirent>, k: nat, e: (Name, Stat)) {
    k < |slots| && slots[k].valid && IsInode(img, slots[k].inode) &&
    e == (slots[k].name, StatOf(NodeOf(img, slots[k].inode), slots[k].inode))
  }

  ghost predicate Listed(img: Image, slots: seq<Dirent>, e: (Name, Stat)) {
    exists k: nat :: Lists(img, slots, k, e)
  }

  /** The valid slots lead to inodes, under different names. */
  ghost predicate Distinct(img: Image, slots: seq<Dirent>) {
    && (forall k :: 0 <= k < |slots| && slots[k].valid ==> IsInode(img, slots[k].inode))
    && forall j, k :: 0 <= j < k < |slots| && slots[j].valid && slots[k].valid ==> slots[j].name != slots[k].name
  }

  /** Each valid slot is listed, nothing else is, and no name twice. */
  lemma {:induction false} ListingExact(img: Image, slots: seq<Dirent>)
    requires Distinct(img, slots)
    ensures forall k :: 0 <= k < |slots| && slots[k].valid ==>
              (slots[k].name, StatOf(NodeOf(img, slots[k].inode), slots[k].inode)) in Listing(img, slots)
    ensures forall i :: 0 <= i < |Listing(img, slots)| ==> Listed(img, slots, Listing(img, slots)[i])
    ensures forall i, j :: 0 <= i < j < |Listing(img, slots)| ==> Listing(img, slots)[i].0 != Listing(img, slots)[j].0
    decreases |slots|
  {
    if slots != [] {
      var last := |slots| - 1;
      var init := slots[..last];
      ListingExact(img, init);
      var l, l' := Listing(img, init), Listing(img, slots);
      forall i | 0 <= i < |l'| ensures Listed(img, slots, l'[i]) {
        if i < |l| {
          assert Listed(img, init, l[i]);
          var k: nat :| Lists(img, init, k, l[i]);
          assert Lists(img, slots, k, l'[i]);
        } else {
          assert Lists(img, slots, last, l'[i]);
        }
      }
      forall i, j | 0 <= i < j < |l'| ensures l'[i].0 != l'[j].0 {
        if j == |l| {
          assert Listed(img, init, l[i]);
          var k: nat :| Lists(img, init, k, l[i]);
          assert slots[k] == init[k] && slots[last].valid;
        }
      }
      forall k | 0 <= k < |slots| && slots[k].valid
        ensures (slots[k].name, StatOf(NodeOf(img, slots[k].inode), slots[k].inode)) in l'
      {
        if k < last {
          assert slots[k] == init[k];
        }
      }
    }
  }

  lemma ListedOnce(img: Image, slots: seq<Dirent>, k: nat, m: nat, e: (Name, Stat))
    requires Distinct(img, slots) && Lists(img, slots, k, e) && Lists(img, slots, m, e)
    ensures k == m
  {
  }

  /** An entry emitted earlier stands in an earlier slot. */
  lemma {:induction false} ListingOrder(img: Image, slots: seq<Dirent>, i: nat, j: nat, k: nat, m: nat)
    requires Distinct(img, slots) && i < j < |Listing(img, slots)|
    requires Lists(img, slots, k, Listing(img, slots)[i]) && Lists(img, slots, m, Listing(img, slots)[j])
    ensures k < m
    decreases |slots|
  {
    hide IsInode, NodeOf, StatOf;
    var last := |slots| - 1;
    var init := slots[..last];
    var l, l' := Listing(img, init), Listing(img, slots);
    ListingExact(img, init);
    assert Listed(img, init, l[i]);
    var k0: nat :| Lists(img, init, k0, l[i]);
    ListedOnce(img, slots, k0, k, l'[i]);
    if j < |l| {
      assert Listed(img, init, l[j]);
      var m0: nat :| Lists(img, init, m0, l[j]);
      ListedOnce(img, slots, m0, m, l'[j]);
      ListingOrder(img, init, i, j, k, m);
    } else {
      ListedOnce(img, slots, last, m, l'[j]);
    }
  }

  lemma EmittedOrder(img: Image, own: Owners, m: nat, i: nat, j: nat)
    requires WellFormed(img, own) && IsNode(own, m) && HasDir(img, m) && Distinct(img, SlotsOf(img, m))
    requires i < j < |Listing(img, SlotsOf(img, m))|
    ensures var slots, list := SlotsOf(img, m), Listing(img, SlotsOf(img, m));
            FindName(slots, list[i].0) < FindName(slots, list[j].0)
  {
    hide WellFormed, NodeOf, StatOf;
    var slots, list := SlotsOf(img, m), Listing(img, SlotsOf(img, m));
    ListingExact(img, slots);
    assert Listed(img, slots, list[i]) && Listed(img, slots, list[j]);
    var k: nat :| Lists(img, slots, k, list[i]);
    var n: nat :| Lists(img, slots, n, list[j]);
    ListingOrder(img, slots, i, j, k, n);
    ChildBySlot(img, own, m, k);
    ChildBySlot(img, own, m, n);
  }

  /** readdir emits each child of the directory exactly once, in slot order, with the attributes
      getattr reports for that child's own path. */
  lemma ReaddirExact(img: Image, own: Owners, p: Path)
    requires WellFormed(img, own)
    ensures var (r, list) := Readdir(img, p);
            if p in Abs(img) && Abs(img)[p].Directory?
            then
              && r == Ret(0)
              && (forall i, j :: 0 <= i < j < |list| ==> list[i].0 != list[j].0)
              && Walk(img, p).Some? && HasDir(img, Walk(img, p).value)
              && (forall i, j :: 0 <= i < j < |list| ==>
                    FindName(SlotsOf(img, Walk(img, p).value), list[i].0)
                    < FindName(SlotsOf(img, Walk(img, p).value), list[j].0))
              && (forall i :: 0 <= i < |list| ==> Getattr(img, p + [list[i].0]) == (Ret(0), Some(list[i].1)))
              && (forall name :: p + [name] in Abs(img) ==> exists i :: 0 <= i < |list| && list[i].0 == name)
            else list == [] && r == if p in Abs(img) then Ret(-ENOTDIR) else Ret(-ENOENT)
  {
    hide WellFormed, Abs, Walk, Listing, Getattr;
    DirOrNot(img, own, p);
    if p in Abs(img) && Abs(img)[p].Directory? {
      var m := Walk(img, p).value;
      var slots := SlotsOf(img, m);
      var list := Listing(img, slots);
      TableDistinct(img, own, m);
      ListingExact(img, slots);
      forall i, j | 0 <= i < j < |list| ensures FindName(slots, list[i].0) < FindName(slots, list[j].0) {
        EmittedOrder(img, own, m, i, j);
      }
      forall i | 0 <= i < |list| ensures Getattr(img, p + [list[i].0]) == (Ret(0), Some(list[i].1)) {
        EmittedStat(img, own, p, i);
      }
      forall name | p + [name] in Abs(img) ensures exists i :: 0 <= i < |list| && list[i].0 == name {
        ChildSlot(img, own, p, name);
        assert slots[FindName(slots, name)].name == name;
      }
    }
  }

  lemma DirOrNot(img: Image, own: Owners, p: Path)
    requires WellFormed(img, own)
    ensures p in Abs(img) ==> Walk(img, p) == Some(Resolve(img, p)) && IsNode(own, Resolve(img, p))
    ensures p in Abs(img) ==> (Abs(img)[p].Directory? <==> HasDir(img, Resolve(img, p)))
    ensures Resolve(img, p) <= 0 <==> p !in Abs(img)
  {
    AbsWalk(img, own, p);
    if p in Abs(img) {
      WalkNode(img, own, p);
      DirTable(img, own, Walk(img, p).value);
    }
  }

  lemma TableDistinct(img: Image, own: Owners, m: nat)
    requires WellFormed(img, own) && IsNode(own, m) && HasDir(img, m)
    ensures Distinct(img, SlotsOf(img, m))
  {
    DirTable(img, own, m);
    var slots := SlotsOf(img, m);
    forall k | 0 <= k < NUM_DIRENTS && slots[k].valid ensures IsInode(img, slots[k].inode) {
      assert GoodBlock(img, own, slots[k].inode);
    }
  }

  lemma EmittedStat(img: Image, own: Owners, p: Path, i: nat)
    requires WellFormed(img, own) && Walk(img, p).Some? && HasDir(img, Walk(img, p).value)
    requires Distinct(img, SlotsOf(img, Walk(img, p).value))
    requires i < |Listing(img, SlotsOf(img, Walk(img, p).value))|
    ensures var e := Listing(img, SlotsOf(img, Walk(img, p).value))[i];
            Getattr(img, p + [e.0]) == (Ret(0), Some(e.1))
  {
    hide WellFormed, Walk, Listing, NodeOf, StatOf;
    var slots := SlotsOf(img, Walk(img, p).value);
    var list := Listing(img, slots);
    ListingExact(img, slots);
    assert Listed(img, slots, list[i]);
    var k: nat :| Lists(img, slots, k, list[i]);
    ChildPath(img, own, p, k);
  }

  lemma ChildPath(img: Image, own: Owners, p: Path, k: nat)
    requires WellFormed(img, own) && Walk(img, p).Some? && HasDir(img, Walk(img, p).value)
    requires k < NUM_DIRENTS && SlotsOf(img, Walk(img, p).value)[k].valid
    ensures var e := SlotsOf(img, Walk(img, p).value)[k];
            Resolve(img, p + [e.name]) == e.inode && IsInode(img, e.inode) && e.inode >= ROOT
  {
    var m := Walk(img, p).value;
    WalkNode(img, own, p);
    ChildBySlot(img, own, m, k);
    var q := p + [SlotsOf(img, m)[k].name];
    assert Parent(q) == p && Last(q) == SlotsOf(img, m)[k].name;
    AbsWalk(img, own, q);
    WalkNode(img, own, q);
  }

  lemma ChildSlot(img: Image, own: Owners, p: Path, name: Name)
    requires WellFormed(img, own) && p + [name] in Abs(img)
    ensures Walk(img, p).Some? && HasDir(img, Walk(img, p).value)
    ensures FindName(SlotsOf(img, Walk(img, p).value), name) < NUM_DIRENTS
  {
    AbsWalk(img, own, p + [name]);
    assert Parent(p + [name]) == p && Last(p + [name]) == name;
  }

  // ---------- statfs ----------

  /** The blocks marked in addition to the first two. */
  function InUse(img: Image): set<nat> {
    set b | b in img.used && 2 <= b < NUM_BLOCKS
  }

  /** f_blocks and f_bfree as fs_statfs computes them; the counts are unsigned machine words. */
  function Statfs(img: Image, diskSize: nat): (nat, nat)
    requires 2 <= diskSize <= NUM_BLOCKS
  {
    (diskSize - 2, (diskSize - 2 - |InUse(img)|) % WORD)
  }

  lemma InUseExact(img: Image, own: Owners)
    requires WellFormed(img, own)
    ensures |InUse(img)| == |own| + |Leaked(img, own)|
  {
    forall b: nat ensures b in InUse(img) <==> b in own.Keys + Leaked(img, own) {
      if b in own {
        assert GoodBlock(img, own, b);
      }
    }
    assert InUse(img) == own.Keys + Leaked(img, own);
    assert own.Keys !! Leaked(img, own);
  }

  lemma UsedOrFree(img: Image)
    requires ROOT in img.used
    ensures |InUse(img)| + |FreeBlocks(img.used)| == NUM_BLOCKS - 2
  {
    var all := Range(NUM_BLOCKS);
    var both := InUse(img) + FreeBlocks(img.used);
    forall b: nat ensures b in all <==> b in both + {0, 1} {
      assert b in FreeBlocks(img.used) <==> FIRST_DATA <= b < NUM_BLOCKS && b !in img.used;
    }
    assert all == both + {0, 1};
    assert both !! {0, 1} && InUse(img) !! FreeBlocks(img.used);
  }

  lemma {:induction false} Range(n: nat) returns (s: set<nat>)
    ensures forall b: nat :: b in s <==> b < n
    ensures |s| == n
    decreases n
  {
    if n == 0 {
      s := {};
    } else {
      var t := Range(n - 1);
      s := t + {n - 1};
    }
  }

  /** The reported size leaves out superblock and bitmap. The free count, the blocks of the tree and
      the leaked blocks add up to it exactly when no more blocks are marked; with more, the count
      wraps. */
  lemma StatfsExact(img: Image, own: Owners, diskSize: nat)
    requires WellFormed(img, own) && 2 <= diskSize <= NUM_BLOCKS
    ensures var (total, free) := Statfs(img, diskSize);
            && total + 2 == diskSize
            && (free + |own| + |Leaked(img, own)| == total <==> |InUse(img)| <= total)
    ensures |InUse(img)| == |own| + |Leaked(img, own)|
  {
    InUseExact(img, own);
  }

  /** The free count is the number of free blocks less those beyond the end of the disk; on a disk
      of full size it is the number of free blocks. */
  lemma StatfsFree(img: Image, own: Owners, diskSize: nat)
    requires WellFormed(img, own) && 2 <= diskSize <= NUM_BLOCKS
    ensures Statfs(img, diskSize).1 == (|FreeBlocks(img.used)| - (NUM_BLOCKS - diskSize)) % WORD
    ensures Statfs(img, NUM_BLOCKS).1 == |FreeBlocks(img.used)|
  {
    assert GoodBlock(img, own, ROOT);
    UsedOrFree(img);
  }
}
