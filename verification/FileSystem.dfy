/** The file system as it runs: a bitmap block, an array of blocks, and the calls of fs5600.c
    as methods that update them in place, each proved against its function on images. */
module FileSystem {
  import opened Layout
  import opened Bitmaps
  import opened Paths
  import opened Volume
  import opened Lookup
  import opened Operations
  import opened Creation
  import opened Updates
  import opened Unlinking
  import opened Deletion
  import opened Renaming
  import opened WriteLoop
  import opened Writing
  import opened Queries
  import opened Calls
  import opened History

  // ---------- Scans of a directory block ----------

  method ScanName(slots: Slots, name: Name) returns (k: nat)
    ensures k == FindName(slots, name)
  {
    k := 0;
    while k < NUM_DIRENTS
      invariant k <= NUM_DIRENTS
      invariant forall j :: 0 <= j < k ==> !Named(slots[j], name)
    {
      if slots[k].valid && slots[k].name == name {
        break;
      }
      k := k + 1;
    }
  }

  method ScanInode(slots: Slots, inum: nat) returns (k: nat)
    ensures k == FindInode(slots, inum)
  {
    k := 0;
    while k < NUM_DIRENTS
      invariant k <= NUM_DIRENTS
      invariant forall j :: 0 <= j < k ==> !Names(slots[j], inum)
    {
      if slots[k].valid && slots[k].inode == inum {
        break;
      }
      k := k + 1;
    }
  }

  method ScanValid(slots: Slots, valid: bool) returns (k: nat)
    ensures k == FindValid(slots, valid)
  {
    k := 0;
    while k < NUM_DIRENTS
      invariant k <= NUM_DIRENTS
      invariant forall j :: 0 <= j < k ==> slots[j].valid != valid
    {
      if slots[k].valid == valid {
        break;
      }
      k := k + 1;
    }
  }

  // ---------- Path strings ----------

  /** strtok over the whole string. */
  method Tokenise(path: string) returns (tokens: seq<string>)
    ensures tokens == Tokens(path)
  {
    tokens := [];
    var rest := path;
    while rest != []
      invariant tokens + Tokens(rest) == Tokens(path)
      decreases |rest|
    {
      if rest[0] == '/' {
        rest := rest[1..];
      } else {
        var n := RunLen(rest);
        tokens := tokens + [rest[..n]];
        rest := rest[n..];
      }
    }
  }

  lemma SumStep(p: Path, i: nat)
    requires i < |p|
    ensures SumLens(p[..i + 1]) == SumLens(p[..i]) + |p[i]| + 1
  {
    assert Parent(p[..i + 1]) == p[..i] && Last(p[..i + 1]) == p[i];
  }

  /** The prefix of a path that names its parent directory. */
  method ParentPath(path: string, tokens: seq<string>) returns (parent: string)
    requires Clean(path) && tokens == Tokens(path)
    ensures parent != [] && parent[0] == '/' && Tokens(parent) == Parent(tokens)
  {
    CleanString(path);
    ParentPrefix(tokens);
    var length := 0;
    var i := 0;
    while i < |tokens| - 1
      invariant 0 <= i && (tokens != [] ==> i <= |tokens| - 1) && (tokens == [] ==> i == 0)
      invariant length == SumLens(tokens[..i])
    {
      SumStep(tokens, i);
      length := length + |tokens[i]| + 1;
      i := i + 1;
    }
    length := length + 1;
    assert tokens != [] ==> tokens[..i] == Parent(tokens);
    parent := path[..length];
  }

  /** A path string FUSE passes, within the buffers of fs5600.c. */
  predicate FromFuse(path: string) {
    Clean(path) && |path| < 300 && |Tokens(path)| <= 10
  }

  /** The owners once the entity at p is gone, or once the file at p is emptied. */
  ghost function DropAt(img: Image, own: Owners, p: Path): Owners {
    if Walk(img, p).Some? then Drop(own, Walk(img, p).value) else own
  }

  ghost function EmptiedAt(img: Image, own: Owners, p: Path): Owners {
    if Walk(img, p).Some? then DropExtents(own, Walk(img, p).value) else own
  }

  const EMPTY_TABLE: nat := 399

  lemma FreshBits(zeros: Page)
    requires forall i :: 0 <= i < BLOCK_SIZE ==> zeros[i] == 0
    ensures Used(SetBit(SetBit(SetBit(SetBit(zeros, 0), 1), ROOT), EMPTY_TABLE)) == {0, 1, ROOT, EMPTY_TABLE}
  {
    hide SetBit;
    forall i: nat | i < NUM_BLOCKS ensures !BitTest(zeros, i) {
      assert zeros[i / 8] == 0;
    }
    assert Used(zeros) == {};
    BitEdits(zeros, 0);
    BitEdits(SetBit(zeros, 0), 1);
    BitEdits(SetBit(SetBit(zeros, 0), 1), ROOT);
    BitEdits(SetBit(SetBit(SetBit(zeros, 0), 1), ROOT), EMPTY_TABLE);
  }

  /** An image with an empty root directory is well formed, and its tree is just the root. */
  lemma FreshImage(img: Image, root: Inode)
    requires |img.blk| == NUM_BLOCKS && img.used == {0, 1, ROOT, EMPTY_TABLE}
    requires img.blk[ROOT] == INode(root) && IsDir(root.attr.mode) && root.size == BLOCK_SIZE
             && root.ptrs[0] == EMPTY_TABLE
    requires img.blk[EMPTY_TABLE].Dir? && EmptyTable(img.blk[EMPTY_TABLE].slots)
    ensures var own := map[ROOT := Root, EMPTY_TABLE := Table(ROOT)];
            WellFormed(img, own) && Leaked(img, own) == {} && Abs(img) == imap[[] := Directory(root.attr, BLOCK_SIZE)]
  {
    var own := map[ROOT := Root, EMPTY_TABLE := Table(ROOT)];
    assert GoodBlock(img, own, ROOT) && GoodBlock(img, own, EMPTY_TABLE);
    assert WellFormed(img, own);
    forall p: Path ensures At(img, p) == if p == [] then Some(Directory(root.attr, BLOCK_SIZE)) else None {
      OnlyRoot(img, own, p);
    }
  }

  lemma {:induction false} OnlyRoot(img: Image, own: Owners, p: Path)
    requires WellFormed(img, own) && own == map[ROOT := Root, EMPTY_TABLE := Table(ROOT)]
    ensures p != [] ==> Walk(img, p) == None
  {
    WalkNode(img, own, p);
  }

  class Disk {
    var bits: Page                // block 1, the bitmap
    const blocks: array<Block>    // the other blocks, by number
    const raw: Block -> Page      // how inode and directory blocks read as bytes
    ghost var own: Owners         // who refers to which block

    ghost function State(): Image
      reads this, blocks
    {
      Image(Used(bits), blocks[..])
    }

    ghost predicate Valid()
      reads this, blocks
    {
      blocks.Length == NUM_BLOCKS && WellFormed(State(), own)
    }

    /** The image disk2.in describes: a root directory at block 2 whose empty table is block 399. */
    constructor (raw: Block -> Page, attr: Attr)
      requires IsDir(attr.mode)
      ensures Valid() && this.raw == raw && Leaked(State(), own) == {}
      ensures Used(bits) == {0, 1, 2, 399} && own == map[2 := Root, 399 := Table(2)]
      ensures Abs(State()) == imap[[] := Directory(attr, BLOCK_SIZE)]
    {
      var zeros: Page := seq(BLOCK_SIZE, _ => 0);
      var root := Inode(attr, BLOCK_SIZE, seq(NUM_PTRS, i => if i == 0 then EMPTY_TABLE else 0));
      bits := SetBit(SetBit(SetBit(SetBit(zeros, 0), 1), ROOT), EMPTY_TABLE);
      blocks := new Block[NUM_BLOCKS](i => if i == ROOT then INode(root) else if i == EMPTY_TABLE then Dir(NoSlots())
          else Data(zeros));
      this.raw := raw;
      own := map[ROOT := Root, EMPTY_TABLE := Table(ROOT)];
      new;
      FreshBits(zeros);
      FreshImage(State(), root);
    }

    // ---------- Blocks ----------

    method AllocBlk() returns (r: int)
      modifies this`bits
      ensures var f := FirstFree(old(Used(bits)));
              if f == NUM_BLOCKS then r == -ENOSPC && bits == old(bits)
              else r == f && Used(bits) == old(Used(bits)) + {f}
    {
      var map1 := new bv8[BLOCK_SIZE](i requires 0 <= i < BLOCK_SIZE reads this => bits[i]);
      assert map1[..] == bits;
      var i := FIRST_DATA;
      while i < NUM_BLOCKS
        invariant FIRST_DATA <= i <= NUM_BLOCKS
        invariant map1[..] == bits == old(bits)
        invariant forall j: nat :: FIRST_DATA <= j < i ==> j in Used(bits)
      {
        if !Hit8(map1[i / 8], Mask8(i % 8)) {
          assert i in FreeBlocks(Used(bits));
          BitSet(map1, i);
          bits := map1[..];
          return i;
        }
        i := i + 1;
      }
      return -ENOSPC;
    }

    method FreeBlk(i: nat)
      requires i < NUM_BLOCKS
      modifies this`bits
      ensures Used(bits) == old(Used(bits)) - {i}
    {
      var map1 := new bv8[BLOCK_SIZE](j requires 0 <= j < BLOCK_SIZE reads this => bits[j]);
      assert map1[..] == bits;
      BitClear(map1, i);
      bits := map1[..];
    }

    /** block_write: the assertion in misc.c stops the process when the block number is not
        positive. */
    method BlockWrite(lba: int, b: Block) returns (ok: bool)
      requires lba < blocks.Length
      modifies blocks
      ensures ok == (lba > 0)
      ensures blocks[..] == if lba > 0 then old(blocks[..])[lba := b] else old(blocks[..])
    {
      ok := lba > 0;
      if ok {
        blocks[lba] := b;
      }
    }

    // ---------- Lookup ----------

    /** The loop's state: the components p[..j] have led to directory cur. */
    ghost predicate Walking(p: Path, j: nat, cur: nat)
      reads this, blocks
      requires Valid()
    {
      j < |p| && Walk(State(), p[..j]) == Some(cur) && IsNode(own, cur) && HasDir(State(), cur)
      && Resolve(State(), p) == ResolveFrom(State(), p, j, cur)
    }

    method Path2Inum(path: string) returns (r: int)
      requires Valid()
      ensures r == if path == [] || path[0] != '/' then -ENOENT else Resolve(State(), Tokens(path))
      ensures r < NUM_BLOCKS && (r >= 0 ==> r >= ROOT && IsNode(own, r) && IsInode(State(), r))
    {
      if path == [] || path[0] != '/' {
        return -ENOENT;
      }
      ghost var p := Tokens(path);
      LookupFacts(p);
      if path == "/" {
        assert path[1..] == [];
        return ROOT;
      }
      var tokens := Tokenise(path[1..]);
      if |tokens| == 0 {
        return ROOT;
      }
      RootStart(p);
      var cur := ROOT;
      var node := blocks[cur].node;
      var j := 0;
      while j < |tokens|
        invariant j < |tokens| && Walking(p, j, cur) && node == NodeOf(State(), cur)
        decreases |tokens| - j
      {
        if |tokens[j]| > NAME_MAX {
          return if j < |tokens| - 1 then -ENOTDIR else -ENOENT;
        }
        // path2inum also gives up on a directory of size 0; there is none on a well-formed disk.
        var dirs := blocks[node.ptrs[0]].slots;
        var k := ScanName(dirs, tokens[j]);
        if k >= NUM_DIRENTS {
          return if |tokens| > 1 && j == |tokens| - 1 then -ENOTDIR else -ENOENT;
        }
        NextStep(p, j, cur);
        if j == |tokens| - 1 {
          return dirs[k].inode;
        }
        node := blocks[dirs[k].inode].node;
        if !IsDir(node.attr.mode) {
          return -ENOTDIR;
        }
        cur := dirs[k].inode;
        j := j + 1;
      }
    }

    lemma LookupFacts(p: Path)
      requires Valid()
      ensures var r := Resolve(State(), p);
              r < NUM_BLOCKS && (r >= 0 ==> r >= ROOT && IsNode(own, r) && IsInode(State(), r))
    {
      AbsWalk(State(), own, p);
      if Walk(State(), p).Some? {
        InDisk(Walk(State(), p).value);
      }
    }

    lemma InDisk(m: nat)
      requires Valid() && m in own
      ensures ROOT <= m < NUM_BLOCKS
    {
      assert GoodBlock(State(), own, m);
    }

    lemma RootStart(p: Path)
      requires Valid() && p != []
      ensures Walking(p, 0, ROOT)
    {
      assert p[..0] == [];
      RootExists(State(), own);
      AbsWalk(State(), own, []);
    }

    /** What the entry found in the current directory means for the walk. */
    lemma NextStep(p: Path, j: nat, cur: nat)
      requires Valid() && Walking(p, j, cur) && |p[j]| <= NAME_MAX
      requires FindName(SlotsOf(State(), cur), p[j]) < NUM_DIRENTS
      ensures var n := SlotsOf(State(), cur)[FindName(SlotsOf(State(), cur), p[j])].inode;
              && Child(State(), cur, p[j]) == Some(n)
              && ROOT <= n < NUM_BLOCKS && IsNode(own, n) && IsInode(State(), n)
              && HasDir(State(), n) == IsDir(NodeOf(State(), n).attr.mode)
              && (j + 1 < |p| && HasDir(State(), n) ==> Walking(p, j + 1, n))
    {
      ChildOwner(State(), own, cur, p[j]);
      var n := SlotsOf(State(), cur)[FindName(SlotsOf(State(), cur), p[j])].inode;
      InDisk(n);
      DirTable(State(), own, n);
      assert Parent(p[..j + 1]) == p[..j] && Last(p[..j + 1]) == p[j];
    }

    // ---------- create and mkdir ----------

    /** The checks before anything is allocated. */
    method FindPlace(path: string, tokens: seq<string>) returns (r: int)
      requires Valid() && FromFuse(path) && tokens == Tokens(path)
      ensures r == NewPlace(State(), tokens)
      ensures r >= 0 ==> IsNode(own, r)
    {
      var found := Path2Inum(path);
      if found > 0 {
        return -EEXIST;
      }
      if |tokens[|tokens| - 1]| > NAME_MAX {
        return -EINVAL;
      }
      var parent := ParentPath(path, tokens);
      var par := Path2Inum(parent);
      if par < 0 {
        return -ENOENT;
      }
      KindOf(par);
      if !IsDir(blocks[par].node.attr.mode) {
        return -ENOTDIR;
      }
      return par;
    }

    lemma KindOf(m: nat)
      requires Valid() && IsNode(own, m)
      ensures m < NUM_BLOCKS && IsInode(State(), m) && HasDir(State(), m) == IsDir(NodeOf(State(), m).attr.mode)
      ensures HasDir(State(), m) ==>
                var t := NodeOf(State(), m).ptrs[0];
                0 < t < NUM_BLOCKS && t != m && TableOf(State(), m) == t && blocks[t].Dir?
                    && SlotsOf(State(), m) == blocks[t].slots
    {
      DirTable(State(), own, m);
      InDisk(m);
      if HasDir(State(), m) {
        InDisk(TableOf(State(), m));
      }
    }

    /** Write the entry for inum into the first free slot of directory par, and par itself back. */
    method AddEntry(par: nat, name: Name, inum: nat) returns (r: Result)
      requires blocks.Length == NUM_BLOCKS && HasDir(State(), par) && 0 < par && 0 < TableOf(State(), par)
               && TableOf(State(), par) != par
      modifies blocks
      ensures (State(), r) == old(Enter(State(), TableOf(State(), par), SlotsOf(State(), par), name, inum))
    {
      var node := blocks[par].node;
      var dirs := blocks[node.ptrs[0]].slots;
      var k := ScanValid(dirs, false);
      if k < NUM_DIRENTS {
        dirs := dirs[k := Dirent(true, inum, name)];
      }
      if k >= NUM_DIRENTS {
        return Ret(-EINVAL);
      }
      ghost var before := blocks[..];
      var ok := BlockWrite(node.ptrs[0], Dir(dirs));
      ok := BlockWrite(par, INode(node));
      assert blocks[..] == before[node.ptrs[0] := Dir(dirs)];
      return Ret(0);
    }

    /** Blocks just written at free numbers leave directory par as it was. */
    lemma PlaceKept(img: Image, img1: Image, own: Owners, par: nat)
      requires WellFormed(img, own) && IsNode(own, par) && HasDir(img, par)
      requires |img1.blk| == |img.blk| && forall b :: 0 <= b < |img.blk| && b in img.used ==> img1.blk[b] == img.blk[b]
      ensures HasDir(img1, par) && TableOf(img1, par) == TableOf(img, par) && SlotsOf(img1, par) == SlotsOf(img, par)
      ensures 0 < par < NUM_BLOCKS && 0 < TableOf(img, par) < NUM_BLOCKS && TableOf(img, par) != par
    {
      DirTable(img, own, par);
      assert GoodBlock(img, own, par) && GoodBlock(img, own, TableOf(img, par));
    }

    /** create, once its checks have passed. */
    lemma CreateIs(img: Image, own: Owners, p: Path, mode: bv32, ctx: Caller, junk: Pointers)
      requires WellFormed(img, own) && NewPlace(img, p) >= 0 && |img.blk| == NUM_BLOCKS
      ensures var par, inum := NewPlace(img, p), FirstFree(img.used);
              && p != [] && HasDir(img, par)
              && Create(img, p, mode, ctx, junk) ==
                   if inum == NUM_BLOCKS then (img, Aborted)
                   else Enter(PutNew(img, inum, INode(NewFile(ctx, mode, junk))), TableOf(img, par),
                        SlotsOf(img, par), Last(p), inum)
      ensures FirstFree(img.used) < NUM_BLOCKS ==> 0 < FirstFree(img.used) && FirstFree(img.used) !in img.used
    {
    }

    method FsCreate(path: string, mode: bv32, ctx: Caller, junk: Pointers) returns (r: Result)
      requires Valid() && FromFuse(path)
      modifies this`bits, this`own, blocks
      ensures Valid()
      ensures (State(), r) == old(Create(State(), Tokens(path), mode, ctx, junk))
      ensures r == Ret(0) ==> own == old(CreateOwners(State(), own, Tokens(path)))
    {
      hide WellFormed, NewPlace, Enter, CreateOwners, Clean, HasDir, FirstFree, Used, Resolve;
      var tokens := Tokenise(path);
      ghost var img0 := State();
      var par := FindPlace(path, tokens);
      CleanString(path);
      CreateKeeps(img0, own, tokens, mode, ctx, junk);
      if par < 0 {
        return Ret(par);
      }
      CreateIs(img0, own, tokens, mode, ctx, junk);
      var inum := AllocBlk();
      var node := NewFile(ctx, mode, junk);
      var ok := BlockWrite(inum, INode(node));
      if !ok {
        return Aborted;
      }
      assert State() == PutNew(img0, inum, INode(node));
      PlaceKept(img0, State(), own, par);
      r := AddEntry(par, tokens[|tokens| - 1], inum);
      if r == Ret(0) {
        own := CreateOwners(img0, own, tokens);
      }
    }

    lemma CreateKeeps(img: Image, own: Owners, p: Path, mode: bv32, ctx: Caller, junk: Pointers)
      requires WellFormed(img, own) && Canonical(p)
      ensures var (img', r) := Create(img, p, mode, ctx, junk);
              WellFormed(img', if r == Ret(0) then CreateOwners(img, own, p) else own)
    {
      GoodLast(p);
      if Create(img, p, mode, ctx, junk).1 == Ret(0) {
        CreateWorks(img, own, p, mode, ctx, junk);
      } else {
        CreateFails(img, own, p, mode, ctx, junk);
      }
    }

    /** mkdir, once its checks have passed. */
    lemma MkdirIs(img: Image, own: Owners, p: Path, mode: bv32, ctx: Caller, junk: Pointers)
      requires WellFormed(img, own) && NewPlace(img, p) >= 0 && |img.blk| == NUM_BLOCKS
      ensures var par := NewPlace(img, p);
              var inum := FirstFree(img.used);
              var table := FirstFree(img.used + {inum});
              && p != [] && HasDir(img, par)
              && (inum == NUM_BLOCKS ==>
                    Mkdir(img, p, mode, ctx, junk) == (img, Aborted) && FirstFree(img.used) == NUM_BLOCKS)
              && (inum < NUM_BLOCKS && table == NUM_BLOCKS ==>
                    Mkdir(img, p, mode, ctx, junk) == (img.(used := img.used + {inum}), Aborted))
              && (inum < NUM_BLOCKS && table < NUM_BLOCKS ==>
                    && 0 < inum && inum !in img.used && 0 < table && table !in img.used && table != inum
                    && Mkdir(img, p, mode, ctx, junk) ==
                         Enter(PutNew(PutNew(img, table, Dir(NoSlots())), inum, INode(NewDir(ctx, mode, junk, table))),
                               TableOf(img, par), SlotsOf(img, par), Last(p), inum))
    {
      DirBlocksFresh(img.used);
    }

    method FsMkdir(path: string, mode: bv32, ctx: Caller, junk: Pointers) returns (r: Result)
      requires Valid() && FromFuse(path)
      modifies this`bits, this`own, blocks
      ensures Valid()
      ensures (State(), r) == old(Mkdir(State(), Tokens(path), mode, ctx, junk))
      ensures r == Ret(0) ==> own == old(MkdirOwners(State(), own, Tokens(path)))
    {
      hide WellFormed, NewPlace, Enter, MkdirOwners, Clean, HasDir, FirstFree, Used, Resolve, Mkdir;
      var tokens := Tokenise(path);
      ghost var img0 := State();
      var par := FindPlace(path, tokens);
      CleanString(path);
      MkdirKeeps(img0, own, tokens, mode, ctx, junk);
      if par < 0 {
        MkdirRefused(img0, tokens, mode, ctx, junk);
        return Ret(par);
      }
      MkdirIs(img0, own, tokens, mode, ctx, junk);
      var inum := AllocBlk();
      var table := AllocBlk();
      var ok := BlockWrite(table, Dir(NoSlots()));
      if !ok {
        return Aborted;
      }
      var node := NewDir(ctx, mode, junk, table);
      ok := BlockWrite(inum, INode(node));
      assert State() == PutNew(PutNew(img0, table, Dir(NoSlots())), inum, INode(node));
      PlaceKept(img0, State(), own, par);
      r := AddEntry(par, tokens[|tokens| - 1], inum);
      if r == Ret(0) {
        own := MkdirOwners(img0, own, tokens);
      }
    }

    lemma MkdirRefused(img: Image, p: Path, mode: bv32, ctx: Caller, junk: Pointers)
      requires NewPlace(img, p) < 0 && |img.blk| == NUM_BLOCKS
      ensures Mkdir(img, p, mode, ctx, junk) == (img, Ret(NewPlace(img, p)))
    {
    }

    lemma MkdirKeeps(img: Image, own: Owners, p: Path, mode: bv32, ctx: Caller, junk: Pointers)
      requires WellFormed(img, own) && Canonical(p)
      ensures var (img', r) := Mkdir(img, p, mode, ctx, junk);
              WellFormed(img', if r == Ret(0) then MkdirOwners(img, own, p) else own)
    {
      GoodLast(p);
      if Mkdir(img, p, mode, ctx, junk).1 == Ret(0) {
        MkdirWorks(img, own, p, mode, ctx, junk);
      } else {
        MkdirFails(img, own, p, mode, ctx, junk);
      }
    }

    // ---------- unlink and rmdir ----------

    /** Free the blocks of all live pointers. */
    method FreeExtents(node: Inode)
      requires BlocksFor(node.size) <= NUM_PTRS
      requires forall i :: 0 <= i < BlocksFor(node.size) ==> node.ptrs[i] < NUM_BLOCKS
      modifies this`bits
      ensures Used(bits) == old(Used(bits)) - Extents(node)
    {
      var i := 0;
      while i < BlocksFor(node.size)
        invariant 0 <= i <= BlocksFor(node.size)
        invariant Used(bits) == old(Used(bits)) - set j | 0 <= j < NUM_PTRS && j < i :: node.ptrs[j]
      {
        FreeBlk(node.ptrs[i]);
        i := i + 1;
      }
    }

    lemma LivePointers(f: nat)
      requires Valid() && IsNode(own, f) && IsInode(State(), f) && !IsDir(NodeOf(State(), f).attr.mode)
      ensures BlocksFor(NodeOf(State(), f).size) <= NUM_PTRS
      ensures forall i :: 0 <= i < BlocksFor(NodeOf(State(), f).size) ==>
              ROOT <= NodeOf(State(), f).ptrs[i] < NUM_BLOCKS
    {
      DirTable(State(), own, f);
      forall i | 0 <= i < BlocksFor(NodeOf(State(), f).size) ensures ROOT <= NodeOf(State(), f).ptrs[i] < NUM_BLOCKS {
        assert GoodBlock(State(), own, NodeOf(State(), f).ptrs[i]);
      }
    }

    /** Clear the slot that refers to inum, stamp the parent, and write both back. */
    method RemoveEntry(par: nat, parent: Inode, inum: nat, now: nat)
      requires blocks.Length == NUM_BLOCKS && HasDir(State(), par) && parent == NodeOf(State(), par)
      requires 0 < par && 0 < TableOf(State(), par) && TableOf(State(), par) != par
      modifies blocks
      ensures State() == old(Leave(State(), par, inum, now))
    {
      var dirs := blocks[parent.ptrs[0]].slots;
      var k := ScanInode(dirs, inum);
      if k < NUM_DIRENTS {
        dirs := dirs[k := dirs[k].(valid := false)];
      }
      var ok := BlockWrite(parent.ptrs[0], Dir(dirs));
      ok := BlockWrite(par, INode(parent.(attr := parent.attr.(mtime := now))));
    }

    method FsUnlink(path: string, now: nat) returns (r: Result)
      requires Valid() && FromFuse(path)
      modifies this`bits, this`own, blocks
      ensures Valid()
      ensures (State(), r) == old(Unlink(State(), Tokens(path), now))
      ensures r == Ret(0) ==> own == old(DropAt(State(), own, Tokens(path)))
    {
      hide WellFormed, Leave, Clean, HasDir, Used, Resolve, Abs, Extents, DropAt, UnlinkError;
      var tokens := Tokenise(path);
      ghost var img0 := State();
      CleanString(path);
      UnlinkKeeps(img0, own, tokens, now);
      var parentPath := ParentPath(path, tokens);
      var par := Path2Inum(parentPath);
      if par < 0 {
        return Ret(-ENOENT);
      }
      KindOf(par);
      var parent := blocks[par].node;
      if !IsDir(parent.attr.mode) {
        return Ret(-ENOTDIR);
      }
      var inum := Path2Inum(path);
      if inum < 0 {
        return Ret(-ENOENT);
      }
      var node := blocks[inum].node;
      if IsDir(node.attr.mode) {
        return Ret(-EISDIR);
      }
      LivePointers(inum);
      FreeExtents(node);
      FreeBlk(inum);
      assert State() == img0.(used := img0.used - Extents(node) - {inum as nat});
      SameDir(img0, State(), par);
      RemoveEntry(par, parent, inum, now);
      own := DropAt(img0, own, tokens);
      return Ret(0);
    }

    /** Only the bitmap changed, so directory par is as it was. */
    lemma SameDir(img: Image, img1: Image, par: nat)
      requires img1.blk == img.blk
      ensures HasDir(img1, par) == HasDir(img, par)
      ensures IsInode(img1, par) == IsInode(img, par) && (IsInode(img, par) ==> NodeOf(img1, par) == NodeOf(img, par))
      ensures HasDir(img, par) ==> TableOf(img1, par) == TableOf(img, par) && SlotsOf(img1, par) == SlotsOf(img, par)
    {
    }

    method FsRmdir(path: string, now: nat) returns (r: Result)
      requires Valid() && FromFuse(path)
      modifies this`bits, this`own, blocks
      ensures blocks.Length == NUM_BLOCKS && (State(), r) == old(Rmdir(State(), Tokens(path), now))
      ensures old(path != "/" || HasChildren(Abs(State()), [])) ==> Valid()
      ensures r == Ret(0) && path != "/" ==> own == old(DropAt(State(), own, Tokens(path)))
    {
      hide WellFormed, Leave, Clean, HasDir, Used, Resolve, Abs, DropAt, RmdirError;
      var tokens := Tokenise(path);
      ghost var img0 := State();
      CleanString(path);
      RmdirKeeps(img0, own, tokens, now);
      var parentPath := ParentPath(path, tokens);
      var par := Path2Inum(parentPath);
      if par < 0 {
        return Ret(-ENOENT);
      }
      KindOf(par);
      var parent := blocks[par].node;
      if !IsDir(parent.attr.mode) {
        return Ret(-ENOTDIR);
      }
      var inum := Path2Inum(path);
      if inum < 0 {
        return Ret(-ENOENT);
      }
      KindOf(inum);
      var node := blocks[inum].node;
      if !IsDir(node.attr.mode) {
        return Ret(-ENOTDIR);
      }
      var dirs := blocks[node.ptrs[0]].slots;
      var k := ScanValid(dirs, true);
      if k < NUM_DIRENTS {
        return Ret(-ENOTEMPTY);
      }
      FreeBlk(node.ptrs[0]);
      FreeBlk(inum);
      assert State() == img0.(used := img0.used - {TableOf(img0, inum), inum as nat});
      SameDir(img0, State(), par);
      RemoveEntry(par, parent, inum, now);
      if path != "/" {
        own := DropAt(img0, own, tokens);
      }
      return Ret(0);
    }

    lemma UnlinkKeeps(img: Image, own: Owners, p: Path, now: nat)
      requires WellFormed(img, own)
      ensures var (img', r) := Unlink(img, p, now);
              if r == Ret(0) then WellFormed(img', DropAt(img, own, p)) else img' == img
    {
      UnlinkWorks(img, own, p, now);
    }

    lemma RmdirKeeps(img: Image, own: Owners, p: Path, now: nat)
      requires WellFormed(img, own)
      ensures var (img', r) := Rmdir(img, p, now);
              if r == Ret(0) then p != [] ==> WellFormed(img', DropAt(img, own, p)) else img' == img
      ensures p == [] && HasChildren(Abs(img), []) ==> Rmdir(img, p, now).1 != Ret(0)
    {
      RmdirCode(img, own, p, now);
      RootExists(img, own);
      if RmdirError(Abs(img), p) == 0 && p != [] {
        RmdirWorks(img, own, p, now);
      }
    }

    // ---------- rename, chmod, utime, truncate ----------

    method FsRename(srcPath: string, dstPath: string) returns (r: Result)
      requires Valid() && FromFuse(srcPath) && FromFuse(dstPath)
      modifies blocks
      ensures r == old(Rename(State(), Tokens(srcPath), Tokens(dstPath))).1
      ensures r != Ret(0) || NameFits(Tokens(dstPath)) ==>
                Valid() && State() == old(Rename(State(), Tokens(srcPath), Tokens(dstPath))).0
    {
      hide WellFormed, Clean, Used, Abs, RenameError, HasDir, Resolve;
      CleanString(srcPath);
      CleanString(dstPath);
      ghost var img0 := State();
      ghost var src, dst := Tokens(srcPath), Tokens(dstPath);
      RenameKeeps(img0, own, src, dst);
      var inum1 := Path2Inum(srcPath);
      if inum1 <= 0 {
        return Ret(if inum1 == -ENOTDIR then -EINVAL else -ENOENT);
      }
      var inum2 := Path2Inum(dstPath);
      if inum2 > 0 {
        return Ret(-EEXIST);
      }
      var srcTokens := Tokenise(srcPath);
      var dstTokens := Tokenise(dstPath);
      if |dstTokens| != |srcTokens| {
        return Ret(-EINVAL);
      }
      assert srcTokens != [];
      var same := SameParent(srcTokens, dstTokens);
      if !same {
        return Ret(-EINVAL);
      }
      var parentPath := ParentPath(srcPath, srcTokens);
      RenameParent(img0, own, src);
      var par := Path2Inum(parentPath);
      KindOf(par);
      RenameEntry(par, srcTokens[|srcTokens| - 1], dstTokens[|srcTokens| - 1]);
      return Ret(0);
    }

    /** Do two equally long paths agree in all components but the last? */
    method SameParent(src: seq<string>, dst: seq<string>) returns (same: bool)
      requires src != [] && |src| == |dst|
      ensures same == (Parent(src) == Parent(dst))
    {
      var i := 0;
      while i < |src| - 1
        invariant 0 <= i <= |src| - 1
        invariant src[..i] == dst[..i]
      {
        if src[i] != dst[i] {
          assert Parent(src)[i] != Parent(dst)[i];
          return false;
        }
        i := i + 1;
      }
      return true;
    }

    /** Change the name in the slot that carries it. */
    method RenameEntry(par: nat, name: Name, newName: Name)
      requires blocks.Length == NUM_BLOCKS && HasDir(State(), par) && 0 < TableOf(State(), par)
      requires FindName(SlotsOf(State(), par), name) < NUM_DIRENTS
      modifies blocks
      ensures State() == old(SetSlot(State(), TableOf(State(), par), SlotsOf(State(), par),
              FindName(SlotsOf(State(), par), name),
                                     SlotsOf(State(), par)[FindName(SlotsOf(State(), par), name)].(name := newName)))
    {
      var parent := blocks[par].node;
      var dirs := blocks[parent.ptrs[0]].slots;
      var k := ScanName(dirs, name);
      dirs := dirs[k := dirs[k].(name := newName)];
      var ok := BlockWrite(parent.ptrs[0], Dir(dirs));
    }

    /** The last name of a path fits its slot. */
    static predicate NameFits(p: Path) {
      p == [] || |Last(p)| <= NAME_MAX
    }

    lemma RenameKeeps(img: Image, own: Owners, src: Path, dst: Path)
      requires WellFormed(img, own) && Canonical(dst)
      ensures NameFits(dst) ==> WellFormed(Rename(img, src, dst).0, own)
      ensures Resolve(img, []) == ROOT
    {
      GoodLast(dst);
      if NameFits(dst) {
        RenameWorks(img, own, src, dst);
      }
    }

    /** An existing source has an existing parent directory, with an entry for it. */
    lemma RenameParent(img: Image, own: Owners, src: Path)
      requires WellFormed(img, own) && Resolve(img, src) > 0 && src != []
      ensures Resolve(img, Parent(src)) >= 0 && HasDir(img, Resolve(img, Parent(src)))
      ensures FindName(SlotsOf(img, Resolve(img, Parent(src))), Last(src)) < NUM_DIRENTS
    {
      AbsWalk(img, own, src);
      AbsWalk(img, own, Parent(src));
    }

    method FsChmod(path: string, mode: bv32) returns (r: Result)
      requires Valid() && FromFuse(path)
      modifies blocks
      ensures Valid()
      ensures (State(), r) == old(Chmod(State(), Tokens(path), mode))
    {
      hide WellFormed, Clean, Used, Abs, ChangeMode;
      CleanString(path);
      ChmodKeeps(State(), own, Tokens(path), mode);
      var inum := Path2Inum(path);
      if inum < 0 {
        return Ret(-ENOENT);
      }
      var node := blocks[inum].node;
      var ok := BlockWrite(inum, INode(node.(attr := node.attr.(mode := ChangeMode(node.attr.mode, mode)))));
      return Ret(0);
    }

    lemma ChmodKeeps(img: Image, own: Owners, p: Path, mode: bv32)
      requires WellFormed(img, own)
      ensures WellFormed(Chmod(img, p, mode).0, own)
    {
      ChmodWorks(img, own, p, mode);
    }

    lemma UtimeKeeps(img: Image, own: Owners, p: Path, mtime: nat)
      requires WellFormed(img, own)
      ensures WellFormed(Utime(img, p, mtime).0, own)
    {
      UtimeWorks(img, own, p, mtime);
    }

    method FsUtime(path: string, mtime: nat) returns (r: Result)
      requires Valid() && FromFuse(path)
      modifies blocks
      ensures Valid()
      ensures (State(), r) == old(Utime(State(), Tokens(path), mtime))
    {
      hide WellFormed, Clean, Used, Abs;
      CleanString(path);
      UtimeKeeps(State(), own, Tokens(path), mtime);
      var inum := Path2Inum(path);
      if inum <= 0 {
        return PathError(inum);
      }
      var node := blocks[inum].node;
      if IsDir(node.attr.mode) {
        return Ret(-EISDIR);
      }
      var ok := BlockWrite(inum, INode(node.(attr := node.attr.(mtime := mtime))));
      return Ret(0);
    }

    method FsTruncate(path: string, len: int) returns (r: Result)
      requires Valid() && FromFuse(path)
      modifies this`bits, this`own, blocks
      ensures Valid()
      ensures (State(), r) == old(Truncate(State(), Tokens(path), len))
      ensures r == Ret(0) ==> own == old(EmptiedAt(State(), own, Tokens(path)))
    {
      hide WellFormed, Clean, Used, Abs, Extents, EmptiedAt;
      CleanString(path);
      ghost var img0 := State();
      if len != 0 {
        return Ret(-EINVAL);
      }
      TruncateKeeps(img0, own, Tokens(path));
      var inum := Path2Inum(path);
      if inum <= 0 {
        return PathError(inum);
      }
      var node := blocks[inum].node;
      if IsDir(node.attr.mode) {
        return Ret(-EISDIR);
      }
      LivePointers(inum);
      FreeExtents(node);
      var ok := BlockWrite(inum, INode(node.(size := 0)));
      own := EmptiedAt(img0, own, Tokens(path));
      return Ret(0);
    }

    lemma TruncateKeeps(img: Image, own: Owners, p: Path)
      requires WellFormed(img, own)
      ensures var (img', r) := Truncate(img, p, 0);
              if r == Ret(0) then WellFormed(img', EmptiedAt(img, own, p)) else img' == img
    {
      TruncateWorks(img, own, p, 0);
    }

    // ---------- read ----------

    /** A byte inside a file lies in the data block its live pointer names. */
    lemma LiveByte(f: nat, i: nat)
      requires Valid() && IsNode(own, f) && IsInode(State(), f) && !IsDir(NodeOf(State(), f).attr.mode)
      requires i < NodeOf(State(), f).size
      ensures var b := NodeOf(State(), f).ptrs;
              BlockOf(i) < NUM_PTRS && b[BlockOf(i)] < NUM_BLOCKS && blocks[b[BlockOf(i)]].Data?
              && Contents(State(), NodeOf(State(), f))[i] == blocks[b[BlockOf(i)]].bytes[Within(i)]
    {
      LivePointers(f);
      DirTable(State(), own, f);
      assert GoodBlock(State(), own, NodeOf(State(), f).ptrs[BlockOf(i)]);
    }

    /** Copy n bytes of a block to a place in the caller's buffer. */
    method CopyOut(page: Page, at: nat, buf: array<Byte>, to: nat, n: nat)
      requires at + n <= BLOCK_SIZE && to + n <= buf.Length
      modifies buf
      ensures buf[..] == old(buf[..])[..to] + page[at..at + n] + old(buf[..])[to + n..]
    {
      var i := 0;
      while i < n
        invariant i <= n
        invariant forall k :: 0 <= k < buf.Length ==> buf[k] == if to <= k < to + i then page[at + k - to]
                  else old(buf[k])
      {
        buf[to + i] := page[at + i];
        i := i + 1;
      }
    }

    method FsRead(path: string, buf: array<Byte>, len: nat, off: nat) returns (r: Result)
      requires Valid() && FromFuse(path) && len <= buf.Length && buf as object != blocks
      modifies buf
      ensures Valid() && State() == old(State())
      ensures var (code, data) := Read(State(), Tokens(path), len, off);
              && r == code && |data| <= len
              && buf[..] == data + old(buf[..])[|data|..]
    {
      CleanString(path);
      var inum := Path2Inum(path);
      if inum <= 0 {
        return PathError(inum);
      }
      var node := blocks[inum].node;
      if IsDir(node.attr.mode) {
        return Ret(-EISDIR);
      }
      if off >= node.size {
        return Ret(0);
      }
      r := ReadBlocks(inum, node, buf, len, off);
    }

    /** One round of the loop: copy n more bytes, from the block that holds them. */
    method CopyBlock(f: nat, node: Inode, blockNum: nat, blockOffset: nat, buf: array<Byte>, nread: nat, n: nat,
                     ghost all: seq<Byte>, ghost off: nat, ghost first: seq<Byte>)
      requires Valid() && nread + n <= buf.Length == |first| && buf as object != blocks
      requires IsNode(own, f) && IsInode(State(), f) && NodeOf(State(), f) == node && !IsDir(node.attr.mode)
      requires all == Contents(State(), node) && 0 < n && off + nread + n <= node.size && blockOffset + n <= BLOCK_SIZE
      requires blockNum == BlockOf(off + nread) && blockOffset == Within(off + nread)
      requires Filled(all, off, nread, first, buf[..])
      modifies buf
      ensures Valid() && State() == old(State())
      ensures Filled(all, off, nread + n, first, buf[..])
    {
      hide WellFormed, Contents, BlockOf, Within, Used, Filled, ByteAt;
      PageBytes(f, off + nread, n);
      FilledIs(all, off, nread, first, buf[..]);
      ContentsSize(State(), node);
      var page := blocks[node.ptrs[blockNum]].bytes;
      CopyOut(page, blockOffset, buf, nread, n);
      assert blocks[..] == old(blocks[..]);
      Extended(all, off, nread, n, first, old(buf[..]), buf[..]);
    }

    /** How much one round copies: the rest of the block, cut at the end of the request and at
        the end of the file. */
    method Clip(blockOffset: nat, nread: nat, len: nat, off: nat, size: nat) returns (readLength: nat)
      requires blockOffset < BLOCK_SIZE && nread < len && nread + off < size
      ensures 0 < readLength <= BLOCK_SIZE - blockOffset && nread + readLength <= Min(len, size - off)
      ensures nread + readLength < Min(len, size - off) ==> readLength == BLOCK_SIZE - blockOffset
    {
      readLength := BLOCK_SIZE - blockOffset;
      if nread + readLength > len {
        readLength := len - nread;
      }
      if nread + off + readLength > size {
        readLength := size - off - nread;
      }
    }

    method ReadBlocks(inum: nat, node: Inode, buf: array<Byte>, len: nat, off: nat) returns (r: Result)
      requires Valid() && len <= buf.Length && buf as object != blocks
      requires IsNode(own, inum) && IsInode(State(), inum) && NodeOf(State(), inum) == node && !IsDir(node.attr.mode)
               && off < node.size
      modifies buf
      ensures Valid() && State() == old(State())
      ensures var n := Min(len, node.size - off);
              r == Ret(n) && buf[..] == Contents(State(), node)[off..off + n] + old(buf[..])[n..]
    {
      hide Valid, State, Contents, ByteAt, BlockOf, Within, WellFormed, Filled, IsNode, IsDir;
      ghost var all, first := Contents(State(), node), buf[..];
      var nread := 0;
      var blockNum := BlockOf(off);
      var blockOffset := Within(off);
      WithinBlock(off);
      ContentsSize(State(), node);
      FilledNone(all, off, first);
      while nread < len && nread + off < node.size
        invariant nread <= Min(len, node.size - off)
        invariant Valid() && State() == old(State())
        invariant nread < len && nread + off < node.size ==>
                    blockNum == BlockOf(off + nread) && blockOffset == Within(off + nread) && blockOffset < BLOCK_SIZE
        invariant Filled(all, off, nread, first, buf[..])
        decreases len - nread
      {
        var readLength := Clip(blockOffset, nread, len, off, node.size);
        CopyBlock(inum, node, blockNum, blockOffset, buf, nread, readLength, all, off, first);
        NextOffset(off + nread, readLength);
        nread := nread + readLength;
        blockNum := blockNum + 1;
        blockOffset := 0;
      }
      FilledIs(all, off, nread, first, buf[..]);
      return Ret(nread);
    }

    /** The first nread bytes of the caller's buffer come from the file, the rest is untouched. */
    ghost predicate Filled(all: seq<Byte>, off: nat, nread: nat, first: seq<Byte>, now: seq<Byte>) {
      off + nread <= |all| && nread <= |first| && now == all[off..off + nread] + first[nread..]
    }

    lemma FilledNone(all: seq<Byte>, off: nat, first: seq<Byte>)
      requires off <= |all|
      ensures Filled(all, off, 0, first, first)
    {
    }

    lemma FilledIs(all: seq<Byte>, off: nat, nread: nat, first: seq<Byte>, now: seq<Byte>)
      requires Filled(all, off, nread, first, now)
      ensures off + nread <= |all| && nread <= |first| && now == all[off..off + nread] + first[nread..]
              && |now| == |first|
    {
    }

    lemma Extended(all: seq<Byte>, off: nat, nread: nat, n: nat, first: seq<Byte>, before: seq<Byte>, after: seq<Byte>)
      requires Filled(all, off, nread, first, before) && off + nread + n <= |all| && nread + n <= |first|
      requires after == before[..nread] + all[off + nread..off + nread + n] + before[nread + n..]
      ensures Filled(all, off, nread + n, first, after)
    {
    }

    lemma ContentsSize(img: Image, n: Inode)
      ensures |Contents(img, n)| == n.size
    {
    }

    lemma WithinBlock(i: nat)
      ensures Within(i) < BLOCK_SIZE
    {
    }

    lemma NextOffset(i: nat, n: nat)
      requires 0 < n <= BLOCK_SIZE - Within(i)
      ensures n == BLOCK_SIZE - Within(i) ==> BlockOf(i + n) == BlockOf(i) + 1 && Within(i + n) == 0
    {
    }

    /** A stretch of a file inside one block is a stretch of that block. */
    lemma PageBytes(f: nat, i: nat, n: nat)
      requires Valid() && IsNode(own, f) && IsInode(State(), f) && !IsDir(NodeOf(State(), f).attr.mode)
      requires 0 < n && i + n <= NodeOf(State(), f).size && Within(i) + n <= BLOCK_SIZE
      ensures var b := NodeOf(State(), f).ptrs;
              BlockOf(i) < NUM_PTRS && b[BlockOf(i)] < NUM_BLOCKS && blocks[b[BlockOf(i)]].Data?
              && Contents(State(), NodeOf(State(), f))[i..i + n] ==
                   blocks[b[BlockOf(i)]].bytes[Within(i)..Within(i) + n]
    {
      hide WellFormed, Contents, Used;
      LiveByte(f, i);
      var page := blocks[NodeOf(State(), f).ptrs[BlockOf(i)]].bytes;
      var all := Contents(State(), NodeOf(State(), f));
      var x, y := all[i..i + n], page[Within(i)..Within(i) + n];
      forall k | 0 <= k < n ensures x[k] == y[k] {
        LiveByte(f, i + k);
        assert BlockOf(i + k) == BlockOf(i) && Within(i + k) == Within(i) + k;
      }
    }

    // ---------- getattr, readdir, statfs ----------

    method FsGetattr(path: string) returns (r: Result, st: Option<Stat>)
      requires Valid() && FromFuse(path)
      ensures (r, st) == Getattr(State(), Tokens(path))
    {
      CleanString(path);
      var inum := Path2Inum(path);
      if inum <= 0 {
        return PathError(inum), None;
      }
      return Ret(0), Some(StatOf(blocks[inum].node, inum));
    }

    /** The filler's calls, in order, are the result `list`. */
    method FsReaddir(path: string) returns (r: Result, list: seq<(Name, Stat)>)
      requires Valid() && FromFuse(path)
      ensures (r, list) == Readdir(State(), Tokens(path))
    {
      hide WellFormed, Clean, Used, Resolve;
      CleanString(path);
      list := [];
      var inum := Path2Inum(path);
      if inum <= 0 {
        return Ret(-ENOENT), [];
      }
      KindOf(inum);
      var node := blocks[inum].node;
      if !IsDir(node.attr.mode) {
        return Ret(-ENOTDIR), [];
      }
      var dirs := blocks[node.ptrs[0]].slots;
      var k := 0;
      while k < NUM_DIRENTS
        invariant k <= NUM_DIRENTS
        invariant list == Listing(State(), dirs[..k])
      {
        if dirs[k].valid {
          SlotInode(inum, k);
          var child := blocks[dirs[k].inode].node;
          list := list + [(dirs[k].name, StatOf(child, dirs[k].inode))];
        }
        assert dirs[..k + 1][..k] == dirs[..k];
        k := k + 1;
      }
      assert dirs[..k] == dirs;
      return Ret(0), list;
    }

    lemma SlotInode(m: nat, k: nat)
      requires Valid() && IsNode(own, m) && HasDir(State(), m) && k < NUM_DIRENTS && SlotsOf(State(), m)[k].valid
      ensures SlotsOf(State(), m)[k].inode < NUM_BLOCKS && IsInode(State(), SlotsOf(State(), m)[k].inode)
    {
      DirTable(State(), own, m);
      assert GoodBlock(State(), own, SlotsOf(State(), m)[k].inode);
    }

    /** Counts are unsigned 64-bit words, so more marked blocks than the disk has wrap around. */
    method FsStatfs(diskSize: nat) returns (blockCount: nat, free: nat)
      requires Valid() && 2 <= diskSize <= NUM_BLOCKS
      ensures (blockCount, free) == Statfs(State(), diskSize)
    {
      hide WellFormed, Used, Hit8, Mask8;
      blockCount := diskSize - 2;
      var taken := 0;
      var i := 2;
      ghost var counted: set<nat> := {};
      while i < NUM_BLOCKS
        invariant 2 <= i <= NUM_BLOCKS
        invariant counted == (set b | b in State().used && 2 <= b < i) && taken == |counted|
      {
        UsedHit(bits, i);
        if Hit8(bits[i / 8], Mask8(i % 8)) {
          counted := counted + {i};
          taken := taken + 1;
        }
        i := i + 1;
      }
      free := (blockCount - taken) % WORD;
    }

    // ---------- write ----------

    /** Overwrite part of a block image in memory. */
    method CopyIn(buffer: array<Byte>, at: nat, bytes: seq<Byte>)
      requires buffer.Length == BLOCK_SIZE && at + |bytes| <= BLOCK_SIZE
      modifies buffer
      ensures buffer[..] == Splice(old(buffer[..]), at, bytes)
    {
      var i := 0;
      while i < |bytes|
        invariant i <= |bytes|
        invariant forall k :: 0 <= k < BLOCK_SIZE ==> buffer[k] == if at <= k < at + i then bytes[k - at]
                  else old(buffer[k])
      {
        buffer[at + i] := bytes[i];
        i := i + 1;
      }
    }

    /** One round of the loop of fs_write: allocate if needed, read, change, write back. */
    method PutBlock(ptrs: Pointers, live: nat, blockNum: nat, blockOffset: nat, chunk: seq<Byte>, ghost off: nat)
      returns (b: int)
      requires blocks.Length == NUM_BLOCKS && off < MAX_FILE && blockOffset + |chunk| <= BLOCK_SIZE
      requires blockNum == BlockOf(off) && blockOffset == Within(off)
      requires blockNum < live ==> ROOT <= ptrs[blockNum] < NUM_BLOCKS
      modifies this`bits, blocks
      ensures var t := old(Target(State(), ptrs, live, off));
              if t < NUM_BLOCKS
              then b == t && old(PutChunk(raw, State(), ptrs, live, chunk, off)) ==
                  Written(State(), ptrs[blockNum := t], true)
              else b < 0 && State() == old(State())
    {
      if blockNum >= live {
        FreshBlock(Used(bits));
        b := AllocBlk();
      } else {
        b := ptrs[blockNum];
      }
      // The test for a failed allocation compares an unsigned number with 0 and never fires;
      // the write below stops the process instead.
      var buffer := new Byte[BLOCK_SIZE];
      if b >= 0 {
        var page := BytesOf(raw, blocks[b]);
        buffer := new Byte[BLOCK_SIZE](i requires 0 <= i < BLOCK_SIZE => page[i]);
        assert buffer[..] == page;
        CopyIn(buffer, blockOffset, chunk);
      }
      var ok := BlockWrite(b, Data(buffer[..]));
    }

    lemma FreshBlock(used: set<nat>)
      ensures FirstFree(used) < NUM_BLOCKS ==> 0 < FirstFree(used)
    {
      if FirstFree(used) < NUM_BLOCKS {
        FirstFreeFresh(used);
      }
    }

    method FsWrite(path: string, buf: seq<Byte>, off: nat, now: nat) returns (r: Result)
      requires Valid() && FromFuse(path)
      modifies this`bits, this`own, blocks
      ensures Valid()
      ensures (State(), r) == old(Write(raw, State(), Tokens(path), buf, off, now))
      ensures own == old(WriteOwners(raw, State(), own, Tokens(path), buf, off))
    {
      hide WellFormed, WriteOwners, Run, Abs, Used, Clean;
      ghost var img0, p := State(), Tokens(path);
      CleanString(path);
      WriteKeeps(raw, img0, own, p, buf, off, now);
      var inum := Path2Inum(path);
      if inum <= 0 {
        own := WriteOwners(raw, img0, own, p, buf, off);
        return PathError(inum);
      }
      var node := blocks[inum].node;
      if IsDir(node.attr.mode) {
        own := WriteOwners(raw, img0, own, p, buf, off);
        return Ret(-EISDIR);
      }
      if off > node.size {
        own := WriteOwners(raw, img0, own, p, buf, off);
        return Ret(0);
      }
      if off + |buf| > MAX_FILE {
        own := WriteOwners(raw, img0, own, p, buf, off);
        return Ret(-ENOSPC);
      }
      var ptrs, ok := WriteBlocks(inum, node, buf, off);
      own := WriteOwners(raw, img0, own, p, buf, off);
      if !ok {
        return Aborted;
      }
      var done := BlockWrite(inum, INode(Grown(node, ptrs, off + |buf|, now)));
      return Ret(|buf|);
    }

    lemma WriteKeeps(raw: Block -> Page, img: Image, own: Owners, p: Path, buf: seq<Byte>, off: nat, now: nat)
      requires WellFormed(img, own) && |img.blk| == NUM_BLOCKS
      ensures WellFormed(Write(raw, img, p, buf, off, now).0, WriteOwners(raw, img, own, p, buf, off))
    {
      hide WellFormed, Write, WriteOwners, Abs, Effect;
      WriteStep(raw, img, own, OpWrite(p, buf, off, now));
    }

    /** The loop of fs_write, with the inode's pointers cached in `ptrs`. */
    method WriteBlocks(inum: nat, node: Inode, buf: seq<Byte>, off: nat) returns (ptrs: Pointers, ok: bool)
      requires Valid() && IsNode(own, inum) && IsInode(State(), inum) && NodeOf(State(), inum) == node
               && !IsDir(node.attr.mode)
      requires off <= node.size && off + |buf| <= MAX_FILE
      modifies this`bits, blocks
      ensures blocks.Length == NUM_BLOCKS
      ensures Written(State(), ptrs, ok) == old(Run(raw, State(), node.ptrs, BlocksFor(node.size), buf, off))
    {
      hide WellFormed, Midway, Running, Run, PutChunk, Target, BlockOf, Within, ChunkLen, BlocksFor, Used;
      ghost var img0 := State();
      ghost var goal := Run(raw, img0, node.ptrs, BlocksFor(node.size), buf, off);
      StartRunning(img0, own, inum, off, |buf|);
      ptrs := node.ptrs;
      var nread := 0;
      var blockNum := BlockOf(off);
      var blockOffset := Within(off);
      while nread < |buf|
        invariant nread <= |buf| && blocks.Length == NUM_BLOCKS
        invariant nread < |buf| ==> blockNum == BlockOf(off + nread) && blockOffset == Within(off + nread)
        invariant Running(img0, own, inum, State(), ptrs, off + nread, |buf| - nread)
        invariant Run(raw, State(), ptrs, BlocksFor(node.size), buf[nread..], off + nread) == goal
      {
        ghost var rest := buf[nread..];
        WithinBlock(off + nread);
        var readLength := BLOCK_SIZE - blockOffset;
        if nread + readLength > |buf| {
          readLength := |buf| - nread;
        }
        ChunkIs(off + nread, |rest|, readLength);
        RunStep(raw, State(), ptrs, BlocksFor(node.size), rest, off + nread);
        RoundStart(img0, own, inum, State(), ptrs, off + nread, |rest|);
        ghost var img1 := State();
        var chunk := buf[nread..nread + readLength];
        assert chunk == rest[..readLength] && rest[readLength..] == buf[nread + readLength..];
        var b := PutBlock(ptrs, BlocksFor(node.size), blockNum, blockOffset, chunk, off + nread);
        if b < 0 {
          return ptrs, false;
        }
        RoundRuns(raw, img0, own, inum, img1, ptrs, off + nread, |rest|, chunk);
        NextOffset(off + nread, readLength);
        ptrs := ptrs[blockNum := b];
        nread := nread + readLength;
        blockNum := blockNum + 1;
        blockOffset := 0;
      }
      RunStep(raw, State(), ptrs, BlocksFor(node.size), buf[nread..], off + nread);
      return ptrs, true;
    }

    /** The length the loop computes is that of the chunk. */
    lemma ChunkIs(off: nat, len: nat, n: nat)
      requires 0 < len && n == if BLOCK_SIZE - Within(off) > len then len else BLOCK_SIZE - Within(off)
      ensures n == ChunkLen(off, len) && 0 < n
    {
    }

    lemma RoundStart(img0: Image, own: Owners, f: nat, img: Image, ptrs: Pointers, off: nat, len: nat)
      requires Running(img0, own, f, img, ptrs, off, len) && 0 < len
      ensures IsInode(img0, f) && off < MAX_FILE && BlockOf(off) < NUM_PTRS
      ensures BlockOf(off) < BlocksFor(NodeOf(img0, f).size) ==> ROOT <= ptrs[BlockOf(off)] < NUM_BLOCKS
    {
      if BlockOf(off) < BlocksFor(NodeOf(img0, f).size) {
        LiveBlock(img0, own, f, img, ptrs, Max(BlocksFor(NodeOf(img0, f).size), BlocksFor(off)), BlockOf(off));
      }
    }
  }
}
