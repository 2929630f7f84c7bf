/** Concrete well-formed disks on which the code does not do what its comments promise: each
    failing case that the exact conditions describe does occur. */
module Departures {
  import opened Layout
  import opened Volume
  import opened Lookup
  import opened Operations
  import opened Creation
  import opened LookupErrors
  import opened Deletion
  import opened Renaming
  import opened Writing
  import opened Queries
  import opened Calls
  import opened History
  import opened Space

  const TABLE: nat := 399            // the root's table block
  const FIRST_FILE: nat := 400       // inode number of the first file

  function Zeros(): Page {
    seq(BLOCK_SIZE, _ => 0)
  }

  function InodeBlock(mode: bv32, size: nat, p0: nat, p1: nat): Block {
    INode(Inode(Attr(0, 0, mode, 0, 0), size, seq(NUM_PTRS, i => if i == 0 then p0 else if i == 1 then p1 else 0)))
  }

  /** Two letters, different for each of the 128 files. */
  function Label(k: nat): Name
    requires k < NUM_DIRENTS
  {
    [(97 + k / 16) as char, (97 + k % 16) as char]
  }

  lemma Labels(j: nat, k: nat)
    requires j < NUM_DIRENTS && k < NUM_DIRENTS
    ensures GoodName(Label(k))
    ensures Label(j) == Label(k) ==> j == k
  {
    if Label(j) == Label(k) {
      assert Label(j)[0] == Label(k)[0] && Label(j)[1] == Label(k)[1];
    }
  }

  // ---------- A root directory with n empty files ----------

  function FlatSlots(n: nat): Slots
    requires n <= NUM_DIRENTS
  {
    seq(NUM_DIRENTS, k requires 0 <= k < NUM_DIRENTS => if k < n then Dirent(true, FIRST_FILE + k, Label(k))
        else Dirent(false, 0, ""))
  }

  function FlatBlock(n: nat, b: nat): Block
    requires n <= NUM_DIRENTS
  {
    if b == ROOT then InodeBlock(0x41FF, BLOCK_SIZE, TABLE, 0)
    else if b == TABLE then Dir(FlatSlots(n))
    else if FIRST_FILE <= b < FIRST_FILE + n then InodeBlock(0x81FF, 0, 0, 0)
    else Data(Zeros())
  }

  function Flat(n: nat, used: set<nat>): Image
    requires n <= NUM_DIRENTS
  {
    Image(used, seq(NUM_BLOCKS, b requires 0 <= b < NUM_BLOCKS => FlatBlock(n, b)))
  }

  predicate InFlat(n: nat, b: nat) {
    b == ROOT || b == TABLE || FIRST_FILE <= b < FIRST_FILE + n
  }

  function FlatOwners(n: nat): Owners {
    map b: nat | b < NUM_BLOCKS && InFlat(n, b) ::
      if b == ROOT then Root else if b == TABLE then Table(ROOT) else Entry(ROOT, b - FIRST_FILE, 1)
  }

  /** The blocks a flat disk needs marked. */
  function Needed(n: nat): set<nat> {
    {0, 1} + FlatOwners(n).Keys
  }

  predicate OnDisk(b: nat) { b < NUM_BLOCKS }

  function AllBlocks(): set<nat> {
    set b: nat | b < NUM_BLOCKS && OnDisk(b)
  }

  lemma FlatGood(n: nat, used: set<nat>)
    requires n <= NUM_DIRENTS && Needed(n) <= used <= AllBlocks()
    ensures WellFormed(Flat(n, used), FlatOwners(n))
  {
    var img, own := Flat(n, used), FlatOwners(n);
    assert HasDir(img, ROOT) && SlotsOf(img, ROOT) == FlatSlots(n);
    forall j, k | 0 <= j < k < n ensures GoodName(Label(j)) && GoodName(Label(k)) && Label(j) != Label(k) {
      Labels(j, k);
      Labels(k, j);
    }
    forall k | 0 <= k < n ensures GoodName(Label(k)) {
      Labels(k, k);
    }
    forall b | b in own ensures GoodBlock(img, own, b) {
      if b == TABLE {
        assert GoodSlots(own, ROOT, FlatSlots(n));
      }
    }
  }

  /** What a name directly below the root stands for. */
  lemma TopLevel(img: Image, own: Owners, name: Name)
    requires WellFormed(img, own)
    ensures [] in Abs(img) && Abs(img)[[]].Directory?
    ensures [name] in Abs(img) <==> Child(img, ROOT, name).Some?
    ensures [name] in Abs(img) ==>
              var m := Child(img, ROOT, name).value; IsInode(img, m) && Abs(img)[[name]] == ViewOf(img, NodeOf(img, m))
  {
    RootExists(img, own);
    assert Parent([name]) == [] && Last([name]) == name;
    AbsWalk(img, own, [name]);
  }

  lemma FlatFind(n: nat, z: Name)
    requires n <= NUM_DIRENTS && |z| == 1
    ensures FindName(FlatSlots(n), z) == NUM_DIRENTS
    ensures n > 0 ==> FindName(FlatSlots(n), Label(0)) == 0
  {
    forall k | 0 <= k < NUM_DIRENTS ensures !Named(FlatSlots(n)[k], z) {
      assert k < n ==> |Label(k)| == 2;
    }
    assert n > 0 ==> Named(FlatSlots(n)[0], Label(0));
  }

  lemma FlatRoot(n: nat, used: set<nat>)
    requires n <= NUM_DIRENTS
    ensures HasDir(Flat(n, used), ROOT) && SlotsOf(Flat(n, used), ROOT) == FlatSlots(n)
    ensures n > 0 ==> FlatSlots(n)[0] == Dirent(true, FIRST_FILE, Label(0)) && IsInode(Flat(n, used), FIRST_FILE)
    ensures n > 0 ==> var f := NodeOf(Flat(n, used), FIRST_FILE); !IsDir(f.attr.mode) && f.size == 0
  {
  }

  /** The files are there and empty, a one-letter name is not. */
  lemma FlatTree(n: nat, used: set<nat>, z: Name)
    requires n <= NUM_DIRENTS && Needed(n) <= used <= AllBlocks() && |z| == 1
    ensures var fs := Abs(Flat(n, used));
            && [] in fs && fs[[]].Directory? && [z] !in fs && PlaceError(fs, [z]) == 0
            && (n > 0 ==> [Label(0)] in fs && fs[[Label(0)]].File? && fs[[Label(0)]].data == [])
  {
    hide WellFormed, Flat, FlatOwners, FlatSlots, Abs, Needed, AllBlocks, Label;
    var img, own := Flat(n, used), FlatOwners(n);
    FlatGood(n, used);
    FlatRoot(n, used);
    FlatFind(n, z);
    TopLevel(img, own, z);
    if n > 0 {
      TopLevel(img, own, Label(0));
    }
    assert Parent([z]) == [] && Last([z]) == z;
  }

  // ---------- No block left ----------

  lemma NoneFree()
    ensures |FreeBlocks(AllBlocks())| == 0
  {
    forall b: nat ensures b !in FreeBlocks(AllBlocks()) {
      assert b < NUM_BLOCKS ==> OnDisk(b);
    }
    assert FreeBlocks(AllBlocks()) == {};
  }

  lemma OneFree()
    ensures FreeBlocks(AllBlocks() - {FIRST_DATA}) == {FIRST_DATA}
  {
    forall b: nat ensures b in FreeBlocks(AllBlocks() - {FIRST_DATA}) <==> b == FIRST_DATA {
      assert b < NUM_BLOCKS ==> OnDisk(b);
    }
  }

  lemma NeededOnDisk(n: nat)
    requires n <= NUM_DIRENTS
    ensures Needed(n) <= AllBlocks() && FIRST_DATA !in Needed(n)
  {
    forall b | b in Needed(n) ensures b in AllBlocks() && b != FIRST_DATA {
      assert OnDisk(b);
    }
  }

  lemma FlatShape(n: nat, used: set<nat>)
    requires n <= NUM_DIRENTS
    ensures |Flat(n, used).blk| == NUM_BLOCKS && Flat(n, used).used == used && ROOT in Needed(n)
  {
  }

  /** A full disk with one empty file. */
  ghost function Full(): Image {
    Flat(1, AllBlocks())
  }

  lemma FullGood()
    ensures WellFormed(Full(), FlatOwners(1)) && |Full().blk| == NUM_BLOCKS && |FreeBlocks(Full().used)| == 0
            && ROOT in Full().used
    ensures var fs := Abs(Full());
            && [Label(0)] in fs && fs[[Label(0)]].File? && fs[[Label(0)]].data == []
            && [] in fs && PlaceError(fs, ["z"]) == 0
  {
    hide WellFormed, Flat, Abs, Label, FlatOwners, Needed, AllBlocks, PlaceError;
    NeededOnDisk(1);
    FlatGood(1, AllBlocks());
    FlatTree(1, AllBlocks(), "z");
    FlatShape(1, AllBlocks());
    NoneFree();
  }

  /** On a full disk create and mkdir stop the process where ENOSPC is promised. */
  lemma FullDiskAdd(mode: bv32, ctx: Caller, junk: Pointers)
    ensures |Full().blk| == NUM_BLOCKS
    ensures Create(Full(), ["z"], mode, ctx, junk).1 == Aborted
    ensures Mkdir(Full(), ["z"], mode, ctx, junk).1 == Aborted
  {
    hide WellFormed, Full, Abs, FlatOwners, PlaceError, FreeBlocks, Create, Mkdir, Label;
    FullGood();
    CreateCode(Full(), FlatOwners(1), ["z"], mode, ctx, junk);
    MkdirCode(Full(), FlatOwners(1), ["z"], mode, ctx, junk);
  }

  /** So does a write that needs a block. */
  lemma FullDiskWrite(raw: Block -> Page, now: nat)
    ensures |Full().blk| == NUM_BLOCKS
    ensures Write(raw, Full(), [Label(0)], [1], 0, now).1 == Aborted
  {
    hide WellFormed, Full, Abs, FlatOwners, PlaceError, FreeBlocks, Write, Label;
    FullGood();
    WriteAnswers(raw, Full(), FlatOwners(1), [Label(0)], [1], 0, now);
  }

  /** With more blocks marked than a disk of 400 blocks has, statfs reports more free blocks than
      it has. */
  lemma FullDiskStatfs()
    ensures Statfs(Full(), 400).1 > 398
  {
    hide WellFormed, Full, Abs, FlatOwners, PlaceError, FreeBlocks, InUse, Label;
    FullGood();
    UsedOrFree(Full());
  }

  /** A write past the end of a file answers 0 and changes nothing, where EINVAL is promised. */
  lemma WritePastEnd(raw: Block -> Page, now: nat)
    ensures |Full().blk| == NUM_BLOCKS
    ensures Write(raw, Full(), [Label(0)], [1], 1, now) == (Full(), Ret(0))
  {
    hide WellFormed, Full, Abs, FlatOwners, PlaceError, FreeBlocks, Write, Label;
    FullGood();
    WriteAnswers(raw, Full(), FlatOwners(1), [Label(0)], [1], 1, now);
  }

  // ---------- One block left ----------

  /** A disk with one empty file and only block 3 free. */
  ghost function Tight(): Image {
    Flat(1, AllBlocks() - {FIRST_DATA})
  }

  lemma TightGood()
    ensures WellFormed(Tight(), FlatOwners(1)) && |Tight().blk| == NUM_BLOCKS && |FreeBlocks(Tight().used)| == 1
    ensures var fs := Abs(Tight());
            && [Label(0)] in fs && fs[[Label(0)]].File? && fs[[Label(0)]].data == []
            && [] in fs && PlaceError(fs, ["z"]) == 0
  {
    hide WellFormed, Flat, Abs, Label, FlatOwners, Needed, AllBlocks, PlaceError;
    NeededOnDisk(1);
    OneFree();
    FlatGood(1, AllBlocks() - {FIRST_DATA});
    FlatTree(1, AllBlocks() - {FIRST_DATA}, "z");
    FlatShape(1, AllBlocks() - {FIRST_DATA});
  }

  /** An operation that hits a leaking case leaves more leaked blocks than before. */
  lemma LeakGrows(raw: Block -> Page, img: Image, own: Owners, op: Op)
    requires WellFormed(img, own) && Legal(op) && |img.blk| == NUM_BLOCKS && Leaks(SeenIn(img), op)
    ensures var img', own' := Apply(raw, img, op).0, OwnersAfter(raw, img, own, op);
            WellFormed(img', own') && Leaked(img, own) < Leaked(img', own')
    ensures Apply(raw, img, op).1 == Answer(SeenIn(img), op)
  {
    hide WellFormed, Leaks, Leaked, SeenIn, StepWalks, Answer, Effect, Legal, OwnersAfter, Apply;
    StepLeaks(raw, img, own, op);
    TreeRefines(raw, img, own, op);
  }

  /** mkdir with one free block stops the process with that block marked and unused. */
  lemma TightMkdir(raw: Block -> Page, mode: bv32, ctx: Caller, junk: Pointers)
    ensures WellFormed(Tight(), FlatOwners(1)) && |Tight().blk| == NUM_BLOCKS
    ensures var op := OpMkdir(["z"], mode, ctx, junk);
            var (img', r) := Apply(raw, Tight(), op);
            var own' := OwnersAfter(raw, Tight(), FlatOwners(1), op);
            r == Aborted && WellFormed(img', own') && Leaked(Tight(), FlatOwners(1)) < Leaked(img', own')
  {
    hide WellFormed, Tight, Abs, FlatOwners, PlaceError, FreeBlocks, Leaked, Apply, OwnersAfter, FullDir, Label;
    TightGood();
    LeakGrows(raw, Tight(), FlatOwners(1), OpMkdir(["z"], mode, ctx, junk));
  }

  /** A write of two blocks with one free stops the process with that block marked and unused. */
  lemma TightWrite(raw: Block -> Page, buf: seq<Byte>, now: nat)
    requires |buf| == 2 * BLOCK_SIZE
    ensures WellFormed(Tight(), FlatOwners(1)) && |Tight().blk| == NUM_BLOCKS
    ensures var op := OpWrite([Label(0)], buf, 0, now);
            var (img', r) := Apply(raw, Tight(), op);
            var own' := OwnersAfter(raw, Tight(), FlatOwners(1), op);
            r == Aborted && WellFormed(img', own') && Leaked(Tight(), FlatOwners(1)) < Leaked(img', own')
  {
    hide WellFormed, Tight, Abs, FlatOwners, PlaceError, FreeBlocks, Leaked, Apply, OwnersAfter;
    TightGood();
    Labels(0, 0);
    LeakGrows(raw, Tight(), FlatOwners(1), OpWrite([Label(0)], buf, 0, now));
  }

  // ---------- A full parent ----------

  /** A disk with 128 empty files and nothing else marked. */
  ghost function Crowded(): Image {
    Flat(NUM_DIRENTS, Needed(NUM_DIRENTS))
  }

  lemma CrowdedFull()
    ensures ParentFull(Crowded(), ["z"])
  {
    var img := Crowded();
    assert HasDir(img, ROOT) && SlotsOf(img, ROOT) == FlatSlots(NUM_DIRENTS);
    assert Parent(["z"]) == [] && Walk(img, []) == Some(ROOT);
  }

  lemma CrowdedGood()
    ensures WellFormed(Crowded(), FlatOwners(NUM_DIRENTS)) && |Crowded().blk| == NUM_BLOCKS
    ensures |FreeBlocks(Crowded().used)| > 0
    ensures PlaceError(Abs(Crowded()), ["z"]) == 0 && FullDir(Abs(Crowded()), Parent(["z"]))
  {
    hide WellFormed, Abs, PlaceError, FullDir, Flat, Needed, ParentFull;
    NeededOnDisk(NUM_DIRENTS);
    FlatGood(NUM_DIRENTS, Needed(NUM_DIRENTS));
    FlatTree(NUM_DIRENTS, Needed(NUM_DIRENTS), "z");
    FlatShape(NUM_DIRENTS, Needed(NUM_DIRENTS));
    assert FIRST_DATA in FreeBlocks(Crowded().used);
    CrowdedFull();
    FullExact(Crowded(), FlatOwners(NUM_DIRENTS), ["z"]);
  }

  /** create in a full directory answers -EINVAL and leaves a block marked and unused. */
  lemma CrowdedCreate(raw: Block -> Page, mode: bv32, ctx: Caller, junk: Pointers)
    ensures WellFormed(Crowded(), FlatOwners(NUM_DIRENTS)) && |Crowded().blk| == NUM_BLOCKS
    ensures var op := OpCreate(["z"], mode, ctx, junk);
            var (img', r) := Apply(raw, Crowded(), op);
            var own' := OwnersAfter(raw, Crowded(), FlatOwners(NUM_DIRENTS), op);
            && r == Ret(-EINVAL) && WellFormed(img', own')
            && Leaked(Crowded(), FlatOwners(NUM_DIRENTS)) < Leaked(img', own')
  {
    hide WellFormed, Crowded, Abs, FlatOwners, PlaceError, FreeBlocks, Leaked, Apply, OwnersAfter, FullDir;
    CrowdedGood();
    LeakGrows(raw, Crowded(), FlatOwners(NUM_DIRENTS), OpCreate(["z"], mode, ctx, junk));
  }

  // ---------- Removing the root, and a name that does not fit ----------

  /** rmdir of an empty root answers 0 and leaves no well-formed disk. */
  lemma EmptyRoot(now: nat)
    ensures WellFormed(Flat(0, Needed(0)), FlatOwners(0))
    ensures var (img', r) := Rmdir(Flat(0, Needed(0)), [], now);
            r == Ret(0) && !exists own' :: WellFormed(img', own')
  {
    NeededOnDisk(0);
    FlatGood(0, Needed(0));
    var img, own := Flat(0, Needed(0)), FlatOwners(0);
    assert HasDir(img, ROOT) && SlotsOf(img, ROOT) == FlatSlots(0) && EmptyTable(FlatSlots(0));
    assert Walk(img, []) == Some(ROOT);
    hide WellFormed, Abs, Rmdir, Flat;
    EmptyExact(img, own, []);
    RootExists(img, own);
    RmdirCode(img, own, [], now);
    RmdirKeepsIff(img, own, [], now);
  }

  /** A name one character too long. */
  function TooLong(): Name {
    seq(NAME_MAX + 1, _ => 'x')
  }

  lemma NotStored(img: Image, own: Owners)
    requires WellFormed(img, own)
    ensures Walk(img, [TooLong()]) == None
  {
    var p := [TooLong()];
    assert !GoodName(p[0]);
    if Walk(img, p).Some? {
      WalkNames(img, own, p);
    }
  }

  /** rename to a name of 28 characters answers 0 and leaves no well-formed disk. */
  lemma LongRename()
    ensures WellFormed(Tight(), FlatOwners(1))
    ensures var (img', r) := Rename(Tight(), [Label(0)], [TooLong()]);
            r == Ret(0) && !exists own' :: WellFormed(img', own')
  {
    hide WellFormed, Tight, Abs, FlatOwners, PlaceError, FreeBlocks, Rename, Label;
    TightGood();
    var img, own := Tight(), FlatOwners(1);
    var src, dst := [Label(0)], [TooLong()];
    NotStored(img, own);
    AbsWalk(img, own, dst);
    assert Parent(src) == [] && Parent(dst) == [] && Last(dst) == TooLong();
    PathExact(img, own, src);
    var par, k := RenameRelabels(img, own, src, dst);
    RenameKeepsIff(img, own, src, dst);
  }

  // ---------- A directory of two blocks ----------

  function WideSlots(): Slots {
    seq(NUM_DIRENTS, k => if k == 0 then Dirent(true, FIRST_FILE, "d") else Dirent(false, 0, ""))
  }

  function WideBlock(b: nat): Block {
    if b == ROOT then InodeBlock(0x41FF, BLOCK_SIZE, TABLE, 0)
    else if b == TABLE then Dir(WideSlots())
    else if b == FIRST_FILE then InodeBlock(0x41FF, 2 * BLOCK_SIZE, 500, 501)
    else if b == 500 || b == 501 then Dir(NoSlots())
    else Data(Zeros())
  }

  /** A disk whose root holds one empty directory of two blocks. */
  function Wide(): Image {
    Image({0, 1, ROOT, TABLE, FIRST_FILE, 500, 501}, seq(NUM_BLOCKS, b requires 0 <= b < NUM_BLOCKS => WideBlock(b)))
  }

  function WideOwners(): Owners {
    map[ROOT := Root, TABLE := Table(ROOT), FIRST_FILE := Entry(ROOT, 0, 1), 500 := Table(FIRST_FILE),
        501 := Spare(FIRST_FILE, 1)]
  }

  lemma WideDirs()
    ensures HasDir(Wide(), ROOT) && SlotsOf(Wide(), ROOT) == WideSlots() && NodeOf(Wide(), ROOT).size == BLOCK_SIZE
    ensures HasDir(Wide(), FIRST_FILE) && SlotsOf(Wide(), FIRST_FILE) == NoSlots()
    ensures NodeOf(Wide(), FIRST_FILE).size == 2 * BLOCK_SIZE && NodeOf(Wide(), FIRST_FILE).ptrs[1] == 501
    ensures TableOf(Wide(), ROOT) == TABLE && TableOf(Wide(), FIRST_FILE) == 500
    ensures Wide().blk[500] == Dir(NoSlots()) && Wide().blk[501] == Dir(NoSlots())
  {
  }

  lemma WideGoodBlock(b: nat)
    requires b in WideOwners()
    ensures GoodBlock(Wide(), WideOwners(), b)
  {
    WideDirs();
    hide Wide, NoSlots;
    assert b == ROOT || b == TABLE || b == FIRST_FILE || b == 500 || b == 501;
  }

  lemma WideGood()
    ensures WellFormed(Wide(), WideOwners())
  {
    hide GoodBlock, WideBlock, WideSlots, NoSlots;
    forall b | b in WideOwners() ensures GoodBlock(Wide(), WideOwners(), b) {
      WideGoodBlock(b);
    }
  }

  lemma WideWalk()
    ensures Walk(Wide(), ["d"]) == Some(FIRST_FILE)
  {
    WideDirs();
    hide Wide;
    assert Named(WideSlots()[0], "d") && FindName(WideSlots(), "d") == 0;
    assert Parent(["d"]) == [] && Last(["d"]) == "d" && Walk(Wide(), []) == Some(ROOT);
  }

  lemma WideTree()
    ensures WellFormed(Wide(), WideOwners())
    ensures var fs := Abs(Wide());
            && [] in fs && fs[[]].Directory? && ["d"] in fs && fs[["d"]].Directory? && fs[["d"]].size == 2 * BLOCK_SIZE
            && !HasChildren(fs, ["d"])
  {
    hide WellFormed, Abs, Wide, WideOwners, Walk;
    WideGood();
    WideDirs();
    WideWalk();
    RootExists(Wide(), WideOwners());
    AbsWalk(Wide(), WideOwners(), ["d"]);
    EmptyExact(Wide(), WideOwners(), ["d"]);
  }

  /** rmdir of a directory of two blocks leaves the second one marked and unused. */
  lemma WideRmdir(raw: Block -> Page, now: nat)
    ensures WellFormed(Wide(), WideOwners()) && |Wide().blk| == NUM_BLOCKS
    ensures var op := OpRmdir(["d"], now);
            var (img', r) := Apply(raw, Wide(), op);
            var own' := OwnersAfter(raw, Wide(), WideOwners(), op);
            r == Ret(0) && WellFormed(img', own') && Leaked(Wide(), WideOwners()) < Leaked(img', own')
  {
    hide WellFormed, Abs, WideOwners, HasChildren, FreeBlocks, Leaked, Apply, OwnersAfter;
    WideTree();
    assert Parent(["d"]) == [];
    LeakGrows(raw, Wide(), WideOwners(), OpRmdir(["d"], now));
  }

  /** A missing name in an existing directory gives ENOTDIR instead of ENOENT, and EINVAL when it is
      the source of a rename. */
  lemma MissingBelow()
    ensures HasDir(Wide(), Walk(Wide(), []).value)
    ensures Walk(Wide(), ["d"]).Some? && HasDir(Wide(), Walk(Wide(), ["d"]).value) && Walk(Wide(), ["d", "x"]).None?
    ensures Resolve(Wide(), ["d", "x"]) == -ENOTDIR
    ensures Rename(Wide(), ["d", "x"], ["d", "y"]).1 == Ret(-EINVAL)
  {
    hide WellFormed, Abs, Wide, WideOwners, Walk, Resolve, Rename;
    WideTree();
    var p := ["d", "x"];
    assert p == ["d"] + ["x"] && p[..1] == ["d"] && p[..2] == p;
    RootExists(Wide(), WideOwners());
    AbsWalk(Wide(), WideOwners(), []);
    AbsWalk(Wide(), WideOwners(), ["d"]);
    AbsWalk(Wide(), WideOwners(), p);
    LookupErrorExact(Wide(), WideOwners(), p, 1);
    RefusedRename(Wide(), p, ["d", "y"]);
  }

  lemma RefusedRename(img: Image, src: Path, dst: Path)
    requires Resolve(img, src) == -ENOTDIR
    ensures Rename(img, src, dst).1 == Ret(-EINVAL)
  {
  }

  /** So does an over-long name on the way. */
  lemma LongOnTheWay()
    ensures Walk(Wide(), []).Some? && HasDir(Wide(), Walk(Wide(), []).value) && Walk(Wide(), [TooLong()]).None?
    ensures Resolve(Wide(), [TooLong(), "x"]) == -ENOTDIR
  {
    hide WellFormed, Abs, Wide, WideOwners, Walk, Resolve;
    WideGood();
    var p := [TooLong(), "x"];
    RootExists(Wide(), WideOwners());
    AbsWalk(Wide(), WideOwners(), []);
    NotStored(Wide(), WideOwners());
    assert p[..0] == [] && p[..1] == [TooLong()];
    LookupErrorExact(Wide(), WideOwners(), p, 0);
  }
}
