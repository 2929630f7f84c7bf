/** Blocks over time: what each call takes or gives back, when blocks leak, which blocks are
    reachable, and calls that undo each other. */
module Space {
  import opened Layout
  import opened Volume
  import opened Lookup
  import opened Operations
  import opened Creation
  import opened Updates
  import opened Unlinking
  import opened Deletion
  import opened Renaming
  import opened WriteLoop
  import opened Writing
  import opened Calls
  import opened Counting
  import opened History

  // ---------- Reachability ----------

  /** Some path leads to an inode that is block b or refers to it by its table pointer or by a
      live pointer. */
  ghost predicate ReachedBy(img: Image, p: Path, b: nat) {
    Walk(img, p).Some? && IsInode(img, Walk(img, p).value) &&
    var m := Walk(img, p).value;
    var n := NodeOf(img, m);
    b == m || b in Extents(n)
  }

  lemma {:induction false} NodeReached(img: Image, own: Owners, m: nat) returns (p: Path)
    requires WellFormed(img, own) && IsNode(own, m)
    ensures Walk(img, p) == Some(m)
    decreases Depth(own, m)
  {
    assert GoodBlock(img, own, m);
    if own[m].Root? {
      p := [];
    } else {
      var d, k := own[m].dir, own[m].slot;
      var q := NodeReached(img, own, d);
      DirTable(img, own, d);
      ChildBySlot(img, own, d, k);
      p := q + [SlotsOf(img, d)[k].name];
      assert Parent(p) == q && Last(p) == SlotsOf(img, d)[k].name;
    }
  }

  lemma OwnedReached(img: Image, own: Owners, b: nat) returns (p: Path)
    requires WellFormed(img, own) && b in own
    ensures ReachedBy(img, p, b)
  {
    assert GoodBlock(img, own, b);
    var m := match own[b]
      case Table(d) => d
      case Spare(d, _) => d
      case Extent(f, _) => f
      case _ => b;
    assert GoodBlock(img, own, m);
    p := NodeReached(img, own, m);
    if own[b].Extent? {
      ExtentsOwned(img, own, m, b);
    }
  }

  /** The owned blocks are exactly the reachable ones, and each is reached along one path only;
      so the bitmap, which marks every owned block, marks every reachable one. */
  lemma OwnedIffReached(img: Image, own: Owners, b: nat)
    requires WellFormed(img, own)
    ensures b in own <==> exists p :: ReachedBy(img, p, b)
    ensures forall p, q :: ReachedBy(img, p, b) && ReachedBy(img, q, b) ==> p == q
    ensures (exists p :: ReachedBy(img, p, b)) ==> b in img.used
  {
    if b in own {
      var p := OwnedReached(img, own, b);
    }
    forall p | ReachedBy(img, p, b) ensures b in own && Walk(img, p) == Some(NodeFor(own, b)) {
      ReachedOwner(img, own, p, b);
    }
    forall p, q | ReachedBy(img, p, b) && ReachedBy(img, q, b) ensures p == q {
      WalkUnique(img, own, p, q);
    }
  }

  /** The inode a block belongs to. */
  function NodeFor(own: Owners, b: nat): nat
    requires b in own
  {
    match own[b]
    case Table(d) => d
    case Spare(d, _) => d
    case Extent(f, _) => f
    case _ => b
  }

  lemma ReachedOwner(img: Image, own: Owners, p: Path, b: nat)
    requires WellFormed(img, own) && ReachedBy(img, p, b)
    ensures b in own && Walk(img, p) == Some(NodeFor(own, b))
  {
    WalkNode(img, own, p);
    var m := Walk(img, p).value;
    DirTable(img, own, m);
    var n := NodeOf(img, m);
    if b != m && !IsDir(n.attr.mode) {
      ExtentsOwned(img, own, m, b);
    }
  }

  // ---------- Leaks ----------

  /** The four ways a call leaves a block marked that nothing refers to: create or mkdir whose
      parent is full, mkdir on a disk with one free block, an aborted write that had already
      allocated, and rmdir of a directory of more than one block. */
  ghost predicate Leaks(s: Seen, op: Op) {
    var p, fs := op.path, s.tree;
    match op
    case OpCreate(_, _, _, _) => PlaceError(fs, p) == 0 && s.free > 0 && FullDir(fs, Parent(p))
    case OpMkdir(_, _, _, _) => PlaceError(fs, p) == 0 && s.free > 0 && (s.free == 1 || FullDir(fs, Parent(p)))
    case OpRmdir(_, _) => RmdirError(fs, p) == 0 && p in fs && fs[p].Directory? && fs[p].size > BLOCK_SIZE
    case OpWrite(_, buf, off, _) => WriteCode(fs, s.free, p, |buf|, off) == Aborted && s.free > 0
    case _ => false
  }

  lemma LeakedSets(img: Image, img': Image, own: Owners, own': Owners, marked: set<nat>)
    requires img'.used == img.used + marked && marked !! img.used && 0 in img.used && 1 in img.used
    requires own'.Keys == own.Keys || own'.Keys == own.Keys + marked
    requires forall b :: b in own ==> b in img.used
    ensures Leaked(img', own') == Leaked(img, own) <==> (marked == {} || own'.Keys == own.Keys + marked)
    ensures Leaked(img, own) <= Leaked(img', own')
  {
    if marked != {} && own'.Keys == own.Keys {
      var b :| b in marked;
      assert b in Leaked(img', own') && b !in Leaked(img, own);
    }
  }

  lemma AddLeaks(raw: Block -> Page, img: Image, own: Owners, op: Op)
    requires WellFormed(img, own) && (op.OpCreate? || op.OpMkdir?) && |img.blk| == NUM_BLOCKS
    ensures [] in Abs(img)
    ensures var img', own' := Apply(raw, img, op).0, OwnersAfter(raw, img, own, op);
            && (Leaked(img', own') == Leaked(img, own) <==> !Leaks(SeenIn(img), op))
            && Leaked(img, own) <= Leaked(img', own')
  {
    var img', own' := Apply(raw, img, op).0, OwnersAfter(raw, img, own, op);
    OwnedUsed(img, own);
    hide WellFormed, Create, Mkdir, Abs, CreateOwners, MkdirOwners, ParentFull, PlaceError;
    match op
    case OpCreate(p, mode, ctx, junk) =>
      CreateCode(img, own, p, mode, ctx, junk);
      CreateMarks(img, own, p, mode, ctx, junk);
      LeakedSets(img, img', own, own', if PlaceError(Abs(img), p) == 0 && FreeBlocks(img.used) != {}
          then {FirstFree(img.used)} else {});
    case OpMkdir(p, mode, ctx, junk) =>
      MkdirCode(img, own, p, mode, ctx, junk);
      MkdirMarks(img, own, p, mode, ctx, junk);
      var (inum, table) := DirBlocks(img.used);
      LeakedSets(img, img', own, own', if PlaceError(Abs(img), p) < 0 || FreeBlocks(img.used) == {} then {}
                                       else if |FreeBlocks(img.used)| == 1 then {inum} else {inum, table});
  }

  /** Blocks and owners that go, or come, together leave nothing behind. */
  lemma SameLeaks(img: Image, img': Image, own: Owners, own': Owners)
    requires forall b :: b in own ==> b in img.used
    requires 0 !in own && 1 !in own
    requires (own'.Keys <= own.Keys && img'.used == img.used - (own.Keys - own'.Keys))
             || (own.Keys <= own'.Keys && img'.used == img.used + (own'.Keys - own.Keys)
                 && own'.Keys - own.Keys !! img.used)
    ensures Leaked(img', own') == Leaked(img, own)
  {
  }

  /** The blocks a successful write marks are exactly the ones its file then owns. */
  lemma GrownMarks(img: Image, own: Owners, f: nat, img1: Image, ptrs: Pointers, cur: nat)
    requires WellFormed(img, own) && Midway(img, own, f, img1, ptrs, cur)
    ensures var own' := GrownOwners(img, own, f, ptrs, cur);
            own.Keys <= own'.Keys && img1.used == img.used + (own'.Keys - own.Keys) && own'.Keys - own.Keys !! img.used
  {
    GrownExact(img, own, f, img1, ptrs, cur);
    var own' := GrownOwners(img, own, f, ptrs, cur);
    forall b: nat | b in img1.used && b !in img.used ensures b in own' && b !in own {
      var i :| BlocksFor(NodeOf(img, f).size) <= i < cur && ptrs[i] == b;
    }
    forall b | b in own' && b !in own ensures b in img1.used && b !in img.used {
      var i :| BlocksFor(NodeOf(img, f).size) <= i < cur && ptrs[i] == b;
    }
  }

  lemma WriteLeaks(raw: Block -> Page, img: Image, own: Owners, p: Path, buf: seq<Byte>, off: nat, now: nat)
    requires WellFormed(img, own) && |img.blk| == NUM_BLOCKS
    ensures var img', own' := Write(raw, img, p, buf, off, now).0, WriteOwners(raw, img, own, p, buf, off);
            var stuck := WriteCode(Abs(img), |FreeBlocks(img.used)|, p, |buf|, off) == Aborted;
            && (Leaked(img', own') == Leaked(img, own) <==> !(stuck && FreeBlocks(img.used) != {}))
            && Leaked(img, own) <= Leaked(img', own')
  {
    OwnedUsed(img, own);
    AbsWalk(img, own, p);
    WriteAnswers(raw, img, own, p, buf, off, now);
    var img', own' := Write(raw, img, p, buf, off, now).0, WriteOwners(raw, img, own, p, buf, off);
    if p in Abs(img) && Abs(img)[p].File? && off <= |Abs(img)[p].data| && off + |buf| <= MAX_FILE {
      var f := Walk(img, p).value;
      var n := NodeOf(img, f);
      if NewBlocks(n.size, off + |buf|) <= |FreeBlocks(img.used)| {
        WriteFile(raw, img, own, f, buf, off, now);
        WriteGrows(raw, img, own, f, buf, off);
        SameLeaks(img, img', own, own');
      } else {
        WriteNoOwners(raw, img, own, p, buf, off, now);
        StuckFile(raw, img, own, f, buf, off);
        StuckLeaks(raw, img, own, f, buf, off);
      }
    } else {
      WriteNoOwners(raw, img, own, p, buf, off, now);
    }
  }

  lemma WriteGrows(raw: Block -> Page, img: Image, own: Owners, f: nat, buf: seq<Byte>, off: nat)
    requires WellFormed(img, own) && IsNode(own, f) && IsInode(img, f) && !IsDir(NodeOf(img, f).attr.mode)
    requires |img.blk| == NUM_BLOCKS && off <= NodeOf(img, f).size && off + |buf| <= MAX_FILE
    requires NewBlocks(NodeOf(img, f).size, off + |buf|) <= |FreeBlocks(img.used)|
    ensures var n := NodeOf(img, f);
            var w := Run(raw, img, n.ptrs, Live(img, f), buf, off);
            var own' := GrownOwners(img, own, f, w.ptrs, BlocksFor(Max(n.size, off + |buf|)));
            own.Keys <= own'.Keys && w.img.used == img.used + (own'.Keys - own.Keys) && own'.Keys - own.Keys !! img.used
  {
    hide WellFormed, Midway, Running, Run, GrownOwners, FreeBlocks;
    var n := NodeOf(img, f);
    var w := Run(raw, img, n.ptrs, Live(img, f), buf, off);
    StartRunning(img, own, f, off, |buf|);
    BlockRange(0, Max(n.size, off + |buf|) + 1, n.size, off, |buf| + 1);
    RunSpace(raw, img, own, f, img, n.ptrs, buf, off);
    assert BlocksFor(off) <= Live(img, f);
    var cur := RunKeeps(raw, img, own, f, img, n.ptrs, buf, off);
    GrownMarks(img, own, f, w.img, w.ptrs, cur);
  }

  lemma StuckLeaks(raw: Block -> Page, img: Image, own: Owners, f: nat, buf: seq<Byte>, off: nat)
    requires WellFormed(img, own) && IsNode(own, f) && IsInode(img, f) && !IsDir(NodeOf(img, f).attr.mode)
    requires |img.blk| == NUM_BLOCKS && off <= NodeOf(img, f).size && off + |buf| <= MAX_FILE
    requires FreeBlocks(Run(raw, img, NodeOf(img, f).ptrs, Live(img, f), buf, off).img.used) == {}
    ensures var w := Run(raw, img, NodeOf(img, f).ptrs, Live(img, f), buf, off);
            && (Leaked(w.img, own) == Leaked(img, own) <==> FreeBlocks(img.used) == {})
            && Leaked(img, own) <= Leaked(w.img, own)
  {
    StartRunning(img, own, f, off, |buf|);
    var w := Run(raw, img, NodeOf(img, f).ptrs, Live(img, f), buf, off);
    var cur := RunKeeps(raw, img, own, f, img, NodeOf(img, f).ptrs, buf, off);
    StuckMarks(img, own, f, w.img, w.ptrs, cur);
  }

  lemma StuckMarks(img: Image, own: Owners, f: nat, img1: Image, ptrs: Pointers, cur: nat)
    requires WellFormed(img, own) && Midway(img, own, f, img1, ptrs, cur) && FreeBlocks(img1.used) == {}
    ensures Leaked(img1, own) == Leaked(img, own) <==> FreeBlocks(img.used) == {}
    ensures Leaked(img, own) <= Leaked(img1, own)
  {
    OwnedUsed(img, own);
    forall b: nat | b in img1.used && b !in img.used ensures b in FreeBlocks(img.used) {
      var i :| BlocksFor(NodeOf(img, f).size) <= i < cur && ptrs[i] == b;
    }
    if FreeBlocks(img.used) != {} {
      var b :| b in FreeBlocks(img.used);
      assert b !in FreeBlocks(img1.used);
      assert b in Leaked(img1, own) && b !in Leaked(img, own);
    } else {
      assert img1.used == img.used;
    }
  }

  lemma DroppedExtents(img: Image, own: Owners, f: nat)
    requires WellFormed(img, own) && IsNode(own, f) && IsInode(img, f) && !IsDir(NodeOf(img, f).attr.mode)
    ensures Extents(NodeOf(img, f)) == own.Keys - DropExtents(own, f).Keys
  {
    forall b: nat ensures b in Extents(NodeOf(img, f)) <==> b in own && b !in DropExtents(own, f) {
      ExtentsOwned(img, own, f, b);
    }
  }

  /** A removed directory's blocks beyond the first stay marked. */
  lemma RmdirLeaks(img: Image, own: Owners, p: Path, now: nat)
    requires WellFormed(img, own) && p != [] && RmdirError(Abs(img), p) == 0
    ensures p in Abs(img) && Abs(img)[p].Directory? && Walk(img, p).Some?
    ensures var img', own' := Rmdir(img, p, now).0, Drop(own, Walk(img, p).value);
            && (Leaked(img', own') == Leaked(img, own) <==> Abs(img)[p].size <= BLOCK_SIZE)
            && Leaked(img, own) <= Leaked(img', own')
  {
    hide WellFormed, Rmdir, Abs, Extents, Drop;
    AbsWalk(img, own, p);
    RmdirSign(Abs(img), p);
    RmdirWorks(img, own, p, now);
    OwnedUsed(img, own);
    var x := Walk(img, p).value;
    FreedDir(img, own, x);
    DropLess(own, x);
    KeptSpares(img, Rmdir(img, p, now).0, own, Drop(own, x), Extents(NodeOf(img, x)), TableOf(img, x), x);
  }

  lemma DropLess(own: Owners, x: nat)
    ensures Drop(own, x).Keys <= own.Keys
  {
  }

  lemma KeptSpares(img: Image, img': Image, own: Owners, own': Owners, extents: set<nat>, table: nat, x: nat)
    requires own'.Keys <= own.Keys && extents + {x} == own.Keys - own'.Keys && table in extents && x !in extents
    requires (forall b :: b in own ==> b in img.used) && 0 !in own && 1 !in own
    requires img'.used == img.used - {table, x}
    ensures Leaked(img', own') == Leaked(img, own) <==> extents == {table}
    ensures Leaked(img, own) <= Leaked(img', own')
  {
    if extents != {table} {
      var b :| b in extents && b != table;
      assert b in Leaked(img', own') && b !in Leaked(img, own);
    }
  }

  /** A call leaves the leaked blocks as they were exactly when it is none of the leaking cases;
      leaked blocks never come back by themselves. */
  lemma StepLeaks(raw: Block -> Page, img: Image, own: Owners, op: Op)
    requires WellFormed(img, own) && Legal(op) && |img.blk| == NUM_BLOCKS
    ensures [] in Abs(img)
    ensures var img', own' := Apply(raw, img, op).0, OwnersAfter(raw, img, own, op);
            && (Leaked(img', own') == Leaked(img, own) <==> !Leaks(SeenIn(img), op))
            && Leaked(img, own) <= Leaked(img', own')
  {
    hide WellFormed, Create, Mkdir, Unlink, Rmdir, Rename, Chmod, Utime, Truncate, Write, Abs, WriteOwners;
    RootExists(img, own);
    OwnedUsed(img, own);
    AbsWalk(img, own, op.path);
    var img', own' := Apply(raw, img, op).0, OwnersAfter(raw, img, own, op);
    match op
    case OpCreate(_, _, _, _) => AddLeaks(raw, img, own, op);
    case OpMkdir(_, _, _, _) => AddLeaks(raw, img, own, op);
    case OpUnlink(p, now) =>
      UnlinkWorks(img, own, p, now);
      SameLeaks(img, img', own, own');
    case OpRmdir(p, now) =>
      RmdirCode(img, own, p, now);
      if RmdirError(Abs(img), p) == 0 {
        RmdirLeaks(img, own, p, now);
      }
    case OpRename(src, dst) =>
      GoodLast(dst);
      RenameWorks(img, own, src, dst);
    case OpChmod(p, mode) => ChmodWorks(img, own, p, mode);
    case OpUtime(p, mtime) => UtimeWorks(img, own, p, mtime);
    case OpTruncate(p, len) =>
      TruncateWorks(img, own, p, len);
      if len == 0 && p in Abs(img) && Abs(img)[p].File? {
        DroppedExtents(img, own, Walk(img, p).value);
      }
      SameLeaks(img, img', own, own');
    case OpWrite(p, buf, off, now) => WriteLeaks(raw, img, own, p, buf, off, now);
  }

  /** No call of the run is one of the leaking cases in the state it meets. */
  ghost predicate NeverLeaks(s: Seen, ops: seq<Op>)
    decreases |ops|
  {
    ops == [] || (!Leaks(s, ops[0]) && NeverLeaks(AbstractStep(s, ops[0]).0, ops[1..]))
  }

  /** A run leaves the leaked blocks as they were exactly when none of its calls hits a leaking
      case; what the leaking cases are follows from the abstract state. */
  lemma {:induction false} HistoryLeaks(raw: Block -> Page, img: Image, own: Owners, ops: seq<Op>)
    requires WellFormed(img, own) && |img.blk| == NUM_BLOCKS
    requires forall i :: 0 <= i < |ops| ==> Legal(ops[i])
    ensures var img', own' := Play(raw, img, ops).0, OwnersAll(raw, img, own, ops);
            && (Leaked(img', own') == Leaked(img, own) <==> NeverLeaks(SeenIn(img), ops))
            && Leaked(img, own) <= Leaked(img', own')
    decreases |ops|
  {
    hide WellFormed, Apply, OwnersAfter, AbstractStep, SeenIn, StepWalks, Legal, Leaks, Leaked;
    if ops != [] {
      var img1 := Apply(raw, img, ops[0]).0;
      StepRefines(raw, img, own, ops[0]);
      StepLeaks(raw, img, own, ops[0]);
      SizeOf(img1, OwnersAfter(raw, img, own, ops[0]));
      HistoryLeaks(raw, img1, OwnersAfter(raw, img, own, ops[0]), ops[1..]);
    }
  }

  /** Without leaks the bitmap marks the superblock, itself and the owned blocks, and no others. */
  lemma NoLeakMarks(img: Image, own: Owners)
    requires WellFormed(img, own)
    ensures Leaked(img, own) == {} <==> img.used == own.Keys + {0, 1}
  {
    OwnedUsed(img, own);
    if Leaked(img, own) == {} {
      forall b: nat ensures b in img.used <==> b in own.Keys + {0, 1} {
        assert b in img.used && b !in own.Keys + {0, 1} ==> b in Leaked(img, own);
      }
    }
  }
}
