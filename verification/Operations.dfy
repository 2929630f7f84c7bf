/** The file-system calls as functions on images, branch for branch as in fs5600.c. */
module Operations {
  import opened Layout
  import opened Volume
  import opened Lookup

  /** The uid, gid and clock reading a call sees. */
  datatype Caller = Caller(uid: nat, gid: nat, now: nat)

  // ---------- Blocks ----------

  /** The data blocks whose bitmap bit is clear. */
  function FreeBlocks(used: set<nat>): set<nat> {
    set b: nat | FIRST_DATA <= b < NUM_BLOCKS && b !in used
  }

  ghost predicate IsLeast(m: nat, s: set<nat>) {
    m in s && forall x :: x in s ==> m <= x
  }

  lemma LeastExists(s: set<nat>)
    requires s != {}
    ensures exists m :: IsLeast(m, s)
  {
    var y :| y in s;
    if s == {y} {
      assert IsLeast(y, s);
    } else {
      LeastExists(s - {y});
      var m :| IsLeast(m, s - {y});
      forall x | x in s ensures (if y < m then y else m) <= x {
        assert x != y ==> x in s - {y};
      }
      assert y < m ==> IsLeast(y, s);
      assert m <= y ==> IsLeast(m, s);
    }
  }

  /** The block alloc_blk picks: the least free one, or NUM_BLOCKS when there is none. */
  ghost function FirstFree(used: set<nat>): (r: nat)
    ensures r <= NUM_BLOCKS
    ensures r == NUM_BLOCKS <==> FreeBlocks(used) == {}
    ensures r < NUM_BLOCKS ==> IsLeast(r, FreeBlocks(used))
  {
    if FreeBlocks(used) == {} then NUM_BLOCKS
    else
      LeastExists(FreeBlocks(used));
      var m :| IsLeast(m, FreeBlocks(used));
      m
  }

  lemma FreeBlocksMinus(used: set<nat>, b: nat)
    ensures FreeBlocks(used + {b}) == FreeBlocks(used) - {b}
  {
  }

  lemma FirstFreeFresh(used: set<nat>)
    requires FirstFree(used) < NUM_BLOCKS
    ensures FIRST_DATA <= FirstFree(used) && FirstFree(used) !in used
  {
  }

  // ---------- create and mkdir ----------

  function NewFile(ctx: Caller, mode: bv32, junk: Pointers): Inode {
    Inode(Attr(ctx.uid, ctx.gid, FileMode(mode), ctx.now, ctx.now), 0, junk)
  }

  function NewDir(ctx: Caller, mode: bv32, junk: Pointers, table: nat): Inode {
    Inode(Attr(ctx.uid, ctx.gid, DirMode(mode), ctx.now, ctx.now), BLOCK_SIZE, junk[0 := table])
  }

  /** A zeroed directory block. */
  function NoSlots(): (s: Slots)
    ensures EmptyTable(s)
  {
    seq(NUM_DIRENTS, _ => Dirent(false, 0, ""))
  }

  /** The checks create and mkdir share: the directory to add to, or a negative error. */
  function NewPlace(img: Image, p: Path): (r: int)
    ensures r >= 0 ==> p != [] && HasDir(img, r)
  {
    if Resolve(img, p) > 0 then -EEXIST
    else if |Last(p)| > NAME_MAX then -EINVAL
    else
      var par := Resolve(img, Parent(p));
      if par < 0 then -ENOENT
      else if !HasDir(img, par) then -ENOTDIR
      else par
  }

  /** Rewrite table block t, whose slots were read as `slots`, with slot k changed to e. */
  function SetSlot(img: Image, t: nat, slots: Slots, k: nat, e: Dirent): Image
    requires t < |img.blk| && k < NUM_DIRENTS
  {
    img.(blk := img.blk[t := Dir(slots[k := e])])
  }

  /** Enter an inode already written into the first free slot of its directory. */
  function Enter(img: Image, t: nat, slots: Slots, name: Name, inum: nat): (Image, Result)
    requires t < |img.blk|
  {
    var k := FindValid(slots, false);
    if k == NUM_DIRENTS then (img, Ret(-EINVAL))
    else (SetSlot(img, t, slots, k, Dirent(true, inum, name)), Ret(0))
  }

  /** Mark block b and write its first contents. */
  function PutNew(img: Image, b: nat, contents: Block): Image
    requires b < |img.blk|
  {
    Image(img.used + {b}, img.blk[b := contents])
  }

  ghost function Create(img: Image, p: Path, mode: bv32, ctx: Caller, junk: Pointers): (Image, Result)
    requires |img.blk| == NUM_BLOCKS
  {
    var par := NewPlace(img, p);
    if par < 0 then (img, Ret(par))
    else
      var inum := FirstFree(img.used);
      if inum == NUM_BLOCKS then (img, Aborted)
      else
        Enter(PutNew(img, inum, INode(NewFile(ctx, mode, junk))), TableOf(img, par), SlotsOf(img, par), Last(p), inum)
  }

  /** The second allocation happens before anything is written, so a disk with one free block
      is left with that block marked. */
  ghost function Mkdir(img: Image, p: Path, mode: bv32, ctx: Caller, junk: Pointers): (Image, Result)
    requires |img.blk| == NUM_BLOCKS
  {
    var par := NewPlace(img, p);
    if par < 0 then (img, Ret(par))
    else
      var inum := FirstFree(img.used);
      if inum == NUM_BLOCKS then (img, Aborted)
      else
        var table := FirstFree(img.used + {inum});
        if table == NUM_BLOCKS then (img.(used := img.used + {inum}), Aborted)
        else
          var img1 := PutNew(PutNew(img, table, Dir(NoSlots())), inum, INode(NewDir(ctx, mode, junk, table)));
          Enter(img1, TableOf(img, par), SlotsOf(img, par), Last(p), inum)
  }

  // ---------- unlink and rmdir ----------

  /** Clear the first slot that refers to inode inum, if there is one. */
  function Cleared(slots: Slots, inum: nat): Slots {
    var k := FindInode(slots, inum);
    if k == NUM_DIRENTS then slots else slots[k := slots[k].(valid := false)]
  }

  /** Rewrite directory par without its entry for inum, and with its modification time set. */
  function Leave(img: Image, par: nat, inum: nat, now: nat): Image
    requires HasDir(img, par)
  {
    var n := NodeOf(img, par);
    var blk1 := img.blk[TableOf(img, par) := Dir(Cleared(SlotsOf(img, par), inum))];
    img.(blk := blk1[par := INode(n.(attr := n.attr.(mtime := now)))])
  }

  /** The blocks an inode's live pointers name. */
  function Extents(n: Inode): set<nat> {
    set i | 0 <= i < NUM_PTRS && i < BlocksFor(n.size) :: n.ptrs[i]
  }

  function Unlink(img: Image, p: Path, now: nat): (Image, Result) {
    var par := Resolve(img, Parent(p));
    if par < 0 then (img, Ret(-ENOENT))
    else if !HasDir(img, par) then (img, Ret(-ENOTDIR))
    else
      var inum := Resolve(img, p);
      if inum < 0 || !IsInode(img, inum) then (img, Ret(-ENOENT))
      else if IsDir(NodeOf(img, inum).attr.mode) then (img, Ret(-EISDIR))
      else (Leave(img.(used := img.used - Extents(NodeOf(img, inum)) - {inum as nat}), par, inum, now), Ret(0))
  }

  function Rmdir(img: Image, p: Path, now: nat): (Image, Result) {
    var par := Resolve(img, Parent(p));
    if par < 0 then (img, Ret(-ENOENT))
    else if !HasDir(img, par) then (img, Ret(-ENOTDIR))
    else
      var inum := Resolve(img, p);
      if inum < 0 then (img, Ret(-ENOENT))
      else if !HasDir(img, inum) then (img, Ret(-ENOTDIR))
      else if FindValid(SlotsOf(img, inum), true) < NUM_DIRENTS then (img, Ret(-ENOTEMPTY))
      else (Leave(img.(used := img.used - {TableOf(img, inum), inum as nat}), par, inum, now), Ret(0))
  }

  // ---------- rename ----------

  function Rename(img: Image, src: Path, dst: Path): (Image, Result) {
    var inum := Resolve(img, src);
    if inum <= 0 then (img, Ret(if inum == -ENOTDIR then -EINVAL else -ENOENT))
    else if Resolve(img, dst) > 0 then (img, Ret(-EEXIST))
    else if |dst| != |src| || Parent(src) != Parent(dst) then (img, Ret(-EINVAL))
    else
      var par := Resolve(img, Parent(src));
      if par < 0 || !HasDir(img, par) then (img, Ret(-EINVAL))
      else
        var k := FindName(SlotsOf(img, par), Last(src));
        if k == NUM_DIRENTS then (img, Ret(0))
        else (SetSlot(img, TableOf(img, par), SlotsOf(img, par), k, SlotsOf(img, par)[k].(name := Last(dst))), Ret(0))
  }

  // ---------- attributes ----------

  function SetAttr(img: Image, m: nat, attr: Attr): Image
    requires IsInode(img, m)
  {
    img.(blk := img.blk[m := INode(NodeOf(img, m).(attr := attr))])
  }

  function Chmod(img: Image, p: Path, mode: bv32): (Image, Result) {
    var inum := Resolve(img, p);
    if inum < 0 || !IsInode(img, inum) then (img, Ret(-ENOENT))
    else
      var a := NodeOf(img, inum).attr;
      (SetAttr(img, inum, a.(mode := ChangeMode(a.mode, mode))), Ret(0))
  }

  function PathError(code: int): Result {
    Ret(if code == -ENOTDIR then -ENOTDIR else -ENOENT)
  }

  function Utime(img: Image, p: Path, mtime: nat): (Image, Result) {
    var inum := Resolve(img, p);
    if inum <= 0 || !IsInode(img, inum) then (img, PathError(inum))
    else if IsDir(NodeOf(img, inum).attr.mode) then (img, Ret(-EISDIR))
    else (SetAttr(img, inum, NodeOf(img, inum).attr.(mtime := mtime)), Ret(0))
  }

  function Truncate(img: Image, p: Path, len: int): (Image, Result) {
    if len != 0 then (img, Ret(-EINVAL))
    else
      var inum := Resolve(img, p);
      if inum <= 0 || !IsInode(img, inum) then (img, PathError(inum))
      else
        var n := NodeOf(img, inum);
        if IsDir(n.attr.mode) then (img, Ret(-EISDIR))
        else (Image(img.used - Extents(n), img.blk[inum := INode(n.(size := 0))]), Ret(0))
  }
}
