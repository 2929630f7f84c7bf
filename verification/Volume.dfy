/** The state of a disk image, path lookup in it, and the whole-disk invariant. */
module Volume {
  import opened Layout

  /** `used` is the set of block numbers whose bitmap bit is set; `blk` the block contents
      (entries 0 and 1, the superblock and the bitmap, are never read through it). */
  datatype Image = Image(used: set<nat>, blk: seq<Block>)

  // ---------- Directories and paths ----------

  predicate IsInode(img: Image, m: nat) {
    m < |img.blk| && img.blk[m].INode?
  }

  function NodeOf(img: Image, m: nat): Inode
    requires IsInode(img, m)
  {
    img.blk[m].node
  }

  /** Inode m is a directory whose single table block holds directory entries. */
  predicate HasDir(img: Image, m: nat) {
    IsInode(img, m) && IsDir(NodeOf(img, m).attr.mode) &&
    NodeOf(img, m).ptrs[0] < |img.blk| && img.blk[NodeOf(img, m).ptrs[0]].Dir?
  }

  function TableOf(img: Image, m: nat): nat
    requires HasDir(img, m)
  {
    NodeOf(img, m).ptrs[0]
  }

  function SlotsOf(img: Image, m: nat): Slots
    requires HasDir(img, m)
  {
    img.blk[TableOf(img, m)].slots
  }

  predicate Named(e: Dirent, name: Name) { e.valid && e.name == name }

  predicate Names(e: Dirent, m: nat) { e.valid && e.inode == m }

  /** The first slot in use under this name, or |slots|. */
  function FindName(slots: seq<Dirent>, name: Name): (r: nat)
    ensures r <= |slots|
    ensures r < |slots| ==> Named(slots[r], name)
    ensures forall j :: 0 <= j < r ==> !Named(slots[j], name)
  {
    if slots == [] || Named(slots[0], name) then 0 else 1 + FindName(slots[1..], name)
  }

  /** The first slot that refers to inode m, or |slots|. */
  function FindInode(slots: seq<Dirent>, m: nat): (r: nat)
    ensures r <= |slots|
    ensures r < |slots| ==> Names(slots[r], m)
    ensures forall j :: 0 <= j < r ==> !Names(slots[j], m)
  {
    if slots == [] || Names(slots[0], m) then 0 else 1 + FindInode(slots[1..], m)
  }

  /** The first slot whose valid bit is `valid`, or |slots|. */
  function FindValid(slots: seq<Dirent>, valid: bool): (r: nat)
    ensures r <= |slots|
    ensures r < |slots| ==> slots[r].valid == valid
    ensures forall j :: 0 <= j < r ==> slots[j].valid != valid
  {
    if slots == [] || slots[0].valid == valid then 0 else 1 + FindValid(slots[1..], valid)
  }

  predicate EmptyTable(slots: Slots) {
    forall k :: 0 <= k < NUM_DIRENTS ==> !slots[k].valid
  }

  /** The inode a name leads to inside directory m. */
  function Child(img: Image, m: nat, name: Name): Option<nat> {
    if HasDir(img, m) then
      var k := FindName(SlotsOf(img, m), name);
      if k < NUM_DIRENTS then Some(SlotsOf(img, m)[k].inode) else None
    else None
  }

  /** The inode a path leads to from the root, through directories only. */
  function Walk(img: Image, p: Path): Option<nat> {
    if p == [] then Some(ROOT)
    else match Walk(img, Parent(p))
      case None => None
      case Some(m) => Child(img, m, Last(p))
  }

  // ---------- Ownership and the invariant ----------

  /** Why a block is in use: the root inode, the inode named by one directory slot, the table
      block of one directory, one of its further blocks, or one live pointer of one file. */
  datatype Owner =
    | Root
    | Entry(dir: nat, slot: nat, depth: nat)
    | Table(of: nat)
    | Spare(of: nat, index: nat)
    | Extent(file: nat, index: nat)

  type Owners = map<nat, Owner>

  predicate IsNode(own: Owners, m: nat) {
    m in own && (own[m].Root? || own[m].Entry?)
  }

  function Depth(own: Owners, m: nat): nat {
    if m in own && own[m].Entry? then own[m].depth else 0
  }

  predicate GoodName(name: Name) {
    1 <= |name| <= NAME_MAX && '/' !in name
  }

  /** Every valid slot of directory m holds an inode that only this slot owns, under a name no
      other valid slot carries. */
  ghost predicate GoodSlots(own: Owners, m: nat, slots: Slots) {
    && (forall k :: 0 <= k < NUM_DIRENTS && slots[k].valid ==>
          slots[k].inode in own && own[slots[k].inode] == Entry(m, k, Depth(own, m) + 1) && GoodName(slots[k].name))
    && (forall j, k :: 0 <= j < k < NUM_DIRENTS && slots[j].valid && slots[k].valid ==> slots[j].name != slots[k].name)
  }

  /** The file system looks at the first block of a directory only. */
  ghost predicate GoodInode(own: Owners, m: nat, n: Inode) {
    if IsDir(n.attr.mode) then
      && 0 < n.size <= MAX_FILE && n.ptrs[0] in own && own[n.ptrs[0]] == Table(m)
      && forall i :: 1 <= i < BlocksFor(n.size) ==> n.ptrs[i] in own && own[n.ptrs[i]] == Spare(m, i)
    else
      && IsReg(n.attr.mode) && n.size <= MAX_FILE
      && forall i :: 0 <= i < BlocksFor(n.size) ==> n.ptrs[i] in own && own[n.ptrs[i]] == Extent(m, i)
  }

  /** Block b holds what its owner says, and its owner refers to it. */
  ghost predicate GoodBlock(img: Image, own: Owners, b: nat)
    requires b in own
  {
    && ROOT <= b < |img.blk|
    && match own[b]
       case Root => b == ROOT && img.blk[b].INode? && IsDir(img.blk[b].node.attr.mode)
           && GoodInode(own, b, img.blk[b].node)
       case Entry(m, k, depth) =>
         && img.blk[b].INode? && GoodInode(own, b, img.blk[b].node)
         && IsNode(own, m) && depth == Depth(own, m) + 1
         && HasDir(img, m) && k < NUM_DIRENTS && SlotsOf(img, m)[k].valid && SlotsOf(img, m)[k].inode == b
       case Table(m) =>
         && IsNode(own, m) && HasDir(img, m) && TableOf(img, m) == b
         && GoodSlots(own, m, SlotsOf(img, m))
       case Spare(m, i) =>
         && IsNode(own, m) && IsInode(img, m) && IsDir(NodeOf(img, m).attr.mode)
         && 1 <= i < BlocksFor(NodeOf(img, m).size) && i < NUM_PTRS && NodeOf(img, m).ptrs[i] == b
         && img.blk[b].Dir? && EmptyTable(img.blk[b].slots)
       case Extent(f, i) =>
         && IsNode(own, f) && IsInode(img, f) && !IsDir(NodeOf(img, f).attr.mode)
         && i < BlocksFor(NodeOf(img, f).size) && i < NUM_PTRS && NodeOf(img, f).ptrs[i] == b
         && img.blk[b].Data?
  }

  /** The whole-disk invariant: the owned blocks form one tree rooted at block 2, each has one
      owner, and the bitmap marks them all. */
  ghost predicate WellFormed(img: Image, own: Owners) {
    && |img.blk| == NUM_BLOCKS
    && (forall b :: b in img.used ==> b < NUM_BLOCKS)
    && ROOT in own && own[ROOT].Root?
    && (forall b :: b in own ==> b in img.used)
    && (forall b {:trigger GoodBlock(img, own, b)} :: b in own ==> GoodBlock(img, own, b))
    && 0 in img.used && 1 in img.used
  }

  /** Marked blocks nothing refers to. */
  function Leaked(img: Image, own: Owners): set<nat> {
    img.used - own.Keys - {0, 1}
  }

  // ---------- What a user sees ----------

  datatype Entity = File(attr: Attr, data: seq<Byte>) | Directory(attr: Attr, size: nat)

  /** Byte i of the file whose pointers are `ptrs`. */
  function ByteAt(img: Image, ptrs: Pointers, i: nat): Byte {
    if i / BLOCK_SIZE < NUM_PTRS && ptrs[i / BLOCK_SIZE] < |img.blk| && img.blk[ptrs[i / BLOCK_SIZE]].Data?
    then img.blk[ptrs[i / BLOCK_SIZE]].bytes[i % BLOCK_SIZE]
    else 0
  }

  function Contents(img: Image, n: Inode): (data: seq<Byte>)
    ensures |data| == n.size
  {
    seq(n.size, i requires 0 <= i => ByteAt(img, n.ptrs, i))
  }

  function ViewOf(img: Image, n: Inode): Entity {
    if IsDir(n.attr.mode) then Directory(n.attr, n.size) else File(n.attr, Contents(img, n))
  }

  /** What a path stands for. */
  function At(img: Image, p: Path): Option<Entity> {
    var m := Walk(img, p);
    if m.Some? && IsInode(img, m.value) then Some(ViewOf(img, NodeOf(img, m.value))) else None
  }

  type Tree = imap<Path, Entity>

  /** The abstract file system of an image: every path that resolves, with what it stands for. */
  ghost function Abs(img: Image): Tree {
    imap p: Path | At(img, p).Some? :: At(img, p).value
  }
}
