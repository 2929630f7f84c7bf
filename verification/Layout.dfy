/** On-disk layout of the fs5600 file system: constants, records and typed block contents. */
module Layout {
  import opened Bits

  const BLOCK_SIZE: nat := 4096
  const NUM_PTRS: nat := BLOCK_SIZE / 4 - 5        // direct pointers in one inode: 1019
  const NUM_DIRENTS: nat := BLOCK_SIZE / 32        // directory entries in one block: 128
  const NUM_BLOCKS: nat := BLOCK_SIZE * 8          // blocks one bitmap block can name: 32768
  const MAX_FILE: nat := BLOCK_SIZE * NUM_PTRS
  const NAME_MAX: nat := 27
  const WORD: nat := 0x1_0000_0000_0000_0000       // values of the unsigned counts statfs reports

  const ROOT: nat := 2                             // inode number of "/"
  const FIRST_DATA: nat := 3                       // lowest block the allocator hands out

  const ENOENT: int := 2
  const EEXIST: int := 17
  const ENOTDIR: int := 20
  const EISDIR: int := 21
  const EINVAL: int := 22
  const ENOSPC: int := 28
  const ENOTEMPTY: int := 39

  datatype Option<+T> = None | Some(value: T)

  /** What a file-system call does: it returns a code, or the block layer's `assert(lba > 0)`
      (misc.c:49) stops the process. */
  datatype Result = Ret(code: int) | Aborted

  type Byte = bv8
  type Name = string
  type Path = seq<Name>

  type Page = s: seq<Byte> | |s| == BLOCK_SIZE witness seq(BLOCK_SIZE, _ => 0)
  type Pointers = s: seq<nat> | |s| == NUM_PTRS witness seq(NUM_PTRS, _ => 0)
  type Slots = s: seq<Dirent> | |s| == NUM_DIRENTS witness seq(NUM_DIRENTS, _ => Dirent(false, 0, ""))

  datatype Dirent = Dirent(valid: bool, inode: nat, name: Name)
  datatype Attr = Attr(uid: nat, gid: nat, mode: bv32, ctime: nat, mtime: nat)
  datatype Inode = Inode(attr: Attr, size: nat, ptrs: Pointers)

  /** The contents of one block other than the superblock and the bitmap. */
  datatype Block = INode(node: Inode) | Dir(slots: Slots) | Data(bytes: Page)

  /** How the bytes of a block that was last written as an inode or a directory read when it is
      reused for file data; `raw` stands for that unmodelled byte layout. */
  function BytesOf(raw: Block -> Page, b: Block): Page {
    if b.Data? then b.bytes else raw(b)
  }

  function DivRoundUp(n: nat, m: nat): nat
    requires m > 0
  {
    (n + m - 1) / m
  }

  /** Number of blocks a file of `size` bytes occupies, hence the number of its live pointers. */
  function BlocksFor(size: nat): nat {
    DivRoundUp(size, BLOCK_SIZE)
  }

  /** The block-count macro gives the least number of blocks that hold `size` bytes. */
  lemma BlocksForLeast(size: nat, n: nat)
    ensures size <= n * BLOCK_SIZE <==> BlocksFor(size) <= n
  {
  }

  predicate IsDir(mode: bv32) { mode & 0xF000 == 0x4000 }
  predicate IsReg(mode: bv32) { mode & 0xF000 == 0x8000 }

  function FileMode(mode: bv32): bv32 { (0xFFF & mode) | 0x8000 }
  function DirMode(mode: bv32): bv32 { (0xFFF & mode) | 0x4000 }
  function ChangeMode(was: bv32, mode: bv32): bv32 { (was & 0xFFFF_F000) | (0xFFF & mode) }

  lemma ModeKinds(was: bv32, mode: bv32)
    ensures IsReg(FileMode(mode)) && !IsDir(FileMode(mode))
    ensures IsDir(DirMode(mode))
    ensures IsDir(ChangeMode(was, mode)) == IsDir(was)
    ensures IsReg(ChangeMode(was, mode)) == IsReg(was)
  {
  }

  /** The high bits of one word with the low twelve of another. */
  function WithLow(high: bv32, low: bv32): bv32 {
    high / 0x1000 * 0x1000 + low % 0x1000
  }

  lemma FileParts(mode: bv32)
    ensures FileMode(mode) == WithLow(0x8000, mode)
  {
  }

  lemma DirParts(mode: bv32)
    ensures DirMode(mode) == WithLow(0x4000, mode)
  {
  }

  lemma ChangeParts(was: bv32, mode: bv32)
    ensures ChangeMode(was, mode) == WithLow(was, mode)
  {
  }

  /** The modes create, mkdir and chmod store: the kind of the inode, or the mode it had, with the low
      twelve bits asked for. */
  lemma StoredModes(was: bv32, mode: bv32)
    ensures FileMode(mode) == WithLow(0x8000, mode)
    ensures DirMode(mode) == WithLow(0x4000, mode)
    ensures ChangeMode(was, mode) == WithLow(was, mode)
  {
    hide FileMode, DirMode, ChangeMode, WithLow;
    FileParts(mode);
    DirParts(mode);
    ChangeParts(was, mode);
  }

  lemma LowParts(high: bv32, low: bv32)
    ensures WithLow(high, low) >> 12 == high >> 12
    ensures WithLow(high, low) & 0xFFF == low & 0xFFF
  {
  }

  /** The same as numbers. */
  lemma WithLowValue(high: bv32, low: bv32)
    ensures WithLow(high, low) as int / 0x1000 == high as int / 0x1000
    ensures WithLow(high, low) as int % 0x1000 == low as int % 0x1000
  {
    hide WithLow;
    LowParts(high, low);
    Split12(WithLow(high, low));
    Split12(high);
    Split12(low);
  }

  lemma KindBits(mode: bv32)
    ensures IsDir(mode) <==> (mode >> 12) & 15 == 4
    ensures IsReg(mode) <==> (mode >> 12) & 15 == 8
  {
  }

  lemma FourBits(l: bv32)
    ensures l & 15 == 4 <==> (l & 15) as int == 4
    ensures l & 15 == 8 <==> (l & 15) as int == 8
  {
  }

  /** The kind is the number above the low twelve bits: 4 for a directory, 8 for a file. */
  lemma KindValues(mode: bv32)
    ensures IsDir(mode) <==> mode as int / 0x1000 % 16 == 4
    ensures IsReg(mode) <==> mode as int / 0x1000 % 16 == 8
  {
    hide IsDir, IsReg;
    KindBits(mode);
    Split12(mode);
    Split4(mode >> 12);
    FourBits(mode >> 12);
  }

  function Last<T>(s: seq<T>): T
    requires s != []
  {
    s[|s| - 1]
  }

  /** All components but the last; the root is its own parent. */
  function Parent(p: Path): Path {
    if p == [] then [] else p[..|p| - 1]
  }
}
