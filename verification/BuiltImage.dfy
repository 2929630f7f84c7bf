/** gen-disk.py: the image written from a description is well formed, the base case of every run. */
module BuiltImage {
  import opened Layout
  import opened Volume
  import opened Lookup
  import opened Operations
  import opened Creation
  import opened Space
  import opened ImageBuilder

  /** One line of the description: a file with its block list, or a directory with its entries. */
  datatype Desc =
    | FileDesc(inum: nat, attr: Attr, size: nat, blocks: seq<nat>)
    | DirDesc(inum: nat, attr: Attr, size: nat, blocks: seq<nat>, entries: seq<Dirent>)

  function ItemOf(d: Desc): Item {
    Item(d.inum, d.blocks)
  }

  function ItemsOf(descs: seq<Desc>): (items: seq<Item>)
    ensures |items| == |descs|
  {
    seq(|descs|, k requires 0 <= k < |descs| => ItemOf(descs[k]))
  }

  /** The inode written for d: its pointers are its block list, the rest is zero. */
  function InodeOf(d: Desc): Inode {
    Inode(d.attr, d.size, seq(NUM_PTRS, j requires 0 <= j => if j < |d.blocks| then d.blocks[j] else 0))
  }

  /** Block `offset` of a directory: its share of the entries, the rest is zero. */
  function EntryBlock(entries: seq<Dirent>, offset: nat): Slots {
    seq(NUM_DIRENTS, j requires 0 <= j =>
      if NUM_DIRENTS * offset + j < |entries| then entries[NUM_DIRENTS * offset + j] else Dirent(false, 0, ""))
  }

  /** What is written for a block recorded as t; `text` stands for the contents of files. */
  function BlockFor(descs: seq<Desc>, text: (nat, nat) -> Page, t: Tag): Block
    requires t.k < |descs|
  {
    match t
    case Head(k) => INode(InodeOf(descs[k]))
    case Part(k, i) => if descs[k].FileDesc? then Data(text(k, i)) else Dir(EntryBlock(descs[k].entries, i))
  }

  predicate InRange(descs: seq<Desc>, blocks: map<nat, Tag>) {
    forall b :: b in blocks ==> blocks[b].k < |descs|
  }

  /** The image: recorded blocks as recorded, all others zero. */
  function ImageOf(descs: seq<Desc>, text: (nat, nat) -> Page, blocks: map<nat, Tag>): Image
    requires InRange(descs, blocks)
  {
    Image({0, 1} + blocks.Keys, seq(NUM_BLOCKS, b requires 0 <= b < NUM_BLOCKS =>
      if b in blocks then BlockFor(descs, text, blocks[b]) else Data(seq(BLOCK_SIZE, _ => 0))))
  }

  // ---------- Descriptions of a tree ----------

  function Level(place: Owner): nat {
    if place.Entry? then place.depth else 0
  }

  /** Line k's sizes and modes fit together, and its entries have good names, all different. */
  ghost predicate GoodDesc(d: Desc) {
    && d.size <= MAX_FILE && |d.blocks| == BlocksFor(d.size)
    && if d.FileDesc? then IsReg(d.attr.mode) && !IsDir(d.attr.mode)
       else
         && IsDir(d.attr.mode) && d.size > 0 && |d.entries| <= NUM_DIRENTS
         && (forall j :: 0 <= j < |d.entries| && d.entries[j].valid ==> GoodName(d.entries[j].name))
         && (forall i, j :: 0 <= i < j < |d.entries| && d.entries[i].valid && d.entries[j].valid ==>
            d.entries[i].name != d.entries[j].name)
  }

  /** Line k is named by slot place.slot of directory line m, one level above it. */
  predicate Hangs(descs: seq<Desc>, places: seq<Owner>, k: nat, m: nat) {
    && k < |descs| == |places| && m < |descs| && descs[m].DirDesc? && places[k].Entry?
    && places[k].dir == descs[m].inum && places[k].depth == Level(places[m]) + 1
    && places[k].slot < |descs[m].entries| && descs[m].entries[places[k].slot].valid
    && descs[m].entries[places[k].slot].inode == descs[k].inum
  }

  ghost predicate HasPlace(descs: seq<Desc>, places: seq<Owner>, k: nat)
    requires k < |descs| == |places|
  {
    if descs[k].inum == ROOT then places[k] == Root && descs[k].DirDesc?
    else exists m: nat :: Hangs(descs, places, k, m)
  }

  ghost predicate NamesLine(descs: seq<Desc>, places: seq<Owner>, m: nat, j: nat)
    requires m < |descs| == |places| && descs[m].DirDesc? && j < |descs[m].entries|
  {
    exists k: nat :: Hangs(descs, places, k, m) && places[k].slot == j
  }

  /** The lines describe one tree: the root is there, every other line hangs from one entry, and
      every entry holds a line. */
  ghost predicate IsTree(descs: seq<Desc>, places: seq<Owner>) {
    && |places| == |descs|
    && (forall k :: 0 <= k < |descs| ==> GoodDesc(descs[k]) && HasPlace(descs, places, k))
    && (exists k :: 0 <= k < |descs| && descs[k].inum == ROOT)
    && (forall m, j ::
          0 <= m < |descs| && descs[m].DirDesc? && 0 <= j < |descs[m].entries| && descs[m].entries[j].valid ==>
            NamesLine(descs, places, m, j))
  }

  /** Who owns a block recorded as t. */
  function OwnerFor(descs: seq<Desc>, places: seq<Owner>, t: Tag): Owner
    requires t.k < |descs| == |places|
  {
    match t
    case Head(k) => places[k]
    case Part(k, i) =>
      if descs[k].FileDesc? then Extent(descs[k].inum, i) else if i == 0 then Table(descs[k].inum)
          else Spare(descs[k].inum, i)
  }

  function OwnersOf(descs: seq<Desc>, places: seq<Owner>, blocks: map<nat, Tag>): Owners
    requires InRange(descs, blocks) && |places| == |descs|
  {
    map b | b in blocks :: OwnerFor(descs, places, blocks[b])
  }

  // ---------- What is recorded ----------

  /** The tag of each number of the description, and no other. */
  ghost predicate Exact(descs: seq<Desc>, blocks: map<nat, Tag>) {
    && (forall k :: 0 <= k < |descs| ==> descs[k].inum in blocks && blocks[descs[k].inum] == Head(k))
    && (forall k, i :: 0 <= k < |descs| && 0 <= i < |descs[k].blocks| ==>
          descs[k].blocks[i] in blocks && blocks[descs[k].blocks[i]] == Part(k, i))
    && (forall b :: b in blocks ==> TagOf(descs, b, blocks[b]))
    && (forall b :: b in blocks ==> ROOT <= b < NUM_BLOCKS)
  }

  predicate TagOf(descs: seq<Desc>, b: nat, t: Tag) {
    t.k < |descs| &&
    match t
    case Head(k) => descs[k].inum == b
    case Part(k, i) => i < |descs[k].blocks| && descs[k].blocks[i] == b
  }

  /** The description, where its lines hang, and the record made of it. */
  ghost predicate Described(descs: seq<Desc>, places: seq<Owner>, blocks: map<nat, Tag>) {
    IsTree(descs, places) && Exact(descs, blocks) && InRange(descs, blocks)
  }

  lemma LineFacts(descs: seq<Desc>, places: seq<Owner>, text: (nat, nat) -> Page, blocks: map<nat, Tag>, k: nat)
    requires InRange(descs, blocks) && |places| == |descs| && Described(descs, places, blocks) && k < |descs|
    ensures var img, own, m := ImageOf(descs, text, blocks), OwnersOf(descs, places, blocks), descs[k].inum;
            && IsInode(img, m) && NodeOf(img, m) == InodeOf(descs[k]) && ROOT <= m < NUM_BLOCKS
            && IsNode(own, m) && own[m] == places[k] && Depth(own, m) == Level(places[k])
            && HasPlace(descs, places, k) && GoodDesc(descs[k])
  {
    hide NamesLine, BlocksFor;
    assert HasPlace(descs, places, k);
    if descs[k].inum != ROOT {
      var m: nat :| Hangs(descs, places, k, m);
    }
  }

  lemma PartFacts(descs: seq<Desc>, places: seq<Owner>, text: (nat, nat) -> Page, blocks: map<nat, Tag>, k: nat, i: nat)
    requires InRange(descs, blocks) && |places| == |descs| && Described(descs, places, blocks)
    requires k < |descs| && i < |descs[k].blocks|
    ensures var img, own, b := ImageOf(descs, text, blocks), OwnersOf(descs, places, blocks), descs[k].blocks[i];
            && ROOT <= b < NUM_BLOCKS == |img.blk| && b in own && own[b] == OwnerFor(descs, places, Part(k, i))
            && img.blk[b] == BlockFor(descs, text, Part(k, i))
  {
    hide IsTree;
  }

  lemma DirFacts(descs: seq<Desc>, places: seq<Owner>, text: (nat, nat) -> Page, blocks: map<nat, Tag>, k: nat)
    requires InRange(descs, blocks) && |places| == |descs| && Described(descs, places, blocks)
    requires k < |descs| && descs[k].DirDesc?
    ensures |descs[k].blocks| > 0 && |descs[k].entries| <= NUM_DIRENTS
    ensures var img, m := ImageOf(descs, text, blocks), descs[k].inum;
            && HasDir(img, m) && TableOf(img, m) == descs[k].blocks[0]
            && SlotsOf(img, m) == EntryBlock(descs[k].entries, 0)
  {
    LineFacts(descs, places, text, blocks, k);
    BlocksForLeast(descs[k].size, 0);
    BlocksForLeast(descs[k].size, NUM_PTRS);
    PartFacts(descs, places, text, blocks, k, 0);
  }

  /** All entries are in the first block. */
  lemma Entries(entries: seq<Dirent>, offset: nat)
    requires |entries| <= NUM_DIRENTS
    ensures offset > 0 ==> EmptyTable(EntryBlock(entries, offset))
    ensures forall j :: 0 <= j < NUM_DIRENTS ==>
              EntryBlock(entries, 0)[j] == if j < |entries| then entries[j] else Dirent(false, 0, "")
  {
  }

  lemma GoodLine(descs: seq<Desc>, places: seq<Owner>, text: (nat, nat) -> Page, blocks: map<nat, Tag>, k: nat)
    requires InRange(descs, blocks) && |places| == |descs| && Described(descs, places, blocks) && k < |descs|
    ensures GoodInode(OwnersOf(descs, places, blocks), descs[k].inum, InodeOf(descs[k]))
  {
    hide Described, OwnersOf, HasPlace, BlocksFor, ImageOf, BlockFor;
    LineFacts(descs, places, text, blocks, k);
    var d, n := descs[k], InodeOf(descs[k]);
    BlocksForLeast(d.size, 0);
    BlocksForLeast(d.size, NUM_PTRS);
    forall i | 0 <= i < |d.blocks|
      ensures n.ptrs[i] == d.blocks[i]
      ensures d.blocks[i] in OwnersOf(descs, places, blocks)
      ensures OwnersOf(descs, places, blocks)[d.blocks[i]] == OwnerFor(descs, places, Part(k, i))
    {
      PartFacts(descs, places, text, blocks, k, i);
    }
  }

  /** The line an entry holds. */
  lemma EntryLine(descs: seq<Desc>, places: seq<Owner>, blocks: map<nat, Tag>, m: nat, j: nat) returns (k: nat)
    requires InRange(descs, blocks) && |places| == |descs| && Described(descs, places, blocks)
    requires m < |descs| && descs[m].DirDesc?
    requires j < |descs[m].entries| && descs[m].entries[j].valid
    ensures k < |descs| && |places| == |descs| && places[k] == Entry(descs[m].inum, j, Level(places[m]) + 1)
    ensures descs[m].entries[j].inode == descs[k].inum
  {
    assert NamesLine(descs, places, m, j);
    k :| Hangs(descs, places, k, m) && places[k].slot == j;
  }

  lemma GoodEntries(descs: seq<Desc>, places: seq<Owner>, text: (nat, nat) -> Page, blocks: map<nat, Tag>, m: nat)
    requires InRange(descs, blocks) && |places| == |descs| && Described(descs, places, blocks)
    requires m < |descs| && descs[m].DirDesc?
    ensures GoodSlots(OwnersOf(descs, places, blocks), descs[m].inum, EntryBlock(descs[m].entries, 0))
  {
    hide Described, OwnersOf, HasPlace, EntryBlock, ImageOf, BlockFor, InodeOf, BlocksFor;
    LineFacts(descs, places, text, blocks, m);
    var own, entries := OwnersOf(descs, places, blocks), descs[m].entries;
    Entries(entries, 0);
    forall j | 0 <= j < |entries| && entries[j].valid
      ensures entries[j].inode in own && own[entries[j].inode] == Entry(descs[m].inum, j, Depth(own, descs[m].inum) + 1)
    {
      var k := EntryLine(descs, places, blocks, m, j);
      LineFacts(descs, places, text, blocks, k);
    }
  }

  lemma HeadBlock(descs: seq<Desc>, places: seq<Owner>, text: (nat, nat) -> Page, blocks: map<nat, Tag>, k: nat)
    requires InRange(descs, blocks) && |places| == |descs| && Described(descs, places, blocks)
    requires k < |descs| && descs[k].inum in OwnersOf(descs, places, blocks)
    ensures GoodBlock(ImageOf(descs, text, blocks), OwnersOf(descs, places, blocks), descs[k].inum)
  {
    hide Described, OwnersOf, ImageOf, GoodInode, GoodDesc, EntryBlock, InodeOf;
    LineFacts(descs, places, text, blocks, k);
    GoodLine(descs, places, text, blocks, k);
    if descs[k].inum != ROOT {
      var m: nat :| Hangs(descs, places, k, m);
      LineFacts(descs, places, text, blocks, m);
      DirFacts(descs, places, text, blocks, m);
      Entries(descs[m].entries, 0);
    } else {
      DirFacts(descs, places, text, blocks, k);
    }
  }

  lemma PartBlock(descs: seq<Desc>, places: seq<Owner>, text: (nat, nat) -> Page, blocks: map<nat, Tag>, k: nat, i: nat)
    requires InRange(descs, blocks) && |places| == |descs| && Described(descs, places, blocks)
    requires k < |descs| && i < |descs[k].blocks|
    requires descs[k].blocks[i] in OwnersOf(descs, places, blocks)
    ensures GoodBlock(ImageOf(descs, text, blocks), OwnersOf(descs, places, blocks), descs[k].blocks[i])
  {
    hide Described, OwnersOf, ImageOf, GoodInode, GoodSlots, EntryBlock, BlocksFor, HasPlace;
    LineFacts(descs, places, text, blocks, k);
    PartFacts(descs, places, text, blocks, k, i);
    BlocksForLeast(descs[k].size, NUM_PTRS);
    if descs[k].DirDesc? {
      DirFacts(descs, places, text, blocks, k);
      GoodEntries(descs, places, text, blocks, k);
      Entries(descs[k].entries, i);
    }
  }

  lemma Lines(descs: seq<Desc>, places: seq<Owner>, text: (nat, nat) -> Page, blocks: map<nat, Tag>) returns (k: nat)
    requires InRange(descs, blocks) && |places| == |descs| && Described(descs, places, blocks)
    ensures k < |descs| && descs[k].inum == ROOT
    ensures forall b :: b in blocks ==> TagOf(descs, b, blocks[b]) && ROOT <= b < NUM_BLOCKS
    ensures OwnersOf(descs, places, blocks).Keys == blocks.Keys
    ensures ImageOf(descs, text, blocks).used == {0, 1} + blocks.Keys
            && |ImageOf(descs, text, blocks).blk| == NUM_BLOCKS
  {
    k :| 0 <= k < |descs| && descs[k].inum == ROOT;
  }

  /** The image written from the description of a tree is well formed, and nothing else is marked. */
  lemma BuiltGood(descs: seq<Desc>, places: seq<Owner>, text: (nat, nat) -> Page, blocks: map<nat, Tag>)
    requires InRange(descs, blocks) && |places| == |descs| && Described(descs, places, blocks)
    ensures WellFormed(ImageOf(descs, text, blocks), OwnersOf(descs, places, blocks))
    ensures Leaked(ImageOf(descs, text, blocks), OwnersOf(descs, places, blocks)) == {}
  {
    hide GoodBlock, Described, OwnersOf, ImageOf;
    var img, own := ImageOf(descs, text, blocks), OwnersOf(descs, places, blocks);
    var root := Lines(descs, places, text, blocks);
    forall b | b in own ensures GoodBlock(img, own, b) {
      assert TagOf(descs, b, blocks[b]);
      match blocks[b]
      case Head(k) => HeadBlock(descs, places, text, blocks, k);
      case Part(k, i) => PartBlock(descs, places, text, blocks, k, i);
    }
    LineFacts(descs, places, text, blocks, root);
  }

  // ---------- From the builder's record ----------

  lemma {:induction false} TagAt(items: seq<Item>, t: nat)
    requires t < |AllNumbers(items)|
    ensures var tag, b := AllTags(items)[t], AllNumbers(items)[t];
            tag.k < |items| &&
            match tag
            case Head(k) => items[k].inum == b
            case Part(k, i) => i < |items[k].blocks| && items[k].blocks[i] == b
    decreases |items|
  {
    var n := |items| - 1;
    if t < |AllNumbers(items[..n])| {
      TagAt(items[..n], t);
    }
  }

  /** Where number i of item k stands in the order. */
  lemma {:induction false} NumberAt(items: seq<Item>, k: nat, i: nat) returns (t: nat)
    requires k < |items| && i <= |items[k].blocks|
    ensures t < |AllNumbers(items)| && AllNumbers(items)[t] == Numbers(items[k])[i]
            && AllTags(items)[t] == TagsOf(items[k], k)[i]
    decreases |items|
  {
    var n := |items| - 1;
    if k < n {
      t := NumberAt(items[..n], k, i);
    } else {
      t := |AllNumbers(items[..n])| + i;
    }
  }

  lemma FromTwo(items: seq<Item>, t: nat)
    requires NoRepeat(Order(items)) && t < |AllNumbers(items)|
    ensures AllNumbers(items)[t] >= ROOT
  {
    var s := Order(items);
    assert s[0] == 0 && s[1] == 1 && s[t + 2] == AllNumbers(items)[t];
  }

  lemma {:induction false} Listed(items: seq<Item>, t: nat)
    requires t < |AllNumbers(items)| && forall k :: 0 <= k < |items| ==> InList(items[k])
    ensures AllNumbers(items)[t] < LIST_SIZE
    decreases |items|
  {
    var n := |items| - 1;
    if t < |AllNumbers(items[..n])| {
      Listed(items[..n], t);
    } else {
      assert InList(items[n]);
    }
  }

  /** When no number repeats, the builder's record is exact. */
  lemma RecordedExact(descs: seq<Desc>, blocks: map<nat, Tag>)
    requires var items := ItemsOf(descs);
             && NoRepeat(Order(items)) && Recorded(AllNumbers(items), AllTags(items), blocks)
             && forall k :: 0 <= k < |items| ==> InList(items[k])
    ensures Exact(descs, blocks) && InRange(descs, blocks)
  {
    hide AllNumbers, AllTags, NoRepeat, Order;
    var items := ItemsOf(descs);
    forall k | 0 <= k < |descs| ensures descs[k].inum in blocks && blocks[descs[k].inum] == Head(k) {
      var t := NumberAt(items, k, 0);
    }
    forall k, i | 0 <= k < |descs| && 0 <= i < |descs[k].blocks|
      ensures descs[k].blocks[i] in blocks && blocks[descs[k].blocks[i]] == Part(k, i)
    {
      var t := NumberAt(items, k, i + 1);
    }
    forall b | b in blocks ensures TagOf(descs, b, blocks[b]) && ROOT <= b < NUM_BLOCKS {
      var t :| 0 <= t < |AllNumbers(items)| && AllNumbers(items)[t] == b;
      TagAt(items, t);
      FromTwo(items, t);
      Listed(items, t);
    }
  }

  // ---------- The tree it shows ----------

  /** Entry j of line m has this name and holds line k. */
  predicate Holds(descs: seq<Desc>, m: nat, j: nat, name: Name, k: nat) {
    && m < |descs| && descs[m].DirDesc? && j < |descs[m].entries| && k < |descs|
    && Named(descs[m].entries[j], name) && descs[m].entries[j].inode == descs[k].inum
  }

  /** The entry names along q lead from the root line to line k. */
  ghost predicate Leads(descs: seq<Desc>, q: Path, k: nat)
    decreases |q|
  {
    if q == [] then k < |descs| && descs[k].inum == ROOT
    else exists m: nat, j: nat :: Leads(descs, Parent(q), m) && Holds(descs, m, j, Last(q), k)
  }

  ghost predicate Reached(descs: seq<Desc>, q: Path) {
    exists k: nat :: Leads(descs, q, k)
  }

  lemma LeadsRange(descs: seq<Desc>, q: Path, k: nat)
    requires Leads(descs, q, k)
    ensures k < |descs|
  {
  }

  lemma SameLine(descs: seq<Desc>, blocks: map<nat, Tag>, k: nat, m: nat)
    requires Exact(descs, blocks) && k < |descs| && m < |descs| && descs[k].inum == descs[m].inum
    ensures k == m
  {
    assert blocks[descs[k].inum] == Head(k) && blocks[descs[m].inum] == Head(m);
  }

  /** A directory line's names lead where its entries say. */
  lemma LineChild(descs: seq<Desc>, places: seq<Owner>, text: (nat, nat) -> Page, blocks: map<nat, Tag>, m: nat,
      name: Name)
    requires InRange(descs, blocks) && |places| == |descs| && Described(descs, places, blocks) && m < |descs|
    ensures var c := Child(ImageOf(descs, text, blocks), descs[m].inum, name);
            && (c.Some? ==> exists j: nat, k: nat :: Holds(descs, m, j, name, k))
            && forall j: nat, k: nat :: Holds(descs, m, j, name, k) ==> c == Some(descs[k].inum)
  {
    hide Described, HasPlace, EntryBlock, ImageOf, BlockFor, BlocksFor;
    LineFacts(descs, places, text, blocks, m);
    if descs[m].DirDesc? {
      DirFacts(descs, places, text, blocks, m);
      Entries(descs[m].entries, 0);
      var slots := SlotsOf(ImageOf(descs, text, blocks), descs[m].inum);
      var r := FindName(slots, name);
      if r < NUM_DIRENTS {
        var k := EntryLine(descs, places, blocks, m, r);
        assert Holds(descs, m, r, name, k);
      }
      forall j: nat, k: nat | Holds(descs, m, j, name, k) ensures r == j {
        assert Named(slots[j], name);
      }
    }
  }

  lemma {:induction false} BuiltWalk(descs: seq<Desc>, places: seq<Owner>, text: (nat, nat) -> Page,
                                     blocks: map<nat, Tag>, q: Path)
    requires InRange(descs, blocks) && |places| == |descs| && Described(descs, places, blocks)
    ensures Walk(ImageOf(descs, text, blocks), q).Some? <==> Reached(descs, q)
    ensures forall k: nat :: Leads(descs, q, k) ==>
              k < |descs| && Walk(ImageOf(descs, text, blocks), q) == Some(descs[k].inum)
    decreases |q|
  {
    hide ImageOf, Child, Described;
    var img := ImageOf(descs, text, blocks);
    if q == [] {
      var root := Lines(descs, places, text, blocks);
      assert Leads(descs, q, root);
    } else {
      BuiltWalk(descs, places, text, blocks, Parent(q));
      forall k: nat | Leads(descs, q, k) ensures k < |descs| && Walk(img, q) == Some(descs[k].inum) {
        LeadsStep(descs, places, text, blocks, q, k);
      }
      if Walk(img, q).Some? {
        var m: nat :| Leads(descs, Parent(q), m);
        LineChild(descs, places, text, blocks, m, Last(q));
        var j: nat, k: nat :| Holds(descs, m, j, Last(q), k);
        assert Leads(descs, q, k);
      }
    }
  }

  lemma LeadsStep(descs: seq<Desc>, places: seq<Owner>, text: (nat, nat) -> Page, blocks: map<nat, Tag>, q: Path,
      k: nat)
    requires InRange(descs, blocks) && |places| == |descs| && Described(descs, places, blocks)
    requires q != [] && Leads(descs, q, k)
    requires forall n: nat :: Leads(descs, Parent(q), n) ==>
               n < |descs| && Walk(ImageOf(descs, text, blocks), Parent(q)) == Some(descs[n].inum)
    ensures k < |descs| && Walk(ImageOf(descs, text, blocks), q) == Some(descs[k].inum)
  {
    hide ImageOf, Child, Described;
    var n: nat, j: nat :| Leads(descs, Parent(q), n) && Holds(descs, n, j, Last(q), k);
    LineChild(descs, places, text, blocks, n, Last(q));
  }

  /** What line k stands for: byte i of a file is byte i % 4096 of the text of its block i / 4096. */
  ghost predicate Shows(e: Entity, d: Desc, k: nat, text: (nat, nat) -> Page) {
    && e.attr == d.attr
    && if d.DirDesc? then e.Directory? && e.size == d.size
       else
         && e.File? && |e.data| == d.size
         && forall i :: 0 <= i < d.size ==> e.data[i] == text(k, i / BLOCK_SIZE)[i % BLOCK_SIZE]
  }

  /** Path q is in the tree exactly when it leads to a line, and stands for what that line says. */
  ghost predicate ShowsAt(descs: seq<Desc>, text: (nat, nat) -> Page, fs: Tree, q: Path) {
    && (q in fs <==> Reached(descs, q))
    && forall k: nat :: Leads(descs, q, k) ==> k < |descs| && q in fs && Shows(fs[q], descs[k], k, text)
  }

  lemma LineView(descs: seq<Desc>, places: seq<Owner>, text: (nat, nat) -> Page, blocks: map<nat, Tag>, k: nat)
    requires InRange(descs, blocks) && |places| == |descs| && Described(descs, places, blocks) && k < |descs|
    ensures Shows(ViewOf(ImageOf(descs, text, blocks), InodeOf(descs[k])), descs[k], k, text)
  {
    hide Described, HasPlace, ImageOf;
    LineFacts(descs, places, text, blocks, k);
    var img, d, n := ImageOf(descs, text, blocks), descs[k], InodeOf(descs[k]);
    if d.FileDesc? {
      BlocksForLeast(d.size, NUM_PTRS);
      forall i | 0 <= i < d.size ensures ByteAt(img, n.ptrs, i) == text(k, i / BLOCK_SIZE)[i % BLOCK_SIZE] {
        PartFacts(descs, places, text, blocks, k, i / BLOCK_SIZE);
      }
    }
  }

  /** The built image shows exactly the described tree: a path is there when the entry names along it
      lead to a line, and it stands for what that line says. */
  lemma BuiltTree(descs: seq<Desc>, places: seq<Owner>, text: (nat, nat) -> Page, blocks: map<nat, Tag>, q: Path)
    requires InRange(descs, blocks) && |places| == |descs| && Described(descs, places, blocks)
    ensures ShowsAt(descs, text, Abs(ImageOf(descs, text, blocks)), q)
  {
    hide ImageOf, Described, InodeOf, Shows, Leads, Abs, WellFormed, OwnersOf;
    var img := ImageOf(descs, text, blocks);
    BuiltGood(descs, places, text, blocks);
    AbsWalk(img, OwnersOf(descs, places, blocks), q);
    BuiltWalk(descs, places, text, blocks, q);
    forall k: nat | Leads(descs, q, k) ensures k < |descs| && q in Abs(img) && Shows(Abs(img)[q], descs[k], k, text) {
      LeadsRange(descs, q, k);
      LineFacts(descs, places, text, blocks, k);
      LineView(descs, places, text, blocks, k);
    }
  }

  /** Every line of the description is in the tree, under one path. */
  lemma BuiltPath(descs: seq<Desc>, places: seq<Owner>, text: (nat, nat) -> Page, blocks: map<nat, Tag>, k: nat)
    returns (q: Path)
    requires InRange(descs, blocks) && |places| == |descs| && Described(descs, places, blocks) && k < |descs|
    ensures Leads(descs, q, k)
    ensures forall p :: Leads(descs, p, k) ==> p == q
  {
    hide ImageOf, InodeOf, Leads, WellFormed, OwnersOf, IsTree;
    var img, own := ImageOf(descs, text, blocks), OwnersOf(descs, places, blocks);
    BuiltGood(descs, places, text, blocks);
    LineFacts(descs, places, text, blocks, k);
    q := NodeReached(img, own, descs[k].inum);
    BuiltWalk(descs, places, text, blocks, q);
    var m: nat :| Leads(descs, q, m);
    LeadsRange(descs, q, m);
    SameLine(descs, blocks, k, m);
    forall p | Leads(descs, p, k) ensures p == q {
      BuiltWalk(descs, places, text, blocks, p);
      WalkUnique(img, own, p, q);
    }
  }

  /** The image gen-disk.py writes for the description of a tree in which no number repeats is well
      formed, marks superblock, bitmap and the listed numbers, which are all owned, and shows the
      described tree. */
  lemma BuiltBase(descs: seq<Desc>, places: seq<Owner>, text: (nat, nat) -> Page, blocks: map<nat, Tag>)
    requires IsTree(descs, places)
    requires var items := ItemsOf(descs);
             && NoRepeat(Order(items)) && Recorded(AllNumbers(items), AllTags(items), blocks)
             && forall k :: 0 <= k < |items| ==> InList(items[k])
    ensures InRange(descs, blocks) && |places| == |descs|
    ensures var img, own := ImageOf(descs, text, blocks), OwnersOf(descs, places, blocks);
            && WellFormed(img, own) && Leaked(img, own) == {}
            && img.used == (set n | n in Order(ItemsOf(descs)))
            && forall q :: ShowsAt(descs, text, Abs(img), q)
  {
    hide Exact, Recorded, NoRepeat, Order, WellFormed, Leaked, HasPlace, NamesLine, GoodDesc, Abs, ShowsAt, ImageOf;
    RecordedExact(descs, blocks);
    BuiltGood(descs, places, text, blocks);
    UsedIsOrder(descs, text, blocks);
    forall q ensures ShowsAt(descs, text, Abs(ImageOf(descs, text, blocks)), q) {
      BuiltTree(descs, places, text, blocks, q);
    }
  }

  lemma UsedIsOrder(descs: seq<Desc>, text: (nat, nat) -> Page, blocks: map<nat, Tag>)
    requires InRange(descs, blocks) && Recorded(AllNumbers(ItemsOf(descs)), AllTags(ItemsOf(descs)), blocks)
    ensures ImageOf(descs, text, blocks).used == set n | n in Order(ItemsOf(descs))
  {
    hide AllNumbers, AllTags;
  }
}
