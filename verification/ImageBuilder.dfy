/** gen-disk.py: filling the bitmap from a list of files and directories, with its check for
    blocks counted twice. */
module ImageBuilder {
  import opened Layout
  import opened Bitmaps

  /** One file or directory of the description: its inode number and its block list. */
  datatype Item = Item(inum: nat, blocks: seq<nat>)

  /** What the `blocks` list records for a block: the inode of item k, or its i-th block. */
  datatype Tag = Head(k: nat) | Part(k: nat, i: nat)

  const LIST_SIZE: nat := 400

  /** The block numbers of an item, in the order they are marked. */
  function Numbers(f: Item): seq<nat> {
    [f.inum] + f.blocks
  }

  function TagsOf(f: Item, k: nat): (tags: seq<Tag>)
    ensures |tags| == |Numbers(f)|
  {
    seq(1 + |f.blocks|, i requires 0 <= i => if i == 0 then Head(k) else Part(k, i - 1))
  }

  function AllNumbers(items: seq<Item>): seq<nat> {
    if items == [] then [] else AllNumbers(items[..|items| - 1]) + Numbers(items[|items| - 1])
  }

  function AllTags(items: seq<Item>): (tags: seq<Tag>)
    ensures |tags| == |AllNumbers(items)|
  {
    if items == [] then [] else AllTags(items[..|items| - 1]) + TagsOf(items[|items| - 1], |items| - 1)
  }

  predicate NoRepeat(s: seq<nat>) {
    forall i, j :: 0 <= i < j < |s| ==> s[i] != s[j]
  }

  lemma NoRepeatSnoc(s: seq<nat>, n: nat)
    ensures NoRepeat(s + [n]) <==> NoRepeat(s) && n !in s
  {
    var t := s + [n];
    if NoRepeat(t) {
      forall i, j | 0 <= i < j < |s| ensures s[i] != s[j] {
        assert t[i] == s[i] && t[j] == s[j];
      }
      forall i | 0 <= i < |s| ensures s[i] != n {
        assert t[i] == s[i] && t[|s|] == n;
      }
    }
  }

  /** A block of item f is marked although it was marked before: in seen, as f's inode number, or
      as an earlier block of f. */
  predicate DoubledBy(seen: seq<nat>, f: Item) {
    exists i :: 0 <= i < |f.blocks| && f.blocks[i] in seen + Numbers(f)[..i + 1]
  }

  /** All numbers of the description, superblock and bitmap first, in the order they are marked. */
  function Order(items: seq<Item>): seq<nat> {
    [0, 1] + AllNumbers(items)
  }

  /** A block of item k occurs earlier in the order. */
  predicate DoublesAt(items: seq<Item>, k: nat) {
    k < |items| && DoubledBy(Order(items[..k]), items[k])
  }

  /** The inode number of item k occurs earlier in the order. */
  predicate TakenAt(items: seq<Item>, k: nat) {
    k < |items| && items[k].inum in Order(items[..k])
  }

  /** What the check in the loop prints an error for. */
  ghost predicate PrintedDouble(items: seq<Item>) {
    exists k: nat :: DoublesAt(items, k)
  }

  /** What it does not look at. */
  ghost predicate InodeTaken(items: seq<Item>) {
    exists k: nat :: TakenAt(items, k)
  }

  /** One item more. */
  lemma Longer(items: seq<Item>)
    requires items != []
    ensures var n := |items| - 1;
            && (PrintedDouble(items) <==> PrintedDouble(items[..n]) || DoubledBy(Order(items[..n]), items[n]))
            && (InodeTaken(items) <==> InodeTaken(items[..n]) || items[n].inum in Order(items[..n]))
  {
    hide Order, DoubledBy;
    var n := |items| - 1;
    forall k: nat | k < n
      ensures DoublesAt(items, k) <==> DoublesAt(items[..n], k)
      ensures TakenAt(items, k) <==> TakenAt(items[..n], k)
    {
      assert items[..n][..k] == items[..k];
    }
    assert DoublesAt(items, n) <==> DoubledBy(Order(items[..n]), items[n]);
    assert TakenAt(items, n) <==> items[n].inum in Order(items[..n]);
  }

  lemma {:induction false} BlocksApart(seen: seq<nat>, f: Item, n: nat)
    requires n <= |f.blocks|
    ensures NoRepeat(seen + Numbers(f)[..n + 1]) <==>
              NoRepeat(seen) && f.inum !in seen && forall i :: 0 <= i < n ==> f.blocks[i] !in seen + Numbers(f)[..i + 1]
    decreases n
  {
    if n == 0 {
      assert Numbers(f)[..1] == [f.inum];
      NoRepeatSnoc(seen, f.inum);
    } else {
      var s := seen + Numbers(f)[..n];
      assert seen + Numbers(f)[..n + 1] == s + [f.blocks[n - 1]];
      NoRepeatSnoc(s, f.blocks[n - 1]);
      BlocksApart(seen, f, n - 1);
    }
  }

  /** No number occurs twice exactly when no double count is printed and no inode number was
      already taken. */
  lemma {:induction false} NoRepeatExact(items: seq<Item>)
    ensures NoRepeat(Order(items)) <==> !PrintedDouble(items) && !InodeTaken(items)
    decreases |items|
  {
    hide PrintedDouble, InodeTaken, DoubledBy;
    if items == [] {
      NothingDouble();
    } else {
      var n := |items| - 1;
      NoRepeatExact(items[..n]);
      Longer(items);
      OneItem(Order(items[..n]), items[n]);
      assert Order(items) == Order(items[..n]) + Numbers(items[n]);
    }
  }

  lemma NothingDouble()
    ensures !PrintedDouble([]) && !InodeTaken([]) && NoRepeat(Order([]))
  {
  }

  lemma OneItem(seen: seq<nat>, f: Item)
    ensures NoRepeat(seen + Numbers(f)) <==> NoRepeat(seen) && f.inum !in seen && !DoubledBy(seen, f)
  {
    BlocksApart(seen, f, |f.blocks|);
    assert Numbers(f)[..|f.blocks| + 1] == Numbers(f);
  }

  /** Silence of the printed check means that nothing was counted twice, exactly for descriptions
      that are caught or whose inode numbers were free. */
  lemma PrintEnoughIff(items: seq<Item>)
    ensures (!PrintedDouble(items) ==> NoRepeat(Order(items))) <==> PrintedDouble(items) || !InodeTaken(items)
  {
    NoRepeatExact(items);
  }

  /** The printed check alone is not enough: it is silent about an item whose inode number is the
      block of an earlier one. */
  lemma PrintIsNotEnough()
    ensures var items := [Item(2, [399]), Item(399, [])];
            !PrintedDouble(items) && InodeTaken(items) && !NoRepeat(Order(items))
  {
    var items := [Item(2, [399]), Item(399, [])];
    assert items[..0] == [] && items[..1] == [Item(2, [399])] && items[..1][..0] == [];
    assert AllNumbers(items[..0]) == [] && AllNumbers(items[..1]) == [2, 399];
    assert Order(items[..0]) == [0, 1] && Order(items[..1]) == [0, 1, 2, 399];
    assert TakenAt(items, 1);
    assert Numbers(items[0])[..1] == [2];
    assert !DoublesAt(items, 0) && !DoublesAt(items, 1);
    NoRepeatExact(items);
  }

  /** Each number is recorded with its tag, and nothing else is. */
  ghost predicate Recorded(numbers: seq<nat>, tags: seq<Tag>, blocks: map<nat, Tag>) {
    && |numbers| == |tags| && (forall b :: b in blocks <==> b in numbers)
    && forall i :: 0 <= i < |numbers| ==> numbers[i] in blocks && blocks[numbers[i]] == tags[i]
  }

  lemma RecordedSnoc(numbers: seq<nat>, tags: seq<Tag>, blocks: map<nat, Tag>, b: nat, tag: Tag)
    requires Recorded(numbers, tags, blocks) && b !in numbers
    ensures Recorded(numbers + [b], tags + [tag], blocks[b := tag])
  {
  }

  predicate InList(f: Item) {
    f.inum < LIST_SIZE && forall i :: 0 <= i < |f.blocks| ==> f.blocks[i] < LIST_SIZE
  }

  class Builder {
    var blockmap: Words              // the bitmap being built
    var blocks: map<nat, Tag>        // what each block will hold
    var doubled: bool                // a double count was printed
    ghost var bits: Page
    ghost var seen: seq<nat>         // every number marked so far, superblock and bitmap first
    ghost var tags: seq<Tag>

    ghost predicate Valid()
      reads this
    {
      && blockmap == AsWords(bits)
      && |seen| >= 2 && seen[0] == 0 && seen[1] == 1
      && (forall i :: 0 <= i < |seen| ==> seen[i] < LIST_SIZE)
      && (forall b: nat :: b in Used(bits) <==> b in seen)
      && |seen| == |tags| + 2 && (NoRepeat(seen) ==> Recorded(seen[2..], tags, blocks))
    }

    constructor ()
      ensures Valid() && seen == [0, 1] && tags == [] && !doubled
    {
      var zero: Page := seq(BLOCK_SIZE, _ => 0);
      var none: Words := seq(NUM_WORDS, _ => 0);
      ZeroWords(zero, none);
      BitEdits(zero, 0);
      BitEdits(SetBit(zero, 0), 1);
      SameSet(zero, 0);
      SameSet(SetBit(zero, 0), 1);
      blockmap := Set(Set(none, 0, true), 1, true);
      bits := SetBit(SetBit(zero, 0), 1);
      blocks := map[];
      doubled := false;
      seen, tags := [0, 1], [];
    }

    /** Mark block b, with the check made for blocks but not for inode numbers, and record what
        it will hold. */
    method Mark(b: nat, tag: Tag)
      requires Valid() && b < LIST_SIZE
      modifies this
      ensures Valid() && seen == old(seen) + [b] && tags == old(tags) + [tag]
      ensures doubled == (old(doubled) || (tag.Part? && b in old(seen)))
    {
      hide AsWords, Set, SetBit, Used, Get, BitTest;
      NoRepeatSnoc(seen, b);
      SameSet(bits, b);
      BitEdits(bits, b);
      SameView(bits, b);
      UsedIs(bits, b);
      if NoRepeat(seen) && b !in seen {
        RecordedSnoc(seen[2..], tags, blocks, b, tag);
      }
      assert (seen + [b])[2..] == seen[2..] + [b];
      if tag.Part? && Get(blockmap, b) {
        doubled := true;
      }
      blockmap := Set(blockmap, b, true);
      bits := SetBit(bits, b);
      blocks := blocks[b := tag];
      seen, tags := seen + [b], tags + [tag];
    }

    /** The inode number of item k and then its blocks. */
    method AddItem(f: Item, k: nat)
      requires Valid() && InList(f)
      modifies this
      ensures Valid() && seen == old(seen) + Numbers(f) && tags == old(tags) + TagsOf(f, k)
      ensures doubled == (old(doubled) || DoubledBy(old(seen), f))
    {
      hide Valid;
      Mark(f.inum, Head(k));
      var i := 0;
      assert [f.inum] == Numbers(f)[..1] && [Head(k)] == TagsOf(f, k)[..1];
      while i < |f.blocks|
        invariant i <= |f.blocks| && Valid()
        invariant seen == old(seen) + Numbers(f)[..i + 1] && tags == old(tags) + TagsOf(f, k)[..i + 1]
        invariant doubled == (old(doubled) || exists j :: 0 <= j < i && f.blocks[j] in old(seen) + Numbers(f)[..j + 1])
      {
        Mark(f.blocks[i], Part(k, i));
        assert Numbers(f)[..i + 1] + [f.blocks[i]] == Numbers(f)[..i + 2];
        assert TagsOf(f, k)[..i + 1] + [Part(k, i)] == TagsOf(f, k)[..i + 2];
        i := i + 1;
      }
      assert Numbers(f)[..i + 1] == Numbers(f) && TagsOf(f, k)[..i + 1] == TagsOf(f, k);
    }

    /** The loop over the files and directories. */
    method Fill(items: seq<Item>)
      requires Valid() && seen == [0, 1] && tags == [] && !doubled
      requires forall k :: 0 <= k < |items| ==> InList(items[k])
      modifies this
      ensures Valid() && seen == Order(items) && tags == AllTags(items)
      ensures doubled == PrintedDouble(items)
    {
      hide Valid, DoubledBy, PrintedDouble, InodeTaken;
      var k := 0;
      NothingDouble();
      assert items[..0] == [];
      while k < |items|
        invariant k <= |items| && Valid()
        invariant seen == Order(items[..k]) && tags == AllTags(items[..k])
        invariant doubled == PrintedDouble(items[..k])
      {
        AddItem(items[k], k);
        assert items[..k + 1][..k] == items[..k];
        Longer(items[..k + 1]);
        k := k + 1;
      }
      assert items[..k] == items;
    }
  }

  lemma UsedIs(bits: Page, b: nat)
    requires b < NUM_BLOCKS
    ensures b in Used(bits) <==> BitTest(bits, b)
  {
  }

  /** The image builder marks exactly superblock, bitmap and every number of the description, and
      prints a double count exactly when a block occurs earlier in the order; when no number occurs
      twice, each listed block is recorded for the one item and index that names it. */
  method Build(items: seq<Item>) returns (b: Builder)
    requires forall k :: 0 <= k < |items| ==> InList(items[k])
    ensures Marked(b.blockmap) == set n | n in Order(items)
    ensures b.doubled == PrintedDouble(items)
    ensures NoRepeat(Order(items)) ==> Recorded(AllNumbers(items), AllTags(items), b.blocks)
  {
    b := new Builder();
    b.Fill(items);
    SameMarked(b.bits);
    assert b.seen[2..] == AllNumbers(items);
  }

  lemma ZeroWords(zero: Page, none: Words)
    requires (forall i :: 0 <= i < BLOCK_SIZE ==> zero[i] == 0) && (forall w :: 0 <= w < NUM_WORDS ==> none[w] == 0)
    ensures AsWords(zero) == none && Used(zero) == {}
  {
    forall w | 0 <= w < NUM_WORDS ensures AsWords(zero)[w] == 0 {
      assert Join(0, 0, 0, 0) == 0;
    }
    forall i: nat | i < NUM_BLOCKS ensures !BitTest(zero, i) {
      assert zero[i / 8] == 0;
    }
  }
}
