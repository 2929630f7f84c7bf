/** The block bitmap, bit by bit: bytes as fs5600.c sees them, 32-bit words as diskfmt.py does. */
module Bitmaps {
  import opened Bits
  import opened Layout

  // ---------- Bytes ----------

  function Mask8(k: nat): bv8
    requires k < 8
  {
    1 << k
  }

  predicate Hit8(b: bv8, m: bv8) { b & m != 0 }
  function Put8(b: bv8, m: bv8): bv8 { b | m }
  function Cut8(b: bv8, m: bv8): bv8 { b & !m }

  predicate BitTest(bits: Page, i: nat)
    requires i < NUM_BLOCKS
  {
    Hit8(bits[i / 8], Mask8(i % 8))
  }

  /** The block numbers whose bit is set. */
  function Used(bits: Page): set<nat> {
    set i: nat | i < NUM_BLOCKS && BitTest(bits, i)
  }

  lemma Masks8(b: bv8, j: nat, k: nat)
    requires j < 8 && k < 8
    ensures (b | Mask8(k)) & Mask8(j) != 0 <==> j == k || b & Mask8(j) != 0
    ensures (b & !Mask8(k)) & Mask8(j) != 0 <==> j != k && b & Mask8(j) != 0
  {
    assert j == 0 || j == 1 || j == 2 || j == 3 || j == 4 || j == 5 || j == 6 || j == 7;
    assert k == 0 || k == 1 || k == 2 || k == 3 || k == 4 || k == 5 || k == 6 || k == 7;
  }

  function SetBit(bits: Page, i: nat): Page
    requires i < NUM_BLOCKS
  {
    bits[i / 8 := Put8(bits[i / 8], Mask8(i % 8))]
  }

  function ClearBit(bits: Page, i: nat): Page
    requires i < NUM_BLOCKS
  {
    bits[i / 8 := Cut8(bits[i / 8], Mask8(i % 8))]
  }

  /** Setting or clearing bit k of a byte does so for that bit only. */
  lemma ByteEdits(b: bv8, j: nat, k: nat)
    requires j < 8 && k < 8
    ensures Hit8(Put8(b, Mask8(k)), Mask8(j)) <==> j == k || Hit8(b, Mask8(j))
    ensures Hit8(Cut8(b, Mask8(k)), Mask8(j)) <==> j != k && Hit8(b, Mask8(j))
  {
    Masks8(b, j, k);
  }

  lemma SetEdits(bits: Page, i: nat)
    requires i < NUM_BLOCKS
    ensures Used(SetBit(bits, i)) == Used(bits) + {i}
  {
    hide Hit8, Put8, Cut8, Mask8;
    forall j: nat | j < NUM_BLOCKS ensures BitTest(SetBit(bits, i), j) <==> j == i || BitTest(bits, j) {
      if j / 8 == i / 8 {
        ByteEdits(bits[i / 8], j % 8, i % 8);
      }
    }
  }

  lemma ClearEdits(bits: Page, i: nat)
    requires i < NUM_BLOCKS
    ensures Used(ClearBit(bits, i)) == Used(bits) - {i}
  {
    hide Hit8, Put8, Cut8, Mask8;
    forall j: nat | j < NUM_BLOCKS ensures BitTest(ClearBit(bits, i), j) <==> j != i && BitTest(bits, j) {
      if j / 8 == i / 8 {
        ByteEdits(bits[i / 8], j % 8, i % 8);
      }
    }
  }

  /** Setting or clearing a bit changes that element of the set and no other. */
  lemma BitEdits(bits: Page, i: nat)
    requires i < NUM_BLOCKS
    ensures Used(SetBit(bits, i)) == Used(bits) + {i}
    ensures Used(ClearBit(bits, i)) == Used(bits) - {i}
  {
    hide Used, SetBit, ClearBit;
    SetEdits(bits, i);
    ClearEdits(bits, i);
  }

  method BitSet(bits: array<bv8>, i: nat)
    requires bits.Length == BLOCK_SIZE && i < NUM_BLOCKS
    modifies bits
    ensures Used(bits[..]) == old(Used(bits[..])) + {i}
  {
    ghost var before := bits[..];
    bits[i / 8] := bits[i / 8] | Mask8(i % 8);
    assert bits[..] == SetBit(before, i);
    BitEdits(before, i);
  }

  method BitClear(bits: array<bv8>, i: nat)
    requires bits.Length == BLOCK_SIZE && i < NUM_BLOCKS
    modifies bits
    ensures Used(bits[..]) == old(Used(bits[..])) - {i}
  {
    ghost var before := bits[..];
    bits[i / 8] := bits[i / 8] & !Mask8(i % 8);
    assert bits[..] == ClearBit(before, i);
    BitEdits(before, i);
  }

  lemma SameByte(b: bv8, c: bv8)
    requires forall k :: 0 <= k < 8 ==> (b & Mask8(k) != 0 <==> c & Mask8(k) != 0)
    ensures b == c
  {
    assert Mask8(0) == 1 && Mask8(1) == 2 && Mask8(2) == 4 && Mask8(3) == 8;
    assert Mask8(4) == 16 && Mask8(5) == 32 && Mask8(6) == 64 && Mask8(7) == 128;
  }

  /** Two bitmaps that mark the same blocks are the same bit for bit. */
  lemma SameBits(bits: Page, bits': Page)
    requires Used(bits) == Used(bits')
    ensures bits == bits'
  {
    forall q | 0 <= q < BLOCK_SIZE ensures bits[q] == bits'[q] {
      forall k | 0 <= k < 8 ensures bits[q] & Mask8(k) != 0 <==> bits'[q] & Mask8(k) != 0 {
        var i := 8 * q + k;
        assert i / 8 == q && i % 8 == k;
        assert i in Used(bits) <==> BitTest(bits, i);
        assert i in Used(bits') <==> BitTest(bits', i);
      }
      SameByte(bits[q], bits'[q]);
    }
  }

  lemma UsedHit(bits: Page, i: nat)
    requires i < NUM_BLOCKS
    ensures i in Used(bits) <==> Hit8(bits[i / 8], Mask8(i % 8))
  {
    hide Hit8, Mask8;
    assert i in Used(bits) <==> BitTest(bits, i);
  }

  lemma HitByte(b: bv8, k: nat)
    requires k < 8
    ensures Hit8(b, Mask8(k)) <==> BitOf(b as int, k)
  {
    hide BitOf;
    ByteBit(b, k);
  }

  /** Block i is marked exactly when bit i % 8 of byte i / 8 is set, counting from the lowest. */
  lemma UsedExact(bits: Page, i: nat)
    requires i < NUM_BLOCKS
    ensures i in Used(bits) <==> (bits[i / 8] as int / Pow2(i % 8)) % 2 == 1
  {
    hide Hit8, Mask8, Used;
    UsedHit(bits, i);
    HitByte(bits[i / 8], i % 8);
  }

  // ---------- Words ----------

  const NUM_WORDS: nat := BLOCK_SIZE / 4

  type Words = s: seq<bv32> | |s| == NUM_WORDS witness seq(NUM_WORDS, _ => 0)

  /** Word w of a bitmap block read as little-endian 32-bit words. */
  function WordAt(bits: Page, w: nat): bv32
    requires w < NUM_WORDS
  {
    Join(bits[4 * w], bits[4 * w + 1], bits[4 * w + 2], bits[4 * w + 3])
  }

  function AsWords(bits: Page): Words {
    seq(NUM_WORDS, w requires 0 <= w < NUM_WORDS => WordAt(bits, w))
  }

  function Mask32(k: nat): bv32
    requires k < 32
  {
    1 << k
  }

  predicate Hit32(v: bv32, m: bv32) { v & m != 0 }
  function Put32(v: bv32, m: bv32): bv32 { v | m }
  function Cut32(v: bv32, m: bv32): bv32 { v & (m ^ 0xFFFF_FFFF) }

  /** bitmap.get of diskfmt.py. */
  predicate Get(vals: Words, i: nat)
    requires i < NUM_BLOCKS
  {
    Hit32(vals[i / 32], Mask32(i % 32))
  }

  /** bitmap.set of diskfmt.py. */
  function Set(vals: Words, i: nat, val: bool): Words
    requires i < NUM_BLOCKS
  {
    var mask := Mask32(i % 32);
    var n := vals[i / 32];
    vals[i / 32 := if val then Put32(n, mask) else Cut32(n, mask)]
  }

  /** The mask of bit 8 * lane + k of a word is the mask of bit k of its byte `lane`. */
  lemma WideMask(k: nat)
    requires k < 8
    ensures Mask32(k) == Mask8(k) as bv32
    ensures Mask32(8 + k) == (Mask8(k) as bv32) << 8
    ensures Mask32(16 + k) == (Mask8(k) as bv32) << 16
    ensures Mask32(24 + k) == (Mask8(k) as bv32) << 24
  {
    assert k == 0 || k == 1 || k == 2 || k == 3 || k == 4 || k == 5 || k == 6 || k == 7;
  }

  function Join(b0: bv8, b1: bv8, b2: bv8, b3: bv8): bv32 {
    (b0 as bv32) | ((b1 as bv32) << 8) | ((b2 as bv32) << 16) | ((b3 as bv32) << 24)
  }

  lemma LaneHits(b0: bv8, b1: bv8, b2: bv8, b3: bv8, m: bv8)
    ensures Hit32(Join(b0, b1, b2, b3), m as bv32) <==> Hit8(b0, m)
    ensures Hit32(Join(b0, b1, b2, b3), (m as bv32) << 8) <==> Hit8(b1, m)
    ensures Hit32(Join(b0, b1, b2, b3), (m as bv32) << 16) <==> Hit8(b2, m)
    ensures Hit32(Join(b0, b1, b2, b3), (m as bv32) << 24) <==> Hit8(b3, m)
  {
  }

  lemma PutLane0(b0: bv8, b1: bv8, b2: bv8, b3: bv8, m: bv8)
    ensures Put32(Join(b0, b1, b2, b3), m as bv32) == Join(Put8(b0, m), b1, b2, b3)
  {
  }

  lemma PutLane1(b0: bv8, b1: bv8, b2: bv8, b3: bv8, m: bv8)
    ensures Put32(Join(b0, b1, b2, b3), (m as bv32) << 8) == Join(b0, Put8(b1, m), b2, b3)
  {
  }

  lemma PutLane2(b0: bv8, b1: bv8, b2: bv8, b3: bv8, m: bv8)
    ensures Put32(Join(b0, b1, b2, b3), (m as bv32) << 16) == Join(b0, b1, Put8(b2, m), b3)
  {
  }

  lemma PutLane3(b0: bv8, b1: bv8, b2: bv8, b3: bv8, m: bv8)
    ensures Put32(Join(b0, b1, b2, b3), (m as bv32) << 24) == Join(b0, b1, b2, Put8(b3, m))
  {
  }

  lemma CutLane0(b0: bv8, b1: bv8, b2: bv8, b3: bv8, m: bv8)
    ensures Cut32(Join(b0, b1, b2, b3), m as bv32) == Join(Cut8(b0, m), b1, b2, b3)
  {
  }

  lemma CutLane1(b0: bv8, b1: bv8, b2: bv8, b3: bv8, m: bv8)
    ensures Cut32(Join(b0, b1, b2, b3), (m as bv32) << 8) == Join(b0, Cut8(b1, m), b2, b3)
  {
  }

  lemma CutLane2(b0: bv8, b1: bv8, b2: bv8, b3: bv8, m: bv8)
    ensures Cut32(Join(b0, b1, b2, b3), (m as bv32) << 16) == Join(b0, b1, Cut8(b2, m), b3)
  {
  }

  lemma CutLane3(b0: bv8, b1: bv8, b2: bv8, b3: bv8, m: bv8)
    ensures Cut32(Join(b0, b1, b2, b3), (m as bv32) << 24) == Join(b0, b1, b2, Cut8(b3, m))
  {
  }

  /** The mask of bit k of byte `lane` within a word, from its mask within the byte. */
  function LaneMask(lane: nat, m: bv8): bv32 {
    match lane
    case 0 => m as bv32
    case 1 => (m as bv32) << 8
    case 2 => (m as bv32) << 16
    case _ => (m as bv32) << 24
  }

  lemma LaneMasks(lane: nat, k: nat)
    requires lane < 4 && k < 8
    ensures Mask32(8 * lane + k) == LaneMask(lane, Mask8(k))
  {
    hide Mask8, Mask32;
    WideMask(k);
    assert lane == 0 || lane == 1 || lane == 2 || lane == 3;
  }

  /** The word made of bytes b. */
  function JoinAll(b: seq<bv8>): bv32
    requires |b| == 4
  {
    Join(b[0], b[1], b[2], b[3])
  }

  /** Testing, setting and clearing one bit of a word is doing so in one of its bytes. */
  lemma LaneEdits(b: seq<bv8>, lane: nat, m: bv8)
    requires |b| == 4 && lane < 4
    ensures Hit32(JoinAll(b), LaneMask(lane, m)) <==> Hit8(b[lane], m)
    ensures Put32(JoinAll(b), LaneMask(lane, m)) == JoinAll(b[lane := Put8(b[lane], m)])
    ensures Cut32(JoinAll(b), LaneMask(lane, m)) == JoinAll(b[lane := Cut8(b[lane], m)])
  {
    hide Join, Hit32, Hit8, Put32, Put8, Cut32, Cut8;
    LaneHits(b[0], b[1], b[2], b[3], m);
    if lane == 0 {
      PutLane0(b[0], b[1], b[2], b[3], m);
      CutLane0(b[0], b[1], b[2], b[3], m);
    } else if lane == 1 {
      PutLane1(b[0], b[1], b[2], b[3], m);
      CutLane1(b[0], b[1], b[2], b[3], m);
    } else if lane == 2 {
      PutLane2(b[0], b[1], b[2], b[3], m);
      CutLane2(b[0], b[1], b[2], b[3], m);
    } else {
      PutLane3(b[0], b[1], b[2], b[3], m);
      CutLane3(b[0], b[1], b[2], b[3], m);
    }
  }

  /** The four bytes of word w. */
  function BytesAt(bits: Page, w: nat): seq<bv8>
    requires w < NUM_WORDS
  {
    bits[4 * w..4 * w + 4]
  }

  lemma WordIs(bits: Page, w: nat)
    requires w < NUM_WORDS
    ensures AsWords(bits)[w] == JoinAll(BytesAt(bits, w))
  {
    hide Join;
  }

  /** Where bit i of the bitmap lies in bytes and in words. */
  lemma Position(i: nat)
    requires i < NUM_BLOCKS
    ensures i / 32 < NUM_WORDS && i / 8 == 4 * (i / 32) + i % 32 / 8 && i % 32 / 8 < 4
    ensures i % 32 == 8 * (i % 32 / 8) + i % 8
  {
  }

  /** The Python word view and the C byte view read the same bit for every block. */
  lemma SameView(bits: Page, i: nat)
    requires i < NUM_BLOCKS
    ensures Get(AsWords(bits), i) <==> BitTest(bits, i)
  {
    hide Mask8, Mask32, JoinAll, AsWords, LaneMask, Hit8, Hit32, Put8, Put32, Cut8, Cut32;
    var w, lane := i / 32, i % 32 / 8;
    Position(i);
    WordIs(bits, w);
    LaneMasks(lane, i % 8);
    LaneEdits(BytesAt(bits, w), lane, Mask8(i % 8));
    assert BytesAt(bits, w)[lane] == bits[i / 8];
  }

  lemma EditedBytes(bits: Page, i: nat, b: bv8)
    requires i < NUM_BLOCKS
    ensures var w, lane := i / 32, i % 32 / 8;
            BytesAt(bits[i / 8 := b], w) == BytesAt(bits, w)[lane := b]
    ensures forall w :: 0 <= w < NUM_WORDS && w != i / 32 ==> BytesAt(bits[i / 8 := b], w) == BytesAt(bits, w)
  {
    Position(i);
  }

  lemma SameSetAt(bits: Page, i: nat, v: nat)
    requires i < NUM_BLOCKS && v < NUM_WORDS
    ensures Set(AsWords(bits), i, true)[v] == AsWords(SetBit(bits, i))[v]
    ensures Set(AsWords(bits), i, false)[v] == AsWords(ClearBit(bits, i))[v]
  {
    hide Mask8, Mask32, JoinAll, AsWords, LaneMask, Hit8, Hit32, Put8, Put32, Cut8, Cut32;
    var w, lane, m := i / 32, i % 32 / 8, Mask8(i % 8);
    Position(i);
    LaneMasks(lane, i % 8);
    WordIs(bits, v);
    WordIs(SetBit(bits, i), v);
    WordIs(ClearBit(bits, i), v);
    EditedBytes(bits, i, Put8(bits[i / 8], m));
    EditedBytes(bits, i, Cut8(bits[i / 8], m));
    assert BytesAt(bits, w)[lane] == bits[i / 8];
    LaneEdits(BytesAt(bits, w), lane, m);
  }

  /** bitmap.set of diskfmt.py on the words is bit_set or bit_clear of fs5600.c on the bytes. */
  lemma SameSet(bits: Page, i: nat)
    requires i < NUM_BLOCKS
    ensures Set(AsWords(bits), i, true) == AsWords(SetBit(bits, i))
    ensures Set(AsWords(bits), i, false) == AsWords(ClearBit(bits, i))
  {
    hide Set, SetBit, ClearBit, AsWords;
    forall v | 0 <= v < NUM_WORDS
      ensures Set(AsWords(bits), i, true)[v] == AsWords(SetBit(bits, i))[v]
      ensures Set(AsWords(bits), i, false)[v] == AsWords(ClearBit(bits, i))[v]
    {
      SameSetAt(bits, i, v);
    }
  }

  /** The set of blocks diskfmt.py sees as marked. */
  function Marked(vals: Words): set<nat> {
    set i: nat | i < NUM_BLOCKS && Get(vals, i)
  }

  /** Both views denote one set of blocks, and the two setters change it alike. */
  lemma SameSets(bits: Page, i: nat)
    requires i < NUM_BLOCKS
    ensures Marked(AsWords(bits)) == Used(bits)
    ensures Marked(Set(AsWords(bits), i, true)) == Used(bits) + {i}
    ensures Marked(Set(AsWords(bits), i, false)) == Used(bits) - {i}
  {
    hide Get, BitTest, Set, SetBit, ClearBit, AsWords;
    SameSet(bits, i);
    BitEdits(bits, i);
    SameMarked(bits);
    SameMarked(SetBit(bits, i));
    SameMarked(ClearBit(bits, i));
  }

  lemma SameMarked(bits: Page)
    ensures Marked(AsWords(bits)) == Used(bits)
  {
    hide Get, BitTest, AsWords;
    forall i: nat | i < NUM_BLOCKS ensures Get(AsWords(bits), i) <==> BitTest(bits, i) {
      SameView(bits, i);
    }
  }

  lemma MarkedHit(vals: Words, i: nat)
    requires i < NUM_BLOCKS
    ensures i in Marked(vals) <==> Hit32(vals[i / 32], Mask32(i % 32))
  {
    hide Hit32, Mask32;
    assert i in Marked(vals) <==> Get(vals, i);
  }

  lemma HitWord(v: bv32, k: nat)
    requires k < 32
    ensures Hit32(v, Mask32(k)) <==> BitOf(v as int, k)
  {
    hide Hit32, Mask32, Hit, BitOf;
    SameHit(v, k);
    HitBit(v, k);
  }

  lemma SameHit(v: bv32, k: nat)
    requires k < 32
    ensures Hit32(v, Mask32(k)) <==> Hit(v, k)
  {
  }

  /** diskfmt.py sees block i as marked exactly when bit i % 32 of word i / 32 is set. */
  lemma MarkedExact(vals: Words, i: nat)
    requires i < NUM_BLOCKS
    ensures i in Marked(vals) <==> (vals[i / 32] as int / Pow2(i % 32)) % 2 == 1
  {
    hide Hit32, Mask32, Marked;
    MarkedHit(vals, i);
    HitWord(vals[i / 32], i % 32);
  }

  /** A word of the bitmap block is its four bytes, the lowest first. */
  lemma WordValue(bits: Page, w: nat)
    requires w < NUM_WORDS
    ensures AsWords(bits)[w] as int ==
              bits[4 * w] as int + 0x100 * bits[4 * w + 1] as int
              + 0x1_0000 * bits[4 * w + 2] as int + 0x100_0000 * bits[4 * w + 3] as int
  {
    JoinValue(bits[4 * w], bits[4 * w + 1], bits[4 * w + 2], bits[4 * w + 3]);
  }

  lemma Pair16(h: bv8, l: bv8)
    ensures (((h as bv16) << 8) | (l as bv16)) as int == 0x100 * h as int + l as int
  {
  }

  lemma Pair32(h: bv16, l: bv16)
    ensures (((h as bv32) << 16) | (l as bv32)) as int == 0x1_0000 * h as int + l as int
  {
  }

  lemma JoinPairs(b0: bv8, b1: bv8, b2: bv8, b3: bv8)
    ensures var h, l := ((b3 as bv16) << 8) | (b2 as bv16), ((b1 as bv16) << 8) | (b0 as bv16);
            Join(b0, b1, b2, b3) == ((h as bv32) << 16) | (l as bv32)
  {
  }

  lemma JoinValue(b0: bv8, b1: bv8, b2: bv8, b3: bv8)
    ensures Join(b0, b1, b2, b3) as int == b0 as int + 0x100 * b1 as int + 0x1_0000 * b2 as int + 0x100_0000 * b3 as int
  {
    hide Join;
    JoinPairs(b0, b1, b2, b3);
    Pair16(b3, b2);
    Pair16(b1, b0);
    Pair32(((b3 as bv16) << 8) | (b2 as bv16), ((b1 as bv16) << 8) | (b0 as bv16));
  }
}
