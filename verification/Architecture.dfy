/** 4-level paging as the architecture states it, in bit fields (Intel SDM Volume 3A, section 4.5): the
    reference for the page walk. `BitsOf(x, 51, 12)` is the manual's "bits 51:12 of x". */
module Architecture {
  import opened Bits
  import opened GuestMemory
  import opened PageWalk

  function BitsOf(x: nat, hi: nat, lo: nat): nat
    requires lo <= hi
  {
    x / Pow2(lo) % Pow2(hi + 1 - lo)
  }

  /** Bits 11:3 of an entry's address come from nine bits of the linear address, 47:39 at the top
      level and 20:12 at the last. */
  function EntryAddress(table: nat, a: nat, level: nat): nat
    requires level < 4
  {
    table + 8 * BitsOf(a, 47 - 9 * level, 39 - 9 * level)
  }

  /** The translation from the table at `table` on: P is bit 0, PS is bit 7, the next table is in bits
      51:12, and reserved bits fault. */
  function Translation(m: Mem, level: nat, table: nat, a: nat): Outcome
    requires level < 4
    decreases 4 - level
  {
    var e := ReadU64(m, EntryAddress(table, a, level));
    if BitsOf(e, 0, 0) == 0 then Fault
    else if level == 3 || BitsOf(e, 7, 7) == 1 then Leaf(level, e, a)
    else Translation(m, level + 1, BitsOf(e, 51, 12) * Pow2(12), a)
  }

  /** 4 KB, 2 MB and 1 GB pages; there are no larger ones. */
  function Leaf(level: nat, e: nat, a: nat): Outcome {
    if level == 3 then Phys(BitsOf(e, 51, 12) * Pow2(12) + BitsOf(a, 11, 0))
    else if level == 2 && BitsOf(e, 20, 13) == 0 then Phys(BitsOf(e, 51, 21) * Pow2(21) + BitsOf(a, 20, 0))
    else if level == 1 && BitsOf(e, 29, 13) == 0 then Phys(BitsOf(e, 51, 30) * Pow2(30) + BitsOf(a, 29, 0))
    else Fault
  }

  lemma FieldSizes()
    ensures Pow2(0) == 1 && Pow2(1) == 2 && Pow2(7) == 0x80 && Pow2(8) == 0x100 && Pow2(9) == 0x200
    ensures Pow2(12) == 0x1000 && Pow2(13) == 0x2000 && Pow2(17) == 0x2_0000 && Pow2(21) == 0x20_0000
    ensures Pow2(22) == 0x40_0000 && Pow2(30) == 0x4000_0000 && Pow2(31) == 0x8000_0000
    ensures Pow2(39) == 0x80_0000_0000 && Pow2(40) == 0x100_0000_0000
  {
    assert Pow2(8) == 0x100;
    PowSum(8, 9);
    PowSum(12, 9);
    PowSum(8, 4);
    PowSum(8, 5);
    PowSum(22, 9);
    PowSum(30, 9);
    PowSum(31, 9);
    PowSum(22, 8);
    PowSum(13, 9);
  }

  /** The table index: the shift and mask the code takes out of an address. */
  lemma IndexBits(a: nat, level: nat)
    requires level < 4
    ensures Index(a, level) == BitsOf(a, 47 - 9 * level, 39 - 9 * level)
    ensures Index(a, level) == And(a / Pow2(39 - 9 * level), 0x1ff)
  {
    FieldSizes();
    AndLow(a / Pow2(39 - 9 * level), 9);
  }

  lemma EntryAddressIs(table: nat, a: nat, level: nat)
    requires level < 4 && table % 0x1000 == 0
    ensures EntryAddress(table, a, level) == EntryIn(table, a, level)
  {
    IndexBits(a, level);
  }

  /** The two flag bits: the code tests `~e & 1` and `e & 0x80`. */
  lemma FlagBits(e: nat)
    ensures Present(e) <==> BitsOf(e, 0, 0) == 1
    ensures LargePage(e) <==> BitsOf(e, 7, 7) == 1
  {
    FieldSizes();
  }

  lemma FrameBits(e: nat)
    ensures Frame52(e) == BitsOf(e, 51, 12) * Pow2(12)
  {
    FieldSizes();
    Digits(e, 0x1000, 0x100_0000_0000);
  }

  lemma ReservedBits(level: nat, e: nat)
    requires level == 1 || level == 2
    ensures ReservedBitSet(level, e)
            <==> BitsOf(e, 7, 7) == 1 && BitsOf(e, if level == 1 then 29 else 20, 13) != 0
  {
    FieldSizes();
    FlagBits(e);
    hide LargePage;
  }

  lemma LeafBits(level: nat, e: nat, a: nat)
    requires 1 <= level < 4
    ensures var k := if level == 1 then 30 else if level == 2 then 21 else 12;
            LeafAddress(level, e, a) == BitsOf(e, 51, k) * Pow2(k) + BitsOf(a, k - 1, 0)
  {
    FieldSizes();
    if level == 1 {
      Digits(e, 0x4000_0000, 0x40_0000);
    } else if level == 2 {
      Digits(e, 0x20_0000, 0x8000_0000);
    } else {
      Digits(e, 0x1000, 0x100_0000_0000);
    }
  }

  lemma ArchStep(level: nat, e: nat, a: nat)
    requires level < 4
    ensures !Present(e) <==> BitsOf(e, 0, 0) == 0
    ensures level == 0 ==> (ReservedBitSet(level, e) <==> BitsOf(e, 7, 7) != 0)
    ensures !Present(e) || !IsLeaf(level, e)
            <==> BitsOf(e, 0, 0) == 0 || (level < 3 && (level == 0 || BitsOf(e, 7, 7) == 0))
    ensures level == 3 ==> !ReservedBitSet(level, e)
  {
    FlagBits(e);
    BitIsBinary(e, 0);
    BitIsBinary(e, 7);
    hide BitsOf, Present, LargePage;
  }

  lemma BitIsBinary(e: nat, k: nat)
    ensures BitsOf(e, k, k) < 2
  {
    FieldSizes();
  }

  /** The walk in the code's arithmetic is the architecture's translation. */
  lemma {:induction false} ArchIsTranslation(m: Mem, level: nat, table: nat, a: nat)
    requires level < 4 && table % 0x1000 == 0
    ensures ArchFrom(m, level, table, a) == Translation(m, level, table, a)
    decreases 4 - level
  {
    EntryAddressIs(table, a, level);
    var e := ReadU64(m, EntryIn(table, a, level));
    ArchStep(level, e, a);
    FrameBits(e);
    BitIsBinary(e, 7);
    if level == 1 || level == 2 { ReservedBits(level, e); }
    if level >= 1 { LeafBits(level, e, a); }
    hide BitsOf, Present, LargePage, Frame52, LeafAddress, EntryIn, EntryAddress, ReservedBitSet, IsLeaf, ReadU64, Pow2;
    if level < 3 { ArchIsTranslation(m, level + 1, Frame52(e), a); }
  }

  // ---- From bytes ----

  /** The frame of a last-level entry, byte by byte: nothing above bit 11 of its low half is lost. */
  lemma FrameOfBytes(m: Mem, x: nat)
    ensures Frame36(ReadU64(m, x))
         == m(x + 1) / 16 * 0x1000 + m(x + 2) * 0x1_0000 + m(x + 3) * 0x100_0000 + m(x + 4) % 16 * 0x1_0000_0000
  {
    var b := Bytes(m, x, 8);
    WordIsBytes(m, x);
    hide ReadU64, Bytes;
    Unrolled(b);
    var high := LittleEndian(b[5..]);
    var rest := b[4] / 16 + 16 * high;
    FrameParts(b[0], b[1], b[2], b[3], b[4], high);
  }

  lemma Unrolled(b: seq<Byte>)
    requires |b| == 8
    ensures LittleEndian(b)
         == b[0] + 0x100 * b[1] + 0x1_0000 * b[2] + 0x100_0000 * b[3]
            + 0x1_0000_0000 * (b[4] + 0x100 * LittleEndian(b[5..]))
  {
    FourBytes(b);
    Unroll(b, 4);
    hide LittleEndian;
  }

  lemma FrameParts(b0: nat, b1: nat, b2: nat, b3: nat, b4: nat, high: nat)
    requires b0 < 0x100 && b1 < 0x100 && b2 < 0x100 && b3 < 0x100 && b4 < 0x100
    ensures Frame36(b0 + 0x100 * b1 + 0x1_0000 * b2 + 0x100_0000 * b3 + 0x1_0000_0000 * (b4 + 0x100 * high))
         == b1 / 16 * 0x1000 + b2 * 0x1_0000 + b3 * 0x100_0000 + b4 % 16 * 0x1_0000_0000
  {
    var low := b0 + b1 % 16 * 0x100;
    var mid := b1 / 16 + b2 * 16 + b3 * 0x1000 + b4 % 16 * 0x10_0000;
    var top := b4 / 16 + high * 16;
    var e := b0 + 0x100 * b1 + 0x1_0000 * b2 + 0x100_0000 * b3 + 0x1_0000_0000 * (b4 + 0x100 * high);
    assert e == (mid + top * 0x100_0000) * 0x1000 + low;
    DivUnique(e, 0x1000, mid + top * 0x100_0000, low);
    DivUnique(mid + top * 0x100_0000, 0x100_0000, top, mid);
  }

  /** So a page whose last-level entry is at x is translated to the frame these bytes name, above 4 GB
      as below. */
  lemma LastLevelOfBytes(ms: seq<Mem>, x: nat, a: nat)
    requires |ms| == 4
    ensures var m := ms[3];
            var frame := m(x + 1) / 16 * 0x1000 + m(x + 2) * 0x1_0000 + m(x + 3) * 0x100_0000
                         + m(x + 4) % 16 * 0x1_0000_0000;
            WalkFrom(ms, 3, x, a) == if frame == 0 then Fault else Phys(frame + a % 0x1000)
  {
    FrameOfBytes(ms[3], x);
    hide Frame36, ReadU64;
  }
}
