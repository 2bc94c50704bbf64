/** Page tables of two words, as witnesses. */
module SmallTables {
  import opened Bits
  import opened GuestMemory
  import opened PageWalk

  /** Two words that make a table: at `root` a pointer to the table at `table`, at `leaf` a 1 GB
      page at 0x4000_0000. */
  function Tables(root: nat, table: nat, leaf: nat): Mem
    requires table < 0x1_0000
  {
    (x: nat) =>
      if x == root then 1 else if x == root + 1 then table / 0x100
      else if x == leaf then 0x81 else if x == leaf + 3 then 0x40
      else 0
  }

  /** A word whose bytes above the fourth are zero. */
  lemma LowWord(m: Mem, x: nat, b0: Byte, b1: Byte, b3: Byte)
    requires m(x) == b0 && m(x + 1) == b1 && m(x + 3) == b3
    requires m(x + 2) == 0 && forall i :: x + 4 <= i < x + 8 ==> m(i) == 0
    ensures ReadU64(m, x) == (b0 as int) + 0x100 * (b1 as int) + 0x100_0000 * (b3 as int)
  {
    var b := Bytes(m, x, 8);
    assert Word16(b[..4][..2]) == (b0 as int) + 0x100 * (b1 as int);
    assert Word16(b[..4][2..]) == 0x100 * (b3 as int);
    assert Word16(b[4..][..2]) == 0 && Word16(b[4..][2..]) == 0;
  }

  /** Different aligned words do not overlap. */
  lemma WordsApart(x: nat, y: nat)
    requires x % 8 == 0 && y % 8 == 0 && x != y
    ensures x + 8 <= y || y + 8 <= x
  {
  }

  lemma RootWord(root: nat, table: nat, leaf: nat)
    requires table % 0x1000 == 0 && table < 0x1_0000
    requires root % 8 == 0 && leaf % 8 == 0 && root != leaf
    ensures ReadU64(Tables(root, table, leaf), root) == table + 1
  {
    WordsApart(root, leaf);
    hide ReadU64;
    LowWord(Tables(root, table, leaf), root, 1, table / 0x100, 0);
  }

  lemma LeafWord(root: nat, table: nat, leaf: nat)
    requires table < 0x1_0000 && root % 8 == 0 && leaf % 8 == 0 && root != leaf
    ensures ReadU64(Tables(root, table, leaf), leaf) == 0x4000_0081
  {
    WordsApart(root, leaf);
    hide ReadU64;
    LowWord(Tables(root, table, leaf), leaf, 0x81, 0, 0x40);
  }

  lemma OtherWord(root: nat, table: nat, leaf: nat, other: nat)
    requires table < 0x1_0000 && root % 8 == 0 && leaf % 8 == 0 && other % 8 == 0 && other != root && other != leaf
    ensures ReadU64(Tables(root, table, leaf), other) == 0
  {
    WordsApart(root, other);
    WordsApart(leaf, other);
    hide ReadU64;
    LowWord(Tables(root, table, leaf), other, 0, 0, 0);
  }

  lemma PointerStep(a: nat, table: nat)
    requires table % 0x1000 == 0 && table < 0x1_0000
    ensures After(0, a, table + 1) == Next(EntryIn(table, a, 1))
  {
    var e := table + 1;
    assert Present(e) && Frame36(e) == table;
    hide Present, LargePage, Frame36, FrameGb, Index;
  }

  lemma LeafStep(a: nat)
    ensures After(1, a, 0x4000_0081) == Done(Phys(0x4000_0000 + a % 0x4000_0000))
  {
    var e := 0x4000_0081;
    assert Present(e) && LargePage(e) && FrameGb(e) == 0x4000_0000;
    hide Present, LargePage, Frame36, FrameGb, EntryIn;
  }

  lemma AbsentFaults(a: nat)
    ensures After(0, a, 0) == Done(Fault)
  {
  }

  lemma EntryInPage(table: nat, a: nat)
    requires table % 0x1000 == 0
    ensures PageOf(EntryIn(table, a, 1)) == table
  {
    OffsetOfSum(table, 8 * Index(a, 1));
  }

  /** A page among the first few that holds neither address. */
  function FreeTable(x: nat, y: nat): (t: nat)
    ensures t % 0x1000 == 0 && t < 0x1_0000 && t != PageOf(x) && t != PageOf(y)
  {
    if PageOf(x) != 0x1000 && PageOf(y) != 0x1000 then 0x1000
    else if PageOf(x) != 0x2000 && PageOf(y) != 0x2000 then 0x2000
    else 0x3000
  }

  lemma MappedByTwo(m: Mem, d: nat, a: nat, table: nat)
    requires table % 0x1000 == 0 && table < 0x1_0000
    requires ReadU64(m, RootEntry(d, a)) == table + 1 && ReadU64(m, EntryIn(table, a, 1)) == 0x4000_0081
    ensures Walk(m, d, a) == Phys(0x4000_0000 + a % 0x4000_0000)
  {
    hide ReadU64, After, RootEntry, EntryIn;
    PointerStep(a, table);
    LeafStep(a);
    assert WalkFrom([m, m, m, m], 1, EntryIn(table, a, 1), a) == Phys(0x4000_0000 + a % 0x4000_0000);
  }

  lemma UnmappedByNone(m: Mem, d: nat, a: nat)
    requires ReadU64(m, RootEntry(d, a)) == 0
    ensures Walk(m, d, a) == Fault
  {
    hide ReadU64, After, RootEntry;
    AbsentFaults(a);
  }
}
