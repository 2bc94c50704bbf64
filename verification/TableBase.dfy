/** The register that holds the table base, and the architectural translation from there. */
module TableBase {
  import opened Bits
  import opened GuestMemory
  import opened PageWalk
  import opened Architecture
  import opened TlbModel
  import opened SmallTables

  /** The architecture's table base: bits 12 and up of the register. */
  function TableBase(cr3: nat): (t: nat)
    ensures t % 0x1000 == 0
  {
    cr3 / 0x1000 * 0x1000
  }

  /** `dirBase &= ~0xf`. */
  lemma MaskIsAnd(dirBase: U64)
    ensures MaskDirBase(dirBase) == And(dirBase, Not64(0xf))
  {
    DirBaseMask(dirBase);
  }

  lemma MaskedBase(cr3: nat)
    ensures MaskDirBase(cr3) == TableBase(cr3) + cr3 / 16 % 256 * 16
  {
    Digits(cr3, 16, 256);
    DivDef(cr3, 16);
    DivDef(cr3 / 16, 256);
  }

  /** The walk starts at the architecture's first entry exactly when bits 4 to 11 of the register are
      clear: the code masks only the four below. */
  lemma RootIsArchitecturalExactly(cr3: nat, a: nat)
    requires cr3 < 0x10_0000_0000_0000
    ensures RootEntry(MaskDirBase(cr3), a) == EntryIn(TableBase(cr3), a, 0) <==> cr3 / 16 % 256 == 0
  {
    MaskedBase(cr3);
    hide MaskDirBase, Index;
    assert TableBase(cr3) <= cr3;
  }

  /** On tables whose pointers fit the code's 36-bit mask, and with bits 4 to 11 of the register clear,
      the code's result is the architectural one exactly when the last entry read meets `LeafFits`. */
  lemma WalkIsArchitectural(m: Mem, cr3: nat, a: nat)
    requires cr3 < 0x10_0000_0000_0000 && cr3 / 16 % 256 == 0
    requires PointersFit(m, 0, TableBase(cr3), a)
    ensures var base := TableBase(cr3);
            var last := LastEntry(m, 0, base, a);
            Walk(m, MaskDirBase(cr3), a).Value() == Translation(m, 0, base, a).Value() <==> LeafFits(last.0, last.1, a)
  {
    hide RootEntry, EntryIn, PointersFit, LastEntry, ArchFrom, Translation, WalkFrom, LeafFits, MaskDirBase, TableBase;
    RootIsArchitecturalExactly(cr3, a);
    WalkAgreesFrom(m, 0, TableBase(cr3), a);
    ArchIsTranslation(m, 0, TableBase(cr3), a);
  }

  /** Tables that the architecture translates as the code means to: pointers and last entry fit. */
  predicate WellMade(m: Mem, base: nat, a: nat)
    requires base % 0x1000 == 0
  {
    PointersFit(m, 0, base, a) &&
    var last := LastEntry(m, 0, base, a);
    LeafFits(last.0, last.1, a)
  }

  /** Tables on which a register with one of these bits set is walked from the wrong entry: the page
      at 0 is not mapped, and the code translates it. */
  lemma WrongBase(cr3: nat) returns (m: Mem)
    requires cr3 < 0x10_0000_0000_0000 && cr3 / 16 % 256 != 0
    ensures WellMade(m, TableBase(cr3), 0)
    ensures Translation(m, 0, TableBase(cr3), 0) == Fault && Walk(m, MaskDirBase(cr3), 0) == Phys(0x4000_0000)
  {
    var root, other := RootEntry(MaskDirBase(cr3), 0), EntryIn(TableBase(cr3), 0, 0);
    var table := FreeTable(root, other);
    var leaf := EntryIn(table, 0, 1);
    m := Tables(root, table, leaf);
    RootIsArchitecturalExactly(cr3, 0);
    RootAligned(MaskDirBase(cr3), 0);
    EntryInPage(table, 0);
    RootWord(root, table, leaf);
    LeafWord(root, table, leaf);
    OtherWord(root, table, leaf, other);
    hide Tables, FreeTable, EntryIn, RootEntry, MaskDirBase, TableBase, ReadU64;
    AbsentIsFault(m, TableBase(cr3), 0);
    ArchIsTranslation(m, 0, TableBase(cr3), 0);
    MappedByTwo(m, MaskDirBase(cr3), 0, table);
  }

  lemma AbsentIsFault(m: Mem, base: nat, a: nat)
    requires base % 0x1000 == 0 && ReadU64(m, EntryIn(base, a, 0)) == 0
    ensures ArchFrom(m, 0, base, a) == Fault && WellMade(m, base, a)
  {
    hide ReadU64, EntryIn;
  }

  /** Translations are architectural on all well-made tables exactly when bits 4 to 11 of the register
      are clear. */
  lemma BaseIsArchitecturalExactly(cr3: nat)
    requires cr3 < 0x10_0000_0000_0000
    ensures (forall m: Mem, a: nat :: WellMade(m, TableBase(cr3), a) ==>
               Walk(m, MaskDirBase(cr3), a).Value() == Translation(m, 0, TableBase(cr3), a).Value())
            <==> cr3 / 16 % 256 == 0
  {
    hide Walk, Translation, MaskDirBase, TableBase, PointersFit, LastEntry, LeafFits;
    if cr3 / 16 % 256 == 0 {
      forall m: Mem, a: nat | WellMade(m, TableBase(cr3), a)
        ensures Walk(m, MaskDirBase(cr3), a).Value() == Translation(m, 0, TableBase(cr3), a).Value()
      {
        WalkIsArchitectural(m, cr3, a);
      }
    } else {
      var m := WrongBase(cr3);
      assert Walk(m, MaskDirBase(cr3), 0).Value() != Translation(m, 0, TableBase(cr3), 0).Value();
    }
  }
}
