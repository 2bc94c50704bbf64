/** The four-level page walk: the code's own form of it, the architecture's form (Intel SDM
    Volume 3A, section 4.5, "4-Level Paging"), and what relates the two.

    `ms` gives one memory per level, because each level may be read at another moment. */
module PageWalk {
  import opened Bits
  import opened GuestMemory

  /** A walk ends without a translation or with a guest-physical address. */
  datatype Outcome = Fault | Phys(address: nat) {
    /** What the code returns: 0 stands for "no translation". */
    function Value(): nat {
      if Fault? then 0 else address
    }
  }

  /** What one table entry leads to. */
  datatype Step = Done(outcome: Outcome) | Next(entry: nat)

  /** Bytes that one entry of level `level` spans: 512 GB, 1 GB, 2 MB, 4 KB. */
  function Span(level: nat): (s: nat)
    requires level < 4
    ensures s > 0
  {
    match level
    case 0 => 0x80_0000_0000
    case 1 => 0x4000_0000
    case 2 => 0x20_0000
    case 3 => 0x1000
  }

  function Index(a: nat, level: nat): (i: nat)
    requires level < 4
    ensures i < 512
  {
    a / Span(level) % 512
  }

  /** The address of the first entry read; the sum may wrap. */
  function RootEntry(dirBase: nat, a: nat): U64 {
    Wrap64(dirBase + 8 * Index(a, 0))
  }

  predicate Present(e: nat) { e % 2 == 1 }

  predicate LargePage(e: nat) { e / 0x80 % 2 == 1 }

  /** The address of the entry for `a` in the table at `table`. */
  function EntryIn(table: nat, a: nat, level: nat): (r: nat)
    requires level < 4 && table % 0x1000 == 0
    ensures r % 8 == 0
  {
    assert table == table / 0x1000 * 512 * 8;
    table + 8 * Index(a, level)
  }

  /** The code's treatment of the entry `e` read at `level`. */
  function After(level: nat, a: nat, e: nat): (s: Step)
    requires level < 4
    ensures s.Next? ==> level < 3 && s.entry % 8 == 0
  {
    if level == 3 then
      Done(if Frame36(e) == 0 then Fault else Phys(Frame36(e) + OffsetOf(a)))
    else if !Present(e) then Done(Fault)
    else if level == 1 && LargePage(e) then Done(Phys(FrameGb(e) + a % 0x4000_0000))
    else if level == 2 && LargePage(e) then Done(Phys(Frame36(e) + a % 0x20_0000))
    else Next(EntryIn(Frame36(e), a, level + 1))
  }

  function WalkFrom(ms: seq<Mem>, level: nat, entry: nat, a: nat): Outcome
    requires |ms| == 4 && level < 4
    decreases 4 - level
  {
    match After(level, a, ReadU64(ms[level], entry))
    case Done(o) => o
    case Next(n) => WalkFrom(ms, level + 1, n, a)
  }

  /** VTranslateInternal when level i of the tables is read from memory ms[i]. */
  function WalkAcross(ms: seq<Mem>, dirBase: nat, a: nat): Outcome
    requires |ms| == 4
  {
    WalkFrom(ms, 0, RootEntry(dirBase, a), a)
  }

  /** VTranslateInternal on memory that does not change. */
  function Walk(m: Mem, dirBase: nat, a: nat): Outcome {
    WalkAcross([m, m, m, m], dirBase, a)
  }

  // ---- Page part and offset ----

  lemma QuotientOfPage(a: nat, b: nat)
    requires b > 0
    ensures a / (0x1000 * b) == PageOf(a) / (0x1000 * b)
  {
    Digits(a, 0x1000, b);
    Digits(PageOf(a), 0x1000, b);
  }

  lemma IndexOfPage(a: nat, level: nat)
    requires level < 4
    ensures Index(PageOf(a), level) == Index(a, level)
  {
    match level
    case 0 => QuotientOfPage(a, 0x800_0000);
    case 1 => QuotientOfPage(a, 0x4_0000);
    case 2 => QuotientOfPage(a, 0x200);
    case 3 => QuotientOfPage(a, 1);
  }

  lemma RootOfPage(dirBase: nat, a: nat)
    ensures RootEntry(dirBase, PageOf(a)) == RootEntry(dirBase, a)
  {
    IndexOfPage(a, 0);
  }

  /** The offset in a span of whole pages. */
  lemma OffsetInSpan(a: nat, b: nat)
    requires b > 0
    ensures a % (0x1000 * b) == PageOf(a) % (0x1000 * b) + OffsetOf(a)
    ensures PageOf(a) % (0x1000 * b) % 0x1000 == 0
  {
    Digits(a, 0x1000, b);
    Digits(PageOf(a), 0x1000, b);
  }

  lemma ShiftOfSum(frame: nat, page: nat, whole: nat, off: nat)
    requires frame % 0x1000 == 0 && page % 0x1000 == 0 && whole == page + off
    ensures ShiftedBy(Phys(frame + page), Phys(frame + whole), off)
  {
  }

  lemma GbStepOfPage(a: nat, e: nat)
    ensures ShiftedBy(Phys(FrameGb(e) + PageOf(a) % 0x4000_0000), Phys(FrameGb(e) + a % 0x4000_0000), OffsetOf(a))
  {
    OffsetInSpan(a, 0x4_0000);
    GbFrameAligned(e);
    hide FrameGb, PageOf, OffsetOf;
    ShiftOfSum(FrameGb(e), PageOf(a) % 0x4000_0000, a % 0x4000_0000, OffsetOf(a));
  }

  lemma MbStepOfPage(a: nat, e: nat)
    ensures ShiftedBy(Phys(Frame36(e) + PageOf(a) % 0x20_0000), Phys(Frame36(e) + a % 0x20_0000), OffsetOf(a))
  {
    OffsetInSpan(a, 0x200);
    hide Frame36, PageOf, OffsetOf;
    ShiftOfSum(Frame36(e), PageOf(a) % 0x20_0000, a % 0x20_0000, OffsetOf(a));
  }

  lemma LargeStepOfPage(level: nat, a: nat, e: nat)
    requires level == 1 || level == 2
    requires Present(e) && LargePage(e)
    ensures ShiftedBy(After(level, PageOf(a), e).outcome, After(level, a, e).outcome, OffsetOf(a))
  {
    GbStepOfPage(a, e);
    MbStepOfPage(a, e);
    hide Frame36, FrameGb, PageOf, OffsetOf, ShiftedBy, Present, LargePage;
  }

  lemma GbFrameAligned(e: nat)
    ensures FrameGb(e) % 0x1000 == 0
  {
    assert FrameGb(e) == e / 0x4000_0000 % 0x40_0000 * 0x4_0000 * 0x1000;
  }

  lemma StepOfPage(level: nat, a: nat, e: nat)
    requires level < 4
    ensures After(level, a, e).Next? ==> After(level, PageOf(a), e) == After(level, a, e)
    ensures After(level, a, e).Done? ==>
              After(level, PageOf(a), e).Done? &&
              ShiftedBy(After(level, PageOf(a), e).outcome, After(level, a, e).outcome, OffsetOf(a))
  {
    if level == 3 {
      assert OffsetOf(PageOf(a)) == 0;
    } else if 0 < level && Present(e) && LargePage(e) {
      LargeStepOfPage(level, a, e);
    } else {
      IndexOfPage(a, level + 1);
    }
  }

  /** `whole` is `page` moved by `off` inside its page, or both are faults. */
  predicate ShiftedBy(page: Outcome, whole: Outcome, off: nat) {
    match page
    case Fault => whole.Fault?
    case Phys(p) => p % 0x1000 == 0 && whole == Phys(p + off)
  }

  lemma {:induction false} WalkFromOfPage(ms: seq<Mem>, level: nat, entry: nat, a: nat)
    requires |ms| == 4 && level < 4
    ensures ShiftedBy(WalkFrom(ms, level, entry, PageOf(a)), WalkFrom(ms, level, entry, a), OffsetOf(a))
    decreases 4 - level
  {
    var e := ReadU64(ms[level], entry);
    StepOfPage(level, a, e);
    var s := After(level, a, e);
    if s.Next? { WalkFromOfPage(ms, level + 1, s.entry, a); }
  }

  /** A successful walk is the walk of the page plus the offset, and an address faults exactly
      when its page does, even if every level is read from another memory. */
  lemma WalkOfPage(ms: seq<Mem>, dirBase: nat, a: nat)
    requires |ms| == 4
    ensures ShiftedBy(WalkAcross(ms, dirBase, PageOf(a)), WalkAcross(ms, dirBase, a), OffsetOf(a))
  {
    RootOfPage(dirBase, a);
    WalkFromOfPage(ms, 0, RootEntry(dirBase, a), a);
  }

  // ---- Tables that stay as they are ----

  /** `m'` holds the same table entries as `m` at every entry the walk of `a` in `m` reads. */
  predicate SamePath(m: Mem, m': Mem, level: nat, entry: nat, a: nat)
    requires level < 4
    decreases 4 - level
  {
    var e := ReadU64(m, entry);
    ReadU64(m', entry) == e
    && (After(level, a, e).Next? ==> SamePath(m, m', level + 1, After(level, a, e).entry, a))
  }

  predicate SameTables(m: Mem, m': Mem, dirBase: nat, a: nat) {
    SamePath(m, m', 0, RootEntry(dirBase, a), a)
  }

  lemma {:induction false} FrozenFrom(m: Mem, ms: seq<Mem>, level: nat, entry: nat, a: nat)
    requires |ms| == 4 && level < 4
    requires forall i :: 0 <= i < 4 ==> SamePath(m, ms[i], level, entry, a)
    ensures WalkFrom(ms, level, entry, a) == WalkFrom([m, m, m, m], level, entry, a)
    decreases 4 - level
  {
    var s := After(level, a, ReadU64(m, entry));
    if s.Next? { FrozenFrom(m, ms, level + 1, s.entry, a); }
  }

  /** If every level is read while the path of `a` still holds what it holds in `m`, the walk
      is the walk in `m`. */
  lemma FrozenWalk(m: Mem, ms: seq<Mem>, dirBase: nat, a: nat)
    requires |ms| == 4
    requires forall i :: 0 <= i < 4 ==> SameTables(m, ms[i], dirBase, a)
    ensures WalkAcross(ms, dirBase, a) == Walk(m, dirBase, a)
  {
    FrozenFrom(m, ms, 0, RootEntry(dirBase, a), a);
  }

  lemma {:induction false} SamePathOfPage(m: Mem, m': Mem, level: nat, entry: nat, a: nat)
    requires level < 4
    ensures SamePath(m, m', level, entry, PageOf(a)) == SamePath(m, m', level, entry, a)
    decreases 4 - level
  {
    var e := ReadU64(m, entry);
    StepOfPage(level, a, e);
    var s := After(level, a, e);
    if s.Next? { SamePathOfPage(m, m', level + 1, s.entry, a); }
  }

  /** Every address of a page depends on the same table entries. */
  lemma SameTablesOfPage(m: Mem, m': Mem, dirBase: nat, a: nat)
    ensures SameTables(m, m', dirBase, PageOf(a)) == SameTables(m, m', dirBase, a)
  {
    RootOfPage(dirBase, a);
    SamePathOfPage(m, m', 0, RootEntry(dirBase, a), a);
  }

  // ---- The architectural translation ----

  /** Bits that must be zero in a present entry. The address width is 52 bits, the largest the
      architecture allows. */
  predicate ReservedBitSet(level: nat, e: nat)
    requires level < 4
  {
    || (level == 0 && LargePage(e))
    || (level == 1 && LargePage(e) && e / 0x2000 % 0x2_0000 != 0)
    || (level == 2 && LargePage(e) && e / 0x2000 % 0x100 != 0)
  }

  predicate IsLeaf(level: nat, e: nat) {
    level == 3 || (0 < level && LargePage(e))
  }

  /** Bits 51..12 of an entry: the next table. */
  function Frame52(e: nat): (f: nat)
    ensures f % 0x1000 == 0
  {
    e % 0x10_0000_0000_0000 / 0x1000 * 0x1000
  }

  /** The frame bits and offset the architecture puts together at a leaf. */
  function LeafAddress(level: nat, e: nat, a: nat): nat
    requires level < 4
  {
    e % 0x10_0000_0000_0000 / Span(level) * Span(level) + a % Span(level)
  }

  /** Every level alike: index the table at `table`, and at a leaf put the offset within the
      span below the frame bits. */
  function ArchFrom(m: Mem, level: nat, table: nat, a: nat): Outcome
    requires level < 4 && table % 0x1000 == 0
    decreases 4 - level
  {
    var e := ReadU64(m, EntryIn(table, a, level));
    if !Present(e) || ReservedBitSet(level, e) then Fault
    else if IsLeaf(level, e) then
      Phys(LeafAddress(level, e, a))
    else ArchFrom(m, level + 1, Frame52(e), a)
  }

  /** Entries above the leaf that the code can follow: frame below 2^36, and no page-size bit at
      the top level. */
  predicate PointersFit(m: Mem, level: nat, table: nat, a: nat)
    requires level < 4 && table % 0x1000 == 0
    decreases 4 - level
  {
    var e := ReadU64(m, EntryIn(table, a, level));
    Present(e) ==>
      && (level == 0 ==> !LargePage(e))
      && (!IsLeaf(level, e) ==> e / 0x10_0000_0000 % 0x1_0000 == 0 &&
                                PointersFit(m, level + 1, Frame52(e), a))
  }

  /** When the code reads the last entry `e` of a walk as the architecture does. */
  predicate LeafFits(level: nat, e: nat, a: nat)
    requires level < 4
  {
    var high := e / 0x10_0000_0000 % 0x1_0000;
    if level == 3 then
      if Present(e) then high == 0 && (Frame36(e) != 0 || OffsetOf(a) == 0) else Frame36(e) == 0
    else if level == 2 && Present(e) && LargePage(e) then
      high == 0 && e / 0x1000 % 0x200 == 0
    else if level == 1 && Present(e) && LargePage(e) then
      e / 0x2000 % 0x2_0000 == 0 || FrameGb(e) + a % 0x4000_0000 == 0
    else true
  }

  /** The last entry a walk reads, with its level. */
  function LastEntry(m: Mem, level: nat, table: nat, a: nat): (r: (nat, nat))
    requires level < 4 && table % 0x1000 == 0
    ensures r.0 < 4
    decreases 4 - level
  {
    var e := ReadU64(m, EntryIn(table, a, level));
    if !Present(e) || ReservedBitSet(level, e) || IsLeaf(level, e) then (level, e)
    else LastEntry(m, level + 1, Frame52(e), a)
  }

  lemma FrameSplits(e: nat)
    ensures Frame52(e) == Frame36(e) + e / 0x10_0000_0000 % 0x1_0000 * 0x10_0000_0000
  {
    Digits(e, 0x1000, 0x100_0000_0000);
    Digits(e, 0x1000, 0x100_0000);
    Digits(e / 0x1000, 0x100_0000, 0x1_0000);
  }

  lemma LargeFrameSplits(e: nat)
    ensures e % 0x10_0000_0000_0000 / 0x20_0000 * 0x20_0000 + e / 0x1000 % 0x200 * 0x1000 == Frame52(e)
  {
    Digits(e, 0x1000, 0x100_0000_0000);
    Digits(e % 0x10_0000_0000_0000, 0x1000, 0x200);
    Digits(e / 0x1000, 0x200, 0x8000_0000);
  }

  lemma GbFrameIsLeafFrame(e: nat)
    ensures FrameGb(e) == e % 0x10_0000_0000_0000 / 0x4000_0000 * 0x4000_0000
  {
    Digits(e, 0x4000_0000, 0x40_0000);
  }

  lemma GbLeafAgreement(e: nat, a: nat)
    requires Present(e) && LargePage(e)
    ensures After(1, a, e) == Done(Phys(FrameGb(e) + a % 0x4000_0000))
    ensures LeafAddress(1, e, a) == FrameGb(e) + a % 0x4000_0000
  {
    GbFrameIsLeafFrame(e);
  }

  lemma LowBitsOfFrame(e: nat)
    ensures Frame36(e) >= e / 0x1000 % 0x200 * 0x1000
  {
    Digits(e / 0x1000, 0x200, 0x8000);
  }

  lemma ReservedMbBits(e: nat)
    ensures e / 0x2000 % 0x100 == e / 0x1000 % 0x200 / 2
  {
    Digits(e, 0x1000, 2);
    Digits(e / 0x1000, 2, 0x100);
  }

  lemma MbLeafAddress(e: nat, a: nat)
    ensures LeafAddress(2, e, a) + e / 0x1000 % 0x200 * 0x1000
         == Frame36(e) + e / 0x10_0000_0000 % 0x1_0000 * 0x10_0000_0000 + a % 0x20_0000
  {
    FrameSplits(e);
    LargeFrameSplits(e);
  }

  lemma MbLeafAgreement(e: nat, a: nat)
    requires Present(e) && LargePage(e)
    ensures var arch := if ReservedBitSet(2, e) then Fault else Phys(LeafAddress(2, e, a));
            After(2, a, e).Done? &&
            (After(2, a, e).outcome.Value() == arch.Value() <==> LeafFits(2, e, a))
  {
    LowBitsOfFrame(e);
    ReservedMbBits(e);
    MbLeafAddress(e, a);
  }

  lemma KbLeafAgreement(e: nat, a: nat)
    ensures LeafAddress(3, e, a) == Frame36(e) + e / 0x10_0000_0000 % 0x1_0000 * 0x10_0000_0000 + OffsetOf(a)
  {
    FrameSplits(e);
  }

  /** The comparison at the last entry. */
  lemma LeafAgreement(level: nat, e: nat, a: nat)
    requires level < 4
    requires !Present(e) || IsLeaf(level, e)
    ensures After(level, a, e).Done?
    ensures var arch := if !Present(e) || ReservedBitSet(level, e) then Fault else Phys(LeafAddress(level, e, a));
            After(level, a, e).outcome.Value() == arch.Value() <==> LeafFits(level, e, a)
  {
    if level == 3 {
      KbLeafAgreement(e, a);
    } else if Present(e) {
      if level == 1 { GbLeafAgreement(e, a); } else { MbLeafAgreement(e, a); }
    }
  }

  lemma PointerAgreement(level: nat, e: nat, a: nat)
    requires level < 3 && Present(e) && !IsLeaf(level, e)
    requires level == 0 ==> !LargePage(e)
    requires e / 0x10_0000_0000 % 0x1_0000 == 0
    ensures After(level, a, e) == Next(EntryIn(Frame52(e), a, level + 1))
    ensures !ReservedBitSet(level, e)
  {
    FrameSplits(e);
  }

  /** The code and the architecture agree on the translation exactly when the last entry fits. */
  predicate AgreesFrom(m: Mem, level: nat, table: nat, a: nat)
    requires level < 4 && table % 0x1000 == 0
  {
    var last := LastEntry(m, level, table, a);
    WalkFrom([m, m, m, m], level, EntryIn(table, a, level), a).Value() == ArchFrom(m, level, table, a).Value()
    <==> LeafFits(last.0, last.1, a)
  }

  lemma AgreesAtEnd(m: Mem, level: nat, table: nat, a: nat, e: nat)
    requires level < 4 && table % 0x1000 == 0
    requires e == ReadU64(m, EntryIn(table, a, level))
    requires !Present(e) || IsLeaf(level, e)
    ensures AgreesFrom(m, level, table, a)
  {
    LeafAgreement(level, e, a);
    assert WalkFrom([m, m, m, m], level, EntryIn(table, a, level), a) == After(level, a, e).outcome;
    assert LastEntry(m, level, table, a) == (level, e);
  }

  lemma AgreesBelow(m: Mem, level: nat, table: nat, a: nat, e: nat)
    requires level < 3 && table % 0x1000 == 0
    requires e == ReadU64(m, EntryIn(table, a, level))
    requires Present(e) && !IsLeaf(level, e) && !ReservedBitSet(level, e)
    requires After(level, a, e) == Next(EntryIn(Frame52(e), a, level + 1))
    requires AgreesFrom(m, level + 1, Frame52(e), a)
    ensures AgreesFrom(m, level, table, a)
  {
    assert WalkFrom([m, m, m, m], level, EntryIn(table, a, level), a)
        == WalkFrom([m, m, m, m], level + 1, EntryIn(Frame52(e), a, level + 1), a);
    assert ArchFrom(m, level, table, a) == ArchFrom(m, level + 1, Frame52(e), a);
    assert LastEntry(m, level, table, a) == LastEntry(m, level + 1, Frame52(e), a);
  }

  lemma {:induction false} WalkAgreesFrom(m: Mem, level: nat, table: nat, a: nat)
    requires level < 4 && table % 0x1000 == 0
    requires PointersFit(m, level, table, a)
    ensures AgreesFrom(m, level, table, a)
    decreases 4 - level
  {
    var e := ReadU64(m, EntryIn(table, a, level));
    if !Present(e) || IsLeaf(level, e) {
      AgreesAtEnd(m, level, table, a, e);
    } else {
      PointerAgreement(level, e, a);
      WalkAgreesFrom(m, level + 1, Frame52(e), a);
      AgreesBelow(m, level, table, a, e);
    }
  }
}
