/** The translation cache as a value: what each of its operations does to the state. The class
    in TlbCache.dfy implements exactly these functions; TlbRuns.dfy proves what whole runs of
    them keep. */
module TlbModel {
  import opened Bits
  import opened Clock
  import opened GuestMemory
  import opened PageWalk

  const TLB_SIZE: nat := 1024

  datatype Entry = Entry(page: nat, dirBase: nat, translation: nat)

  /** One of the four cached table pages. */
  datatype Slot = Slot(page: nat, bytes: seq<Byte>, stamp: Time)

  /** `pageCache` is the build switch USE_PAGECACHE; `cacheMs` is the cache time in force. */
  datatype State = State(
    pageCache: bool, cacheMs: nat,
    entries: seq<Entry>, stamps: seq<Time>, slots: seq<Slot>,
    cur: Time, hits: nat, misses: nat)

  predicate WellFormed(s: State) {
    && |s.entries| == TLB_SIZE && |s.stamps| == TLB_SIZE && |s.slots| == 4
    && forall i :: 0 <= i < 4 ==> |s.slots[i].bytes| == 0x1000
  }

  type Tlb = s: State | WellFormed(s) witness Initial(true, 1)

  /** All fields zero, as in static storage. */
  function Initial(pageCache: bool, cacheMs: nat): State {
    State(pageCache, cacheMs,
          seq(TLB_SIZE, i => Entry(0, 0, 0)), seq(TLB_SIZE, i => ZERO),
          seq(4, i => Slot(0, seq(0x1000, j => 0), ZERO)),
          ZERO, 0, 0)
  }

  function TlbIndex(a: nat): (i: nat)
    ensures i < TLB_SIZE
  {
    a / 0x1000 % TLB_SIZE
  }

  /** What VTranslate makes of a table base. */
  function MaskDirBase(d: nat): (r: nat)
    ensures r % 16 == 0 && r % 8 == 0 && r <= d
  {
    HalfOfScaled(d / 16, 16, 0);
    HalfOfScaled(d / 16 * 2, 8, 0);
    d - d % 16
  }

  // ---- Reading table entries ----

  function FillSlot(w: World, tick: nat, s: Tlb, address: nat): Slot {
    Slot(PageOf(address), Bytes(w.mem(tick), PageOf(address), 0x1000), s.cur)
  }

  /** The slot that serves a read of `address` at level `i`: as it is, or refilled. */
  function ServingSlot(w: World, tick: nat, s: Tlb, i: nat, address: nat): (r: Slot)
    requires i < 4
    ensures |r.bytes| == 0x1000 && r.page == PageOf(address)
  {
    if s.slots[i].page != PageOf(address) || !Fresh(s.cur, s.slots[i].stamp, s.cacheMs) then
      FillSlot(w, tick, s, address)
    else s.slots[i]
  }

  /** VtMemReadU64. */
  function Fetch(w: World, tick: nat, s: Tlb, i: nat, address: nat): (r: (U64, Tlb))
    requires i < 4 && address % 8 == 0
  {
    if !s.pageCache then (ReadU64(w.mem(tick), address), s)
    else
      var slot := ServingSlot(w, tick, s, i, address);
      var o := OffsetOf(address);
      AlignedInPage(address);
      (Word64(slot.bytes[o..o + 8]), s.(slots := s.slots[i := slot]))
  }

  /** The part of VTranslateInternal from `level` on. Level i reads guest memory at tick
      `tick + 1 + i`, the guest running on in between. */
  function WalkCached(w: World, tick: nat, s: Tlb, level: nat, entry: nat, a: nat): (r: (Outcome, Tlb))
    requires level < 4 && entry % 8 == 0
    decreases 4 - level
  {
    var (e, s1) := Fetch(w, tick + 1 + level, s, level, entry);
    match After(level, a, e)
    case Done(o) => (o, s1)
    case Next(n) => WalkCached(w, tick, s1, level + 1, n, a)
  }

  /** VTranslateInternal. */
  function TranslateInternal(w: World, tick: nat, s: Tlb, dirBase: nat, a: nat): (Outcome, Tlb)
    requires dirBase % 8 == 0
  {
    RootAligned(dirBase, a);
    WalkCached(w, tick, s, 0, RootEntry(dirBase, a), a)
  }

  lemma RootAligned(dirBase: nat, a: nat)
    requires dirBase % 8 == 0
    ensures RootEntry(dirBase, a) % 8 == 0
  {
    var i := Index(a, 0);
    assert (dirBase + 8 * i) % 8 == 0;
    WrapKeepsAlignment(dirBase + 8 * i);
  }

  // ---- The translation cache ----

  /** The tag of the slot of `a` matches and its stamp is young. */
  predicate Hit(s: Tlb, dirBase: nat, a: nat) {
    var e := s.entries[TlbIndex(a)];
    e.dirBase == dirBase && e.page == PageOf(a) && Fresh(s.cur, s.stamps[TlbIndex(a)], s.cacheMs)
  }

  /** VtCheckCachedResult, after the clock reading: 0 means "not cached". */
  function CheckCached(s: Tlb, dirBase: nat, a: nat): (r: (nat, Tlb)) {
    if Hit(s, dirBase, a) then
      (Or(s.entries[TlbIndex(a)].translation, OffsetOf(a)), s.(hits := s.hits + 1))
    else (0, s)
  }

  /** VtUpdateCachedResult. */
  function Install(s: Tlb, a: nat, value: nat, dirBase: nat): Tlb {
    s.(stamps := s.stamps[TlbIndex(a) := s.cur],
       entries := s.entries[TlbIndex(a) := Entry(PageOf(a), dirBase, PageOf(value))],
       misses := s.misses + 1)
  }

  /** Walk the tables and remember the result. */
  function Refill(w: World, tick: nat, s: Tlb, d: nat, a: nat): (r: (nat, Tlb))
    requires d % 8 == 0
  {
    var (o, s') := TranslateInternal(w, tick, s, d, a);
    (o.Value(), Install(s', a, o.Value(), d))
  }

  /** VTranslate. The clock is read at `tick`. */
  function Translate(w: World, tick: nat, s: Tlb, dirBase: nat, a: nat): (r: (nat, Tlb)) {
    var d := MaskDirBase(dirBase);
    var (cached, s1) := CheckCached(s.(cur := w.clock(tick)), d, a);
    if cached != 0 then (cached, s1)
    else Refill(w, tick, s1, d, a)
  }

  /** FlushTlb: every stamp becomes zero; the page cache stays. */
  function Flush(s: Tlb): Tlb {
    s.(stamps := seq(TLB_SIZE, i => ZERO))
  }

  /** SetMemCacheTime. */
  function SetCacheTime(s: Tlb, ms: nat): Tlb {
    s.(cacheMs := ms)
  }
}
