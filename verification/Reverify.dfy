/** What VerifyTlb makes of an entry: it walks with the page as table base and the table base as
    address. */
module Reverify {
  import opened Bits
  import opened Clock
  import opened GuestMemory
  import opened PageWalk
  import opened TlbModel
  import opened TlbRuns
  import opened TlbSlices
  import opened SmallTables

  /** `e` is `e0` with its translation replaced by the swapped walk through memories read up to
      tick `t`, less than `limit` before the reading `cur`. */
  ghost predicate Reverified(w: World, limit: nat, cur: Time, e0: Entry, e: Entry, t: nat) {
    exists fs :: SwappedAt(w, limit, cur, e0, e, fs, t)
  }

  ghost predicate SwappedAt(w: World, limit: nat, cur: Time, e0: Entry, e: Entry, fs: seq<nat>, t: nat) {
    && ReadWithin(w, fs, t, Nanos(cur), limit)
    && e == e0.(translation := WalkAcross(Moments(w, fs), e0.page, e0.dirBase).Value())
  }

  lemma ReverifiedLater(w: World, limit: nat, cur: Time, e0: Entry, e: Entry, t: nat, u: nat)
    requires Reverified(w, limit, cur, e0, e, t) && t <= u
    ensures Reverified(w, limit, cur, e0, e, u)
  {
    var fs :| SwappedAt(w, limit, cur, e0, e, fs, t);
    assert SwappedAt(w, limit, cur, e0, e, fs, u);
  }

  lemma EntryReverified(w: World, limit: nat, s: Tlb, tick: nat, i: nat)
    requires Settled(w, limit) && ReadBy(w, limit, s, tick) && s.cacheMs * NANOS_PER_MS <= limit
    requires SlotsOk(w, s, tick) && i < TLB_SIZE && s.entries[i].page % 8 == 0
    ensures var s' := VerifyEntry(w, tick, s, i);
            SlotsOk(w, s', tick + 5) && Reverified(w, limit, s.cur, s.entries[i], s'.entries[i], tick + 5)
  {
    hide SlotsOk, TranslateInternal, WalkAcross, Moments;
    var e := s.entries[i];
    SlotsOkLater(w, s, tick, tick + 1);
    var fs := WalkInternal(w, limit, s, tick, e.page, e.dirBase);
    SlotsOfSame(w, TranslateInternal(w, tick, s, e.page, e.dirBase).1, VerifyEntry(w, tick, s, i), tick + 4);
    SlotsOkLater(w, VerifyEntry(w, tick, s, i), tick + 4, tick + 5);
    assert SwappedAt(w, limit, s.cur, e, VerifyEntry(w, tick, s, i).entries[i], fs, tick + 5);
  }

  lemma SlotsOfSame(w: World, s: Tlb, s': Tlb, t: nat)
    requires SlotsOk(w, s, t) && s'.slots == s.slots
    ensures SlotsOk(w, s', t)
  {
  }

  /** What the first loop of a worker has done to slots lo..hi-1 by tick `t`. */
  ghost predicate SliceReverified(w: World, limit: nat, s: Tlb, s': Tlb, lo: nat, hi: nat, t: nat)
    requires lo <= hi <= TLB_SIZE
  {
    && SlotsOk(w, s', t)
    && forall k :: lo <= k < hi ==> Reverified(w, limit, s.cur, s.entries[k], s'.entries[k], t)
  }

  lemma NextReverified(w: World, limit: nat, s: Tlb, s1: Tlb, tick: nat, lo: nat, i: nat)
    requires Settled(w, limit) && ReadBy(w, limit, s, tick) && s.cacheMs * NANOS_PER_MS <= limit
    requires lo <= i < TLB_SIZE && TagsAligned(s)
    requires OnlySliceChanged(s, s1, lo, i) && SliceReverified(w, limit, s, s1, lo, i, tick)
    ensures s1.entries[i].page % 8 == 0
    ensures SliceReverified(w, limit, s, VerifyEntry(w, tick, s1, i), lo, i + 1, tick + 5)
  {
    hide SlotsOk, VerifyEntry, Reverified;
    assert s1.entries[i] == s.entries[i];
    EntryReverified(w, limit, s1, tick, i);
    VerifyEntryFrame(w, tick, s1, i);
    forall k | lo <= k < i
      ensures Reverified(w, limit, s.cur, s.entries[k], VerifyEntry(w, tick, s1, i).entries[k], tick + 5)
    {
      ReverifiedLater(w, limit, s.cur, s.entries[k], s1.entries[k], tick, tick + 5);
    }
  }

  /** Each entry of the slice gets the walk with swapped arguments, through table words that were
      current less than `limit` before the cache's last clock reading, whichever build. VerifyTlb
      does not read the clock before it walks, so that reading may be old. */
  lemma {:induction false} SliceIsReverified(w: World, limit: nat, s: Tlb, tick: nat, lo: nat, hi: nat)
    requires Settled(w, limit) && ReadBy(w, limit, s, tick) && s.cacheMs * NANOS_PER_MS <= limit
    requires SlotsOk(w, s, tick) && lo <= hi <= TLB_SIZE && TagsAligned(s)
    ensures SliceReverified(w, limit, s, VerifyEntries(w, tick, s, lo, hi), lo, hi, tick + 5 * (hi - lo))
    decreases hi
  {
    hide SlotsOk, VerifyEntry, Reverified, Settled;
    if lo < hi {
      var now := tick + 5 * (hi - 1 - lo);
      SliceIsReverified(w, limit, s, tick, lo, hi - 1);
      VerifyEntriesFrame(w, tick, s, lo, hi - 1);
      ReadByLater(w, limit, s, tick, now);
      NextReverified(w, limit, s, VerifyEntries(w, tick, s, lo, hi - 1), now, lo, hi - 1);
    }
  }

  lemma ReadByLater(w: World, limit: nat, s: Tlb, t: nat, u: nat)
    requires Settled(w, limit) && ReadBy(w, limit, s, t) && t <= u
    ensures ReadBy(w, limit, s, u)
  {
  }

  /** The whole worker, stamps included. */
  lemma VerifySwaps(w: World, limit: nat, s: Tlb, tick: nat, lo: nat, hi: nat)
    requires Settled(w, limit) && ReadBy(w, limit, s, tick) && Inv(w, limit, s, tick)
    requires lo <= hi <= TLB_SIZE && TagsAligned(s)
    ensures SliceReverified(w, limit, s, Verify(w, tick, s, lo, hi), lo, hi, tick + 5 * (hi - lo))
  {
    hide SlotsOk, EntriesOk, VerifyEntries, Reverified, Settled;
    SliceIsReverified(w, limit, s, tick, lo, hi);
    SlotsOfSame(w, VerifyEntries(w, tick, s, lo, hi), Verify(w, tick, s, lo, hi), tick + 5 * (hi - lo));
  }

  /** The translations of a verified slice need not be walks of their tags any more, but a flush
      restores the invariant. */
  lemma FlushAfterVerify(w: World, limit: nat, s: Tlb, tick: nat, lo: nat, hi: nat)
    requires Settled(w, limit) && ReadBy(w, limit, s, tick) && Inv(w, limit, s, tick)
    requires lo <= hi <= TLB_SIZE && TagsAligned(s)
    ensures Inv(w, limit, Flush(Verify(w, tick, s, lo, hi)), tick + 5 * (hi - lo))
  {
    VerifySwaps(w, limit, s, tick, lo, hi);
    VerifyFrame(w, tick, s, lo, hi);
    hide SlotsOk, Verify, Reverified, Settled;
    var s' := Verify(w, tick, s, lo, hi);
    SlotsOfSame(w, s', Flush(s'), tick + 5 * (hi - lo));
  }

  // ---- A cache that has never read the clock ----

  lemma FreshAtZero(ms: nat)
    requires CacheNanos(ms) > 0
    ensures Fresh(ZERO, ZERO, ms)
  {
  }

  lemma ZeroWord(b: seq<Byte>)
    requires |b| == 8 && forall i :: 0 <= i < 8 ==> b[i] == 0
    ensures Word64(b) == 0
  {
  }

  /** The empty slot passes for a copy of page 0. */
  predicate EmptySlot(c: Slot) {
    c.page == 0 && c.stamp == ZERO && |c.bytes| == 0x1000 && forall i :: 0 <= i < 0x1000 ==> c.bytes[i] == 0
  }

  lemma EmptyFetch(w: World, tick: nat, s: Tlb)
    requires s.pageCache && s.cur == ZERO && CacheNanos(s.cacheMs) > 0 && EmptySlot(s.slots[0])
    ensures Fetch(w, tick, s, 0, 0) == (0, s)
  {
    FreshAtZero(s.cacheMs);
    hide Fresh, CacheNanos, Word64;
    assert OffsetOf(0) == 0 && PageOf(0) == 0;
    ZeroWord(s.slots[0].bytes[0..8]);
    assert s.slots[0 := s.slots[0]] == s.slots;
  }

  lemma ZeroEntryFaults(w: World, tick: nat, s: Tlb)
    requires Fetch(w, tick + 1, s, 0, 0) == (0, s)
    ensures TranslateInternal(w, tick, s, 0, 0) == (Fault, s)
  {
    assert RootEntry(0, 0) == 0;
    AbsentFaults(0);
    hide After, Fetch, RootEntry;
  }

  lemma UnusedSlot(ms: nat)
    ensures EmptySlot(Initial(true, ms).slots[0])
  {
  }

  /** With the page cache the walk for an unused entry of an unused cache faults without reading the
      guest. */
  lemma UnusedFaults(w: World, tick: nat, ms: nat)
    requires CacheNanos(ms) > 0
    ensures TranslateInternal(w, tick, Initial(true, ms), 0, 0) == (Fault, Initial(true, ms))
  {
    var s: Tlb := Initial(true, ms);
    UnusedSlot(ms);
    hide TranslateInternal, Fetch, EmptySlot, CacheNanos;
    EmptyFetch(w, tick + 1, s);
    ZeroEntryFaults(w, tick, s);
  }

  lemma StepChangesNothing(w: World, tick: nat, s: Tlb, i: nat)
    requires i < TLB_SIZE && s.entries[i] == Entry(0, 0, 0)
    requires TranslateInternal(w, tick, s, 0, 0) == (Fault, s)
    ensures VerifyEntry(w, tick, s, i) == s
  {
    hide TranslateInternal;
    assert s.entries[i := Entry(0, 0, 0)] == s.entries;
  }

  lemma UnusedTags(ms: nat)
    ensures TagsAligned(Initial(true, ms))
    ensures forall i :: 0 <= i < TLB_SIZE ==> Initial(true, ms).entries[i] == Entry(0, 0, 0)
  {
  }

  lemma {:induction false} UnusedEntries(w: World, tick: nat, s: Tlb, ms: nat, lo: nat, hi: nat)
    requires s == Initial(true, ms) && CacheNanos(ms) > 0 && lo <= hi <= TLB_SIZE
    ensures TagsAligned(s) && VerifyEntries(w, tick, s, lo, hi) == s
    decreases hi
  {
    hide *;
    UnusedTags(ms);
    if lo == hi {
      NoEntry(w, tick, s, lo);
    } else {
      UnusedEntries(w, tick, s, ms, lo, hi - 1);
      NextEntry(w, tick, s, lo, hi - 1);
      UnusedFaults(w, tick + 5 * (hi - 1 - lo), ms);
      StepChangesNothing(w, tick + 5 * (hi - 1 - lo), s, hi - 1);
    }
  }

  /** So verifying a slice of an unused cache sets its stamps and nothing else. */
  lemma VerifyUnused(w: World, tick: nat, ms: nat, lo: nat, hi: nat)
    requires CacheNanos(ms) > 0 && lo <= hi <= TLB_SIZE
    ensures TagsAligned(Initial(true, ms))
    ensures Verify(w, tick, Initial(true, ms), lo, hi)
         == SetStamps(Initial(true, ms), lo, hi, w.clock(tick + 5 * (hi - lo)))
  {
    UnusedEntries(w, tick, Initial(true, ms), ms, lo, hi);
    hide VerifyEntries, SetStamps, Initial;
  }

  // ---- When the swapped walk is the right one ----

  lemma RootAt(dirBase: nat, a: nat, c: int)
    requires dirBase < TWO_64 && c == (dirBase + 8 * Index(a, 0)) / TWO_64
    ensures 0 <= c <= 1 && RootEntry(dirBase, a) == dirBase + 8 * Index(a, 0) - c * TWO_64
  {
    hide Index;
  }

  /** Neighbouring regions of 512 GB have neighbouring indices at the top level. */
  lemma TopIndexBelow(page: nat, dirBase: nat)
    requires page - 0x1000 < dirBase < page && page % 0x1000 == 0
    ensures var i, j := Index(page, 0), Index(dirBase, 0); j == i || j == i - 1 || (i == 0 && j == 511)
  {
    var p, q := page / 0x80_0000_0000, dirBase / 0x80_0000_0000;
    assert q == p || q == p - 1;
  }

  lemma TopIndexSame(page: nat, dirBase: nat)
    requires page <= dirBase < page + 0x1000 && page % 0x1000 == 0
    ensures Index(page, 0) == Index(dirBase, 0)
  {
    assert PageOf(dirBase) == page;
    IndexOfPage(dirBase, 0);
  }

  /** The two walks start at different table entries. */
  lemma RootsDiffer(page: nat, dirBase: nat)
    requires page % 0x1000 == 0 && dirBase % 16 == 0 && page < TWO_64 && dirBase < TWO_64 && page != dirBase
    ensures RootEntry(page, dirBase) != RootEntry(dirBase, page)
  {
    var i, j := Index(page, 0), Index(dirBase, 0);
    var c1, c2 := (page + 8 * j) / TWO_64, (dirBase + 8 * i) / TWO_64;
    RootAt(page, dirBase, c1);
    RootAt(dirBase, page, c2);
    if page <= dirBase < page + 0x1000 {
      TopIndexSame(page, dirBase);
    } else if page - 0x1000 < dirBase < page {
      TopIndexBelow(page, dirBase);
    }
    assert page == 0 ==> i == 0;
    hide *;
    SumsDiffer(page / 0x1000, dirBase / 16, i, j, c1, c2);
  }

  lemma SumsDiffer(p: nat, q: nat, i: nat, j: nat, c1: nat, c2: nat)
    requires 0x1000 * p < TWO_64 && 16 * q < TWO_64 && 0x1000 * p != 16 * q
    requires i < 512 && j < 512 && c1 <= 1 && c2 <= 1 && (p == 0 ==> i == 0)
    requires 0x1000 * p <= 16 * q < 0x1000 * p + 0x1000 ==> i == j
    requires 0x1000 * p - 0x1000 < 16 * q < 0x1000 * p ==> j == i || j == i - 1 || (i == 0 && j == 511)
    ensures 0x1000 * p + 8 * j - c1 * TWO_64 != 16 * q + 8 * i - c2 * TWO_64
  {
  }

  /** Whatever page and table base an entry has, if they differ there are tables on which the page is
      mapped and verifying the entry loses its translation. */
  lemma VerifyCanLose(page: nat, dirBase: nat) returns (m: Mem)
    requires page % 0x1000 == 0 && dirBase % 16 == 0 && page < TWO_64 && dirBase < TWO_64 && page != dirBase
    ensures Walk(m, dirBase, page) == Phys(0x4000_0000 + page % 0x4000_0000)
    ensures Walk(m, page, dirBase) == Fault
  {
    var root, other := RootEntry(dirBase, page), RootEntry(page, dirBase);
    var table := FreeTable(root, other);
    var leaf := EntryIn(table, page, 1);
    m := Tables(root, table, leaf);
    RootsDiffer(page, dirBase);
    RootsAligned(page, dirBase);
    EntryInPage(table, page);
    hide *;
    RootWord(root, table, leaf);
    LeafWord(root, table, leaf);
    OtherWord(root, table, leaf, other);
    MappedByTwo(m, dirBase, page, table);
    UnmappedByNone(m, page, dirBase);
  }

  lemma RootsAligned(page: nat, dirBase: nat)
    requires page % 0x1000 == 0 && dirBase % 16 == 0
    ensures RootEntry(page, dirBase) % 8 == 0 && RootEntry(dirBase, page) % 8 == 0
  {
    Coarser(page, 512, 8);
    Coarser(dirBase, 2, 8);
    hide RootEntry;
    RootAligned(page, dirBase);
    RootAligned(dirBase, page);
  }

  /** The walk that VerifyTlb makes for an entry is the walk the entry stands for, whatever the
      tables, exactly when page and table base are the same. */
  lemma VerifyIsRightExactly(page: nat, dirBase: nat)
    requires page % 0x1000 == 0 && dirBase % 16 == 0 && page < TWO_64 && dirBase < TWO_64
    ensures (forall m: Mem :: Walk(m, page, dirBase).Value() == Walk(m, dirBase, page).Value()) <==> page == dirBase
  {
    if page != dirBase {
      var m := VerifyCanLose(page, dirBase);
      hide Walk;
      assert Walk(m, page, dirBase).Value() != Walk(m, dirBase, page).Value();
    }
  }

  /** On a guest that stands still every entry of a verified slice holds the swapped walk. */
  lemma VerifiedOnStillGuest(w: World, m: Mem, limit: nat, s: Tlb, tick: nat, lo: nat, hi: nat, k: nat)
    requires Settled(w, limit) && ReadBy(w, limit, s, tick) && Inv(w, limit, s, tick)
    requires lo <= hi <= TLB_SIZE && TagsAligned(s) && lo <= k < hi
    requires forall t: nat :: w.mem(t) == m
    ensures var e := s.entries[k];
            Verify(w, tick, s, lo, hi).entries[k] == e.(translation := Walk(m, e.page, e.dirBase).Value())
  {
    VerifySwaps(w, limit, s, tick, lo, hi);
    hide Verify, SlotsOk, WalkFrom, Inv;
    var e, e' := s.entries[k], Verify(w, tick, s, lo, hi).entries[k];
    assert Reverified(w, limit, s.cur, e, e', tick + 5 * (hi - lo));
    var fs :| SwappedAt(w, limit, s.cur, e, e', fs, tick + 5 * (hi - lo));
    assert Moments(w, fs) == [m, m, m, m];
  }
}
