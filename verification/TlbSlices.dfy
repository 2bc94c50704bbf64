/** Re-verification of a slice of the cache, so that several workers can share the work. */
module TlbSlices {
  import opened Bits
  import opened Clock
  import opened GuestMemory
  import opened PageWalk
  import opened TlbModel

  /** TLB_SIZE * splitID / splitCount in 64 bits. */
  function SliceStart(splitCount: nat, splitID: nat): nat
    requires splitCount > 0
  {
    Wrap64(TLB_SIZE * splitID) / splitCount
  }

  /** Slot `i` belongs to worker `id`. */
  predicate InSlice(splitCount: nat, id: nat, i: nat)
    requires splitCount > 0
  {
    SliceStart(splitCount, id) <= i < SliceStart(splitCount, id + 1)
  }

  lemma {:induction false} FloorAtMost(x: nat, c: nat, i: nat)
    requires c > 0
    ensures x / c <= i <==> x < (i + 1) * c
  {
    DivDef(x, c);
    var q := x / c;
    if q <= i {
      ProductMonotone(q + 1, i + 1, c);
      assert c * (q + 1) == q * c + c;
    } else {
      ProductMonotone(i + 1, q, c);
    }
  }

  lemma StartWithoutWrap(splitCount: nat, id: nat)
    requires 0 < splitCount < 0x40_0000_0000_0000 && id <= splitCount
    ensures SliceStart(splitCount, id) == 1024 * id / splitCount
  {
  }

  lemma InSliceBounds(splitCount: nat, id: nat, i: nat)
    requires 0 < splitCount < 0x40_0000_0000_0000 && id < splitCount && i < TLB_SIZE
    ensures InSlice(splitCount, id, i) <==> 1024 * id < (i + 1) * splitCount <= 1024 * (id + 1)
  {
    StartWithoutWrap(splitCount, id);
    StartWithoutWrap(splitCount, id + 1);
    FloorAtMost(1024 * id, splitCount, i);
    FloorAtMost(1024 * (id + 1), splitCount, i);
    hide SliceStart;
  }

  lemma SliceBounds(splitCount: nat, id: nat)
    requires splitCount > 0 && id <= splitCount
    ensures SliceStart(splitCount, id) <= TLB_SIZE
  {
    if splitCount < 0x40_0000_0000_0000 {
      StartWithoutWrap(splitCount, id);
      hide SliceStart;
      ProductMonotone(id, splitCount, 1024);
      FloorAtMost(1024 * id, splitCount, 1024);
    } else {
      ProductMonotone(0x40_0000_0000_0000, splitCount, 1024);
      FloorAtMost(Wrap64(TLB_SIZE * id), splitCount, 1023);
    }
  }

  /** Where the loops of a worker stop: a slice whose end wrapped below its start is empty. */
  function SliceEnd(splitCount: nat, id: nat): (e: nat)
    requires splitCount > 0 && id < splitCount
    ensures SliceStart(splitCount, id) <= e <= TLB_SIZE
    ensures forall i: nat :: SliceStart(splitCount, id) <= i < e <==> InSlice(splitCount, id, i)
  {
    SliceBounds(splitCount, id);
    SliceBounds(splitCount, id + 1);
    var start, end := SliceStart(splitCount, id), SliceStart(splitCount, id + 1);
    if end < start then start else end
  }

  /** The slices share the cache out evenly: a worker's start is its share of the 1024 slots, rounded
      down, so no slice is longer than another by more than one. */
  lemma SlicesAreEven(splitCount: nat, id: nat)
    requires 0 < splitCount < 0x40_0000_0000_0000 && id < splitCount
    ensures SliceStart(splitCount, id) * splitCount <= 1024 * id < (SliceStart(splitCount, id) + 1) * splitCount
    ensures var n := SliceStart(splitCount, id + 1) - SliceStart(splitCount, id);
            n == 1024 / splitCount || n == 1024 / splitCount + 1
  {
    hide *;
    StartIsFloor(splitCount, id);
    StartIsFloor(splitCount, id + 1);
    FloorBounds(1024, splitCount);
    StepBounds(splitCount, id, SliceStart(splitCount, id), SliceStart(splitCount, id + 1), 1024 / splitCount);
  }

  lemma StartIsFloor(splitCount: nat, id: nat)
    requires 0 < splitCount < 0x40_0000_0000_0000 && id <= splitCount
    ensures SliceStart(splitCount, id) * splitCount <= 1024 * id < (SliceStart(splitCount, id) + 1) * splitCount
  {
    StartWithoutWrap(splitCount, id);
    hide SliceStart;
    FloorBounds(1024 * id, splitCount);
  }

  lemma FloorBounds(x: nat, c: nat)
    requires c > 0
    ensures x / c * c <= x < (x / c + 1) * c
  {
    DivDef(x, c);
    assert (x / c + 1) * c == x / c * c + c;
  }

  lemma StepBounds(c: nat, id: nat, a: nat, b: nat, q: nat)
    requires c > 0 && a * c <= 1024 * id < (a + 1) * c && b * c <= 1024 * (id + 1) < (b + 1) * c
    requires q * c <= 1024 < (q + 1) * c
    ensures a + q <= b <= a + q + 1
  {
    assert (a + q) * c == a * c + q * c && (a + q + 2) * c == (a + 1) * c + (q + 1) * c;
    if b < a + q { ProductMonotone(b + 1, a + q, c); }
    if b > a + q + 1 { ProductMonotone(a + q + 2, b, c); }
  }

  /** Every slot belongs to exactly one worker, so the slices are disjoint and cover the cache. */
  lemma SlicesPartition(splitCount: nat, i: nat) returns (owner: nat)
    requires 0 < splitCount < 0x40_0000_0000_0000 && i < TLB_SIZE
    ensures owner < splitCount
    ensures forall id :: 0 <= id < splitCount ==> (InSlice(splitCount, id, i) <==> id == owner)
  {
    var x := (i + 1) * splitCount;
    ProductMonotone(1, i + 1, splitCount);
    ProductMonotone(i + 1, 1024, splitCount);
    owner := (x - 1) / 1024;
    forall id | 0 <= id < splitCount ensures InSlice(splitCount, id, i) <==> id == owner {
      InSliceBounds(splitCount, id, i);
    }
  }

  /** With 2^54 workers or more the products wrap and the last slot has no owner. */
  lemma LastSlotLost(splitCount: nat, id: nat)
    requires splitCount >= 0x40_0000_0000_0000
    ensures !InSlice(splitCount, id, TLB_SIZE - 1)
  {
    var x := Wrap64(TLB_SIZE * (id + 1));
    ProductMonotone(0x40_0000_0000_0000, splitCount, 1024);
    FloorAtMost(x, splitCount, 1023);
  }

  predicate Owned(splitCount: nat, i: nat)
    requires splitCount > 0
  {
    exists id :: 0 <= id < splitCount && InSlice(splitCount, id, i)
  }

  lemma NoOwner(splitCount: nat, last: nat)
    requires splitCount >= 0x40_0000_0000_0000 && last == TLB_SIZE - 1
    ensures !Owned(splitCount, last)
  {
    forall id | 0 <= id < splitCount ensures !InSlice(splitCount, id, last) { LastSlotLost(splitCount, id); }
  }

  /** So the slices cover the cache exactly for fewer than 2^54 workers. */
  lemma SlicesCoverExactly(splitCount: nat)
    requires splitCount > 0
    ensures (forall i :: 0 <= i < TLB_SIZE ==> Owned(splitCount, i)) <==> splitCount < 0x40_0000_0000_0000
  {
    if splitCount < 0x40_0000_0000_0000 {
      forall i | 0 <= i < TLB_SIZE ensures Owned(splitCount, i) {
        var owner := SlicesPartition(splitCount, i);
        assert InSlice(splitCount, owner, i);
      }
    } else {
      NoOwner(splitCount, TLB_SIZE - 1);
    }
  }

  // ---- Re-verification ----

  /** Every page tag is aligned at least as a table entry, as installs leave it. */
  predicate TagsAligned(s: Tlb) {
    forall k :: 0 <= k < TLB_SIZE ==> s.entries[k].page % 8 == 0
  }

  /** One step of VerifyTlb, with the arguments in the order of the call: the page goes where
      the table base belongs and the table base where the address belongs. */
  function VerifyEntry(w: World, tick: nat, s: Tlb, i: nat): (r: Tlb)
    requires i < TLB_SIZE && s.entries[i].page % 8 == 0
  {
    var e := s.entries[i];
    var (o, s') := TranslateInternal(w, tick, s, e.page, e.dirBase);
    s'.(entries := s.entries[i := Entry(e.page, e.dirBase, o.Value())])
  }

  /** The entries lo..hi-1 one after the other, five ticks each. */
  function VerifyEntries(w: World, tick: nat, s: Tlb, lo: nat, hi: nat): (r: Tlb)
    requires lo <= hi <= TLB_SIZE && TagsAligned(s)
    ensures TagsAligned(r)
    decreases hi
  {
    if lo == hi then s
    else VerifyEntry(w, tick + 5 * (hi - 1 - lo), VerifyEntries(w, tick, s, lo, hi - 1), hi - 1)
  }

  lemma NoEntry(w: World, tick: nat, s: Tlb, lo: nat)
    requires lo <= TLB_SIZE && TagsAligned(s)
    ensures VerifyEntries(w, tick, s, lo, lo) == s
  {
  }

  lemma NextEntry(w: World, tick: nat, s: Tlb, lo: nat, i: nat)
    requires lo <= i < TLB_SIZE && TagsAligned(s)
    ensures var s1 := VerifyEntries(w, tick, s, lo, i);
            s1.entries[i].page % 8 == 0 &&
            VerifyEntries(w, tick, s, lo, i + 1) == VerifyEntry(w, tick + 5 * (i - lo), s1, i)
  {
    hide VerifyEntry;
  }

  function SetStamps(s: Tlb, lo: nat, hi: nat, t: Time): Tlb
    requires lo <= hi <= TLB_SIZE
  {
    s.(stamps := s.stamps[..lo] + seq(hi - lo, i => t) + s.stamps[hi..])
  }

  /** VerifyTlb on the slots lo..hi-1. */
  function Verify(w: World, tick: nat, s: Tlb, lo: nat, hi: nat): Tlb
    requires lo <= hi <= TLB_SIZE && TagsAligned(s)
  {
    SetStamps(VerifyEntries(w, tick, s, lo, hi), lo, hi, w.clock(tick + 5 * (hi - lo)))
  }

  lemma {:induction false} WalkKeepsRest(w: World, tick: nat, s: Tlb, level: nat, entry: nat, a: nat)
    requires level < 4 && entry % 8 == 0
    ensures var s' := WalkCached(w, tick, s, level, entry, a).1; s' == s.(slots := s'.slots)
    decreases 4 - level
  {
    var (e, s1) := Fetch(w, tick + 1 + level, s, level, entry);
    var next := After(level, a, e);
    if next.Next? { WalkKeepsRest(w, tick, s1, level + 1, next.entry, a); }
  }

  /** With the page cache off every level is read straight from guest memory. */
  lemma {:induction false} PlainWalkFrom(w: World, tick: nat, s: Tlb, level: nat, entry: nat, a: nat)
    requires !s.pageCache && level < 4 && entry % 8 == 0
    ensures var ms := [w.mem(tick + 1), w.mem(tick + 2), w.mem(tick + 3), w.mem(tick + 4)];
            WalkCached(w, tick, s, level, entry, a) == (WalkFrom(ms, level, entry, a), s)
    decreases 4 - level
  {
    var next := After(level, a, ReadU64(w.mem(tick + 1 + level), entry));
    if next.Next? { PlainWalkFrom(w, tick, s, level + 1, next.entry, a); }
  }

  lemma PlainWalk(w: World, tick: nat, s: Tlb, dirBase: nat, a: nat)
    requires !s.pageCache && dirBase % 8 == 0
    ensures var ms := [w.mem(tick + 1), w.mem(tick + 2), w.mem(tick + 3), w.mem(tick + 4)];
            TranslateInternal(w, tick, s, dirBase, a) == (WalkAcross(ms, dirBase, a), s)
  {
    RootAligned(dirBase, a);
    PlainWalkFrom(w, tick, s, 0, RootEntry(dirBase, a), a);
  }

  lemma InternalKeepsRest(w: World, tick: nat, s: Tlb, dirBase: nat, a: nat)
    requires dirBase % 8 == 0
    ensures var s' := TranslateInternal(w, tick, s, dirBase, a).1; s' == s.(slots := s'.slots)
  {
    RootAligned(dirBase, a);
    WalkKeepsRest(w, tick, s, 0, RootEntry(dirBase, a), a);
  }

  /** What a worker leaves alone: entries and stamps outside its slice, every tag, and all
      else but the page cache. */
  ghost predicate OnlySliceChanged(s: Tlb, s': Tlb, lo: nat, hi: nat)
    requires lo <= hi <= TLB_SIZE
  {
    && s' == s.(slots := s'.slots, entries := s'.entries, stamps := s'.stamps)
    && (forall k :: 0 <= k < lo || hi <= k < TLB_SIZE ==>
          s'.entries[k] == s.entries[k] && s'.stamps[k] == s.stamps[k])
    && forall k :: 0 <= k < TLB_SIZE ==>
         s'.entries[k].page == s.entries[k].page && s'.entries[k].dirBase == s.entries[k].dirBase
  }

  lemma VerifyEntryFrame(w: World, tick: nat, s: Tlb, i: nat)
    requires i < TLB_SIZE && s.entries[i].page % 8 == 0
    ensures OnlySliceChanged(s, VerifyEntry(w, tick, s, i), i, i + 1)
    ensures VerifyEntry(w, tick, s, i).stamps == s.stamps
  {
    InternalKeepsRest(w, tick, s, s.entries[i].page, s.entries[i].dirBase);
    hide TranslateInternal;
  }

  lemma {:induction false} VerifyEntriesFrame(w: World, tick: nat, s: Tlb, lo: nat, hi: nat)
    requires lo <= hi <= TLB_SIZE && TagsAligned(s)
    ensures OnlySliceChanged(s, VerifyEntries(w, tick, s, lo, hi), lo, hi)
    ensures VerifyEntries(w, tick, s, lo, hi).stamps == s.stamps
    decreases hi
  {
    hide VerifyEntry;
    if lo < hi {
      var s1 := VerifyEntries(w, tick, s, lo, hi - 1);
      VerifyEntriesFrame(w, tick, s, lo, hi - 1);
      VerifyEntryFrame(w, tick + 5 * (hi - 1 - lo), s1, hi - 1);
    }
  }

  /** A worker changes entries and stamps of its own slice only, never a tag, and stamps its
      whole slice with one clock reading. */
  lemma VerifyFrame(w: World, tick: nat, s: Tlb, lo: nat, hi: nat)
    requires lo <= hi <= TLB_SIZE && TagsAligned(s)
    ensures var s' := Verify(w, tick, s, lo, hi);
            OnlySliceChanged(s, s', lo, hi)
            && forall k :: lo <= k < hi ==> s'.stamps[k] == w.clock(tick + 5 * (hi - lo))
  {
    VerifyEntriesFrame(w, tick, s, lo, hi);
  }
}
