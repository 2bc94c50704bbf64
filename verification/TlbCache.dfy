/** The translation cache as the program keeps it: arrays updated in place. Every method is
    proved to do what the function of TlbModel.dfy does to the abstract state. */
module TlbCache {
  import opened Bits
  import opened Clock
  import opened GuestMemory
  import opened PageWalk
  import opened TlbModel
  import opened TlbSlices

  /** Translate as the lookup, the walk and the install one after the other. */
  lemma TranslateSteps(w: World, tick: nat, s: Tlb, dirBase: nat, a: nat)
    ensures var d := MaskDirBase(dirBase);
            var (cached, s1) := CheckCached(s.(cur := w.clock(tick)), d, a);
            var (o, s2) := TranslateInternal(w, tick, s1, d, a);
            Translate(w, tick, s, dirBase, a)
              == if cached != 0 then (cached, s1) else (o.Value(), Install(s2, a, o.Value(), d))
  {
    hide CheckCached, TranslateInternal, Install, MaskDirBase, Hit, Fresh, TimeDiff, CacheNanos, TlbIndex, PageOf,
         OffsetOf, RootEntry, WalkCached, Or;
  }

  class Cache {
    const pageCache: bool
    var cacheMs: nat
    const entries: array<Entry>
    const entryTimes: array<Time>
    const slots: array<Slot>
    var curTime: Time
    var hits: nat
    var misses: nat

    ghost predicate Valid()
      reads this, slots
    {
      && entries.Length == TLB_SIZE && entryTimes.Length == TLB_SIZE && slots.Length == 4
      && forall i :: 0 <= i < 4 ==> |slots[i].bytes| == 0x1000
    }

    /** The abstract state. */
    ghost function Abs(): Tlb
      requires Valid()
      reads this, entries, entryTimes, slots
    {
      State(pageCache, cacheMs, entries[..], entryTimes[..], slots[..], curTime, hits, misses)
    }

    constructor (pageCache: bool, cacheMs: nat)
      ensures Valid() && fresh(entries) && fresh(entryTimes) && fresh(slots)
      ensures Abs() == Initial(pageCache, cacheMs)
      ensures this.pageCache == pageCache && this.cacheMs == cacheMs && curTime == Time(0, 0) && hits == misses == 0
      ensures entries.Length == 1024 && entryTimes.Length == 1024
      ensures forall k :: 0 <= k < 1024 ==> entries[k] == Entry(0, 0, 0) && entryTimes[k] == Time(0, 0)
      ensures forall i :: 0 <= i < 4 ==> slots[i].page == 0 && slots[i].stamp == Time(0, 0)
    {
      this.pageCache, this.cacheMs := pageCache, cacheMs;
      entries := new Entry[TLB_SIZE](i => Entry(0, 0, 0));
      entryTimes := new Time[TLB_SIZE](i => ZERO);
      slots := new Slot[4](i => Slot(0, seq(0x1000, j => 0), ZERO));
      curTime, hits, misses := ZERO, 0, 0;
      new;
      assert entries[..] == Initial(pageCache, cacheMs).entries;
      assert entryTimes[..] == Initial(pageCache, cacheMs).stamps;
      assert slots[..] == Initial(pageCache, cacheMs).slots;
    }

    method VtUpdateCurTime(w: World, tick: nat)
      requires Valid()
      modifies this`curTime
      ensures Valid() && Abs() == old(Abs()).(cur := w.clock(tick)) && curTime == w.clock(tick)
    {
      curTime := w.clock(tick);
    }

    method VtMemReadU64(w: World, tick: nat, idx: nat, address: nat) returns (v: U64)
      requires Valid() && idx < 4 && address % 8 == 0
      modifies slots
      ensures Valid() && (v, Abs()) == Fetch(w, tick, old(Abs()), idx, address)
    {
      if !pageCache {
        v := ReadU64(w.mem(tick), address);
        return;
      }
      var page := PageOf(address);
      if slots[idx].page != page || TimeDiff(curTime, slots[idx].stamp) >= CacheNanos(cacheMs) {
        slots[idx] := Slot(page, Bytes(w.mem(tick), page, 0x1000), curTime);
      }
      assert slots[..] == old(slots[..])[idx := slots[idx]];
      WordInsidePage(w.mem(tick), address);
      v := Word64(slots[idx].bytes[OffsetOf(address)..OffsetOf(address) + 8]);
    }

    /** 0 when there is no translation. */
    method VTranslateInternal(w: World, tick: nat, dirBase: nat, a: nat) returns (r: nat)
      requires Valid() && dirBase % 8 == 0
      modifies slots
      ensures Valid()
      ensures var (o, s) := TranslateInternal(w, tick, old(Abs()), dirBase, a); r == o.Value() && Abs() == s
    {
      hide Fetch, Frame36, FrameGb, RootEntry, EntryIn;
      ghost var s0 := Abs();
      var pageOffset := OffsetOf(a);
      RootAligned(dirBase, a);

      var pdpe := VtMemReadU64(w, tick + 1, 0, RootEntry(dirBase, a));
      if !Present(pdpe) { return 0; }
      ghost var s1 := Abs();

      var pde := VtMemReadU64(w, tick + 2, 1, EntryIn(Frame36(pdpe), a, 1));
      if !Present(pde) { return 0; }
      if LargePage(pde) { return FrameGb(pde) + a % 0x4000_0000; }
      ghost var s2 := Abs();
      assert WalkCached(w, tick, s0, 0, RootEntry(dirBase, a), a)
          == WalkCached(w, tick, s2, 2, EntryIn(Frame36(pde), a, 2), a);

      var pteAddr := VtMemReadU64(w, tick + 3, 2, EntryIn(Frame36(pde), a, 2));
      if !Present(pteAddr) { return 0; }
      if LargePage(pteAddr) { return Frame36(pteAddr) + a % 0x20_0000; }
      ghost var s3 := Abs();
      assert WalkCached(w, tick, s2, 2, EntryIn(Frame36(pde), a, 2), a)
          == WalkCached(w, tick, s3, 3, EntryIn(Frame36(pteAddr), a, 3), a);

      var last := VtMemReadU64(w, tick + 4, 3, EntryIn(Frame36(pteAddr), a, 3));
      var frame := Frame36(last);
      if frame == 0 { return 0; }
      return frame + pageOffset;
    }

    method VtCheckCachedResult(w: World, tick: nat, a: nat, dirBase: nat) returns (r: nat)
      requires Valid()
      modifies this`curTime, this`hits
      ensures Valid() && (r, Abs()) == CheckCached(old(Abs()).(cur := w.clock(tick)), dirBase, a)
      ensures curTime == w.clock(tick)
      ensures var k := a / 0x1000 % 1024;
              if entries[k].dirBase == dirBase && entries[k].page == a / 0x1000 * 0x1000
                 && TimeDiff(curTime, entryTimes[k]) < CacheNanos(cacheMs)
              then r == Or(entries[k].translation, a % 0x1000) && hits == old(hits) + 1
              else r == 0 && hits == old(hits)
    {
      VtUpdateCurTime(w, tick);
      var index := TlbIndex(a);
      var tlbEntry := entries[index];
      var tlbEntryTime := entryTimes[index];
      if tlbEntry.dirBase == dirBase && tlbEntry.page == PageOf(a) {
        if TimeDiff(curTime, tlbEntryTime) < CacheNanos(cacheMs) {
          hits := hits + 1;
          return Or(tlbEntry.translation, OffsetOf(a));
        }
      }
      return 0;
    }

    method VtUpdateCachedResult(a: nat, address: nat, dirBase: nat)
      requires Valid()
      modifies this`misses, entries, entryTimes
      ensures Valid() && Abs() == Install(old(Abs()), a, address, dirBase)
      ensures var k := a / 0x1000 % 1024;
              && entries[..] == old(entries[..])[k := Entry(a / 0x1000 * 0x1000, dirBase, address / 0x1000 * 0x1000)]
              && entryTimes[..] == old(entryTimes[..])[k := curTime] && misses == old(misses) + 1
    {
      var index := TlbIndex(a);
      entryTimes[index] := curTime;
      entries[index] := Entry(PageOf(a), dirBase, PageOf(address));
      misses := misses + 1;
      assert entryTimes[..] == old(entryTimes[..])[index := curTime];
      assert entries[..] == old(entries[..])[index := entries[index]];
    }

    method VTranslate(w: World, tick: nat, dirBase: nat, a: nat) returns (r: nat)
      requires Valid()
      modifies this`curTime, this`hits, this`misses, entries, entryTimes, slots
      ensures Valid() && (r, Abs()) == Translate(w, tick, old(Abs()), dirBase, a)
    {
      hide *;
      ghost var s := Abs();
      var d := MaskDirBase(dirBase);
      TranslateSteps(w, tick, s, dirBase, a);
      var cachedVal := VtCheckCachedResult(w, tick, a, d);
      if cachedVal != 0 { return cachedVal; }
      cachedVal := VTranslateInternal(w, tick, d, a);
      VtUpdateCachedResult(a, cachedVal, d);
      return cachedVal;
    }

    method SetMemCacheTime(newTime: nat)
      requires Valid()
      modifies this`cacheMs
      ensures Valid() && Abs() == SetCacheTime(old(Abs()), newTime) && cacheMs == newTime
    {
      cacheMs := newTime;
    }

    method FlushTlb()
      requires Valid()
      modifies entryTimes
      ensures Valid() && Abs() == Flush(old(Abs()))
      ensures entries[..] == old(entries[..]) && slots[..] == old(slots[..])
      ensures forall k :: 0 <= k < 1024 ==> entryTimes[k] == Time(0, 0)
    {
      for i := 0 to TLB_SIZE
        invariant Valid() && entries[..] == old(entries[..]) && slots[..] == old(slots[..])
        invariant forall k :: 0 <= k < i ==> entryTimes[k] == ZERO
      {
        entryTimes[i] := ZERO;
      }
      assert entryTimes[..] == Flush(old(Abs())).stamps;
    }

    method VerifyTlb(w: World, tick: nat, splitCount: nat, splitID: nat)
      requires Valid() && TagsAligned(Abs())
      requires splitCount > 0
      modifies entries, entryTimes, slots
      ensures Valid()
      ensures var id := splitID % splitCount;
              var lo, hi := SliceStart(splitCount, id), SliceEnd(splitCount, id);
              lo <= hi <= TLB_SIZE && Abs() == Verify(w, tick, old(Abs()), lo, hi)
    {
      hide TranslateInternal, SliceStart, SliceEnd, VerifyEntries, SetStamps;
      var id := splitID % splitCount;
      var start, end := SliceStart(splitCount, id), SliceEnd(splitCount, id);
      ghost var s0 := Abs();
      NoEntry(w, tick, s0, start);
      for i := start to end
        invariant Valid() && Abs() == VerifyEntries(w, tick, s0, start, i)
      {
        var entry := entries[i];
        ghost var s := Abs();
        NextEntry(w, tick, s0, start, i);
        var translation := VTranslateInternal(w, tick + 5 * (i - start), entry.page, entry.dirBase);
        entries[i] := Entry(entry.page, entry.dirBase, translation);
        InternalKeepsRest(w, tick + 5 * (i - start), s, entry.page, entry.dirBase);
        assert entries[..] == s.entries[i := entries[i]];
      }
      StampSlice(start, end, w.clock(tick + 5 * (end - start)));
    }

    method StampSlice(start: nat, end: nat, time: Time)
      requires Valid() && start <= end <= TLB_SIZE
      modifies entryTimes
      ensures Valid() && Abs() == SetStamps(old(Abs()), start, end, time)
      ensures entries[..] == old(entries[..]) && slots[..] == old(slots[..])
      ensures forall k :: 0 <= k < 1024 ==> entryTimes[k] == if start <= k < end then time else old(entryTimes[k])
    {
      for i := start to end
        invariant Valid() && entries[..] == old(entries[..]) && slots[..] == old(slots[..])
        invariant forall k :: 0 <= k < TLB_SIZE ==>
                    entryTimes[k] == if start <= k < i then time else old(entryTimes[k])
      {
        entryTimes[i] := time;
      }
      assert entryTimes[..] == SetStamps(old(Abs()), start, end, time).stamps;
    }
  }
}
