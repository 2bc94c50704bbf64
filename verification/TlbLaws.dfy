/** What the caches are for: they answer again what they have just answered, from their own slot, and
    not beyond the cache time. */
module TlbLaws {
  import opened Bits
  import opened Clock
  import opened GuestMemory
  import opened PageWalk
  import opened TlbModel
  import opened TlbRuns
  import opened TlbSlices
  import opened TlbHistory

  // ---- Which addresses share a slot ----

  /** The numbers of the pages differ by a multiple of 1024. */
  predicate Congruent(a: nat, b: nat) {
    (a / 0x1000 - b / 0x1000) % 1024 == 0
  }

  lemma SameSlotExactly(a: nat, b: nat)
    ensures TlbIndex(a) == TlbIndex(b) <==> Congruent(a, b)
  {
    var x, y := a / 0x1000, b / 0x1000;
    DivDef(x, 1024);
    DivDef(y, 1024);
    assert x - y == (x / 1024 - y / 1024) * 1024 + (x % 1024 - y % 1024);
  }

  /** No flush, and no translation of a page that shares the slot of `a`. */
  predicate Elsewhere(events: seq<Event>, a: nat) {
    forall i :: 0 <= i < |events| ==>
      !events[i].op.FlushOp? && (events[i].op.TranslateOp? ==> !Congruent(events[i].op.address, a))
  }

  lemma RecordElsewhere(w: World, s: Tlb, e: Event, a: nat)
    requires !e.op.FlushOp? && (e.op.TranslateOp? ==> !Congruent(e.op.address, a))
    ensures var s', k := Apply(w, s, e), TlbIndex(a);
            s'.entries[k] == s.entries[k] && s'.stamps[k] == s.stamps[k]
  {
    ApplyFollows(w, s, e, TlbIndex(a));
    hide Apply, Translate, CheckCached, TlbIndex, Congruent;
    if e.op.TranslateOp? {
      SameSlotExactly(e.op.address, a);
      SameIndex(e.op.address);
    }
  }

  lemma {:induction false} SlotUndisturbed(w: World, s: Tlb, events: seq<Event>, a: nat)
    requires Elsewhere(events, a)
    ensures var s', k := Run(w, s, events), TlbIndex(a);
            s'.entries[k] == s.entries[k] && s'.stamps[k] == s.stamps[k]
    decreases |events|
  {
    hide Apply, TlbIndex, Congruent;
    if events != [] {
      var n := |events| - 1;
      SlotUndisturbed(w, s, events[..n], a);
      RecordElsewhere(w, Run(w, s, events[..n]), events[n], a);
    }
  }

  /** What a walk has just put into the cache is found again, for every address of the page and with
      the page it put there, whatever pages of other slots are translated in between, as long as it is
      younger than the cache time then in force. */
  lemma InstallStillHits(w: World, s: Tlb, tick: nat, dirBase: nat, a: nat, events: seq<Event>, later: nat, a2: nat)
    requires GoodClock(w) && tick <= later && Elsewhere(events, a) && a2 / 0x1000 == a / 0x1000
    requires CheckCached(AtCall(w, tick, s), MaskDirBase(dirBase), a).0 == 0
    requires Nanos(w.clock(later)) - Nanos(w.clock(tick)) < LastTime(events, s.cacheMs) * 1_000_000 <= TWO_64 / 2
    ensures var (v, s1) := Translate(w, tick, s, dirBase, a);
            var s2 := Run(w, s1, events);
            && Hit(AtCall(w, later, s2), MaskDirBase(dirBase), a2)
            && CheckCached(AtCall(w, later, s2), MaskDirBase(dirBase), a2).0 == v / 0x1000 * 0x1000 + a2 % 0x1000
  {
    var d, k := MaskDirBase(dirBase), TlbIndex(a);
    var (v, s1) := Translate(w, tick, s, dirBase, a);
    var s2 := Run(w, s1, events);
    MissFollows(w, tick, s, dirBase, a, k);
    SlotUndisturbed(w, s1, events, a);
    TimeInForce(w, s1, events);
    FreshMeansYoung(w.clock(later), w.clock(tick), LastTime(events, s.cacheMs));
    SameIndex(a);
    SameSlotExactly(a, a2);
    hide Translate, Run, MaskDirBase, TlbIndex, Fresh, LastTime, Elsewhere;
    OrOffsetIsSum(PageOf(v), a2);
  }

  /** A walk for another page of the same slot takes its place. */
  lemma CongruentEvicts(w: World, s: Tlb, tick: nat, dirBase: nat, b: nat, later: nat, d: nat, a: nat)
    requires Congruent(a, b) && a / 0x1000 != b / 0x1000
    requires CheckCached(AtCall(w, tick, s), MaskDirBase(dirBase), b).0 == 0
    ensures !Hit(AtCall(w, later, Translate(w, tick, s, dirBase, b).1), d, a)
  {
    SameSlotExactly(a, b);
    SameIndex(b);
    MissFollows(w, tick, s, dirBase, b, TlbIndex(a));
    hide Translate, MaskDirBase, TlbIndex, Fresh;
  }

  // ---- No cache time ----

  lemma NothingFresh(now: Time, stamp: Time)
    ensures !Fresh(now, stamp, 0)
  {
  }

  /** With the cache time last set to zero no lookup hits. */
  lemma ZeroTimeNeverHits(w: World, s0: Tlb, events: seq<Event>, tick: nat, d: nat, a: nat)
    requires LastTime(events, s0.cacheMs) == 0
    ensures !Hit(AtCall(w, tick, Run(w, s0, events)), d, a)
  {
    TimeInForce(w, s0, events);
    var s := Run(w, s0, events);
    NothingFresh(w.clock(tick), s.stamps[TlbIndex(a)]);
    hide Run, Fresh;
  }

  lemma ZeroTimeFetch(w: World, tick: nat, s: Tlb, i: nat, address: nat)
    requires s.cacheMs == 0 && i < 4 && address % 8 == 0
    ensures Fetch(w, tick, s, i, address).0 == ReadU64(w.mem(tick), address)
    ensures Fetch(w, tick, s, i, address).1.cacheMs == 0
  {
    NothingFresh(s.cur, s.slots[i].stamp);
    hide Fresh, Word64;
    WordInsidePage(w.mem(tick), address);
  }

  lemma {:induction false} ZeroTimeWalkFrom(w: World, tick: nat, s: Tlb, level: nat, entry: nat, a: nat)
    requires s.cacheMs == 0 && level < 4 && entry % 8 == 0
    ensures WalkCached(w, tick, s, level, entry, a).0 == WalkFrom(MomentsFrom(w, tick), level, entry, a)
    decreases 4 - level
  {
    hide Fetch, ReadU64;
    ZeroTimeFetch(w, tick + 1 + level, s, level, entry);
    var next := After(level, a, ReadU64(w.mem(tick + 1 + level), entry));
    hide After;
    if next.Next? {
      ZeroTimeWalkFrom(w, tick, Fetch(w, tick + 1 + level, s, level, entry).1, level + 1, next.entry, a);
    }
  }

  /** Guest memory as the four levels of a walk find it that reads every entry itself. */
  function MomentsFrom(w: World, tick: nat): (ms: seq<Mem>)
    ensures |ms| == 4
  {
    [w.mem(tick + 1), w.mem(tick + 2), w.mem(tick + 3), w.mem(tick + 4)]
  }

  lemma ZeroTimeWalk(w: World, tick: nat, s: Tlb, d: nat, a: nat)
    requires s.cacheMs == 0 && d % 8 == 0
    ensures TranslateInternal(w, tick, s, d, a).0 == WalkAcross(MomentsFrom(w, tick), d, a)
  {
    RootAligned(d, a);
    ZeroTimeWalkFrom(w, tick, s, 0, RootEntry(d, a), a);
    hide RootEntry;
  }

  lemma MissRefills(w: World, tick: nat, s: Tlb, dirBase: nat, a: nat)
    requires !Hit(AtCall(w, tick, s), MaskDirBase(dirBase), a)
    ensures Translate(w, tick, s, dirBase, a)
         == Refill(w, tick, s.(cur := w.clock(tick)), MaskDirBase(dirBase), a)
  {
    hide Hit, Refill, MaskDirBase;
  }

  /** So after SetMemCacheTime(0), until another time is set, both caches are off: every translation
      reads the tables as they are at its own ticks, in either build. */
  lemma ZeroTimeIsUncached(w: World, s0: Tlb, events: seq<Event>, tick: nat, dirBase: nat, a: nat)
    requires LastTime(events, s0.cacheMs) == 0
    ensures Translate(w, tick, Run(w, s0, events), dirBase, a).0
         == WalkAcross(MomentsFrom(w, tick), MaskDirBase(dirBase), a).Value()
  {
    var s := Run(w, s0, events);
    ZeroTimeNeverHits(w, s0, events, tick, MaskDirBase(dirBase), a);
    TimeInForce(w, s0, events);
    MissRefills(w, tick, s, dirBase, a);
    hide Run, Translate, Hit, TranslateInternal, WalkAcross, MaskDirBase, LastTime, Install, MomentsFrom;
    ZeroTimeWalk(w, tick, s.(cur := w.clock(tick)), MaskDirBase(dirBase), a);
  }

  // ---- The page cache ----

  /** One read of a table entry with the page cache. If the slot of the level holds a young copy of the
      page the entry is taken from it and nothing is read; otherwise the slot becomes a copy of the
      page as it is now, stamped with the cache's clock reading. Other slots stay. */
  lemma FetchUsesSlot(w: World, tick: nat, s: Tlb, i: nat, address: nat)
    requires s.pageCache && i < 4 && address % 8 == 0
    requires Nanos(s.cur) < TWO_64 / 2 && Nanos(s.slots[i].stamp) < TWO_64 / 2 && s.cacheMs * 1_000_000 <= TWO_64 / 2
    ensures var (v, s') := Fetch(w, tick, s, i, address);
            var c, page, o := s.slots[i], address / 0x1000 * 0x1000, address % 0x1000;
            var c' := s'.slots[i];
            && o + 8 <= |c'.bytes| == 0x1000 && v == LittleEndian(c'.bytes[o..o + 8])
            && s' == s.(slots := s.slots[i := c'])
            && if c.page == page && 0 <= Nanos(s.cur) - Nanos(c.stamp) < s.cacheMs * 1_000_000 then c' == c
               else c'.page == page && c'.stamp == s.cur
                    && forall k :: 0 <= k < 0x1000 ==> c'.bytes[k] == w.mem(tick)(page + k)
  {
    FreshMeansYoung(s.cur, s.slots[i].stamp, s.cacheMs);
    AlignedInPage(address);
    var c' := ServingSlot(w, tick, s, i, address);
    Word64Bytes(c'.bytes[OffsetOf(address)..OffsetOf(address) + 8]);
    assert s.slots[i := s.slots[i]] == s.slots;
    hide Fresh, Word64, LittleEndian;
  }

  // ---- The counters ----

  /** A lookup that hits counts once, and every walk counts once. A remembered fault at a page start
      counts as both. */
  lemma CountersStep(w: World, tick: nat, s: Tlb, dirBase: nat, a: nat)
    ensures var s', d := Translate(w, tick, s, dirBase, a).1, MaskDirBase(dirBase);
            && s'.hits == s.hits + (if Hit(AtCall(w, tick, s), d, a) then 1 else 0)
            && s'.misses == s.misses + (if CheckCached(AtCall(w, tick, s), d, a).0 == 0 then 1 else 0)
  {
    var d := MaskDirBase(dirBase);
    var s1 := CheckCached(AtCall(w, tick, s), d, a).1;
    InternalKeepsRest(w, tick, s1, d, a);
    hide Hit, TranslateInternal, MaskDirBase, Or;
  }
}
