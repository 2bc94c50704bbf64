/** What every run of the translation cache keeps, with a guest that changes its memory while
    it is read. */
module TlbRuns {
  import opened Bits
  import opened Clock
  import opened GuestMemory
  import opened PageWalk
  import opened TlbModel

  /** The clock is good and has run for at least `limit` ns, so a zero stamp is never young. */
  ghost predicate Settled(w: World, limit: nat) {
    && GoodClock(w)
    && 0 < limit <= TWO_64 / 2
    && forall t: nat :: limit <= Nanos(w.clock(t))
  }

  /** The memories seen at four ticks, one per table level. */
  function Moments(w: World, fs: seq<nat>): (ms: seq<Mem>)
    requires |fs| == 4
    ensures |ms| == 4
  {
    [w.mem(fs[0]), w.mem(fs[1]), w.mem(fs[2]), w.mem(fs[3])]
  }

  /** Four ticks up to `t`, each read less than `limit` ns before the reading `now`. */
  ghost predicate ReadWithin(w: World, fs: seq<nat>, t: nat, now: nat, limit: nat) {
    && |fs| == 4
    && forall i :: 0 <= i < 4 ==> fs[i] <= t && now - Nanos(w.clock(fs[i])) < limit
  }

  // ---- What the state records about the past ----

  ghost predicate FilledAt(w: World, c: Slot, f: nat, t: nat) {
    f <= t && Nanos(c.stamp) <= Nanos(w.clock(f)) && c.bytes == Bytes(w.mem(f), c.page, 0x1000)
  }

  /** A stamped slot is a copy of its page, taken no earlier than its stamp. */
  ghost predicate SlotOk(w: World, c: Slot, t: nat) {
    Nanos(c.stamp) == 0 || exists f :: FilledAt(w, c, f, t)
  }

  ghost predicate DerivedAt(w: World, limit: nat, e: Entry, stamp: Time, fs: seq<nat>, t: nat) {
    && ReadWithin(w, fs, t, Nanos(stamp), limit)
    && e.translation == WalkAcross(Moments(w, fs), e.dirBase, e.page).Value()
  }

  /** A stamped entry sits at its own index and is the walk of its page through tables read
      less than `limit` before its stamp. */
  ghost predicate EntryOk(w: World, limit: nat, e: Entry, stamp: Time, k: nat, t: nat) {
    Nanos(stamp) == 0
    || (e.page % 0x1000 == 0 && e.translation % 0x1000 == 0 && TlbIndex(e.page) == k
        && Nanos(stamp) < TWO_64 / 2 && exists fs :: DerivedAt(w, limit, e, stamp, fs, t))
  }

  ghost predicate SlotsOk(w: World, s: Tlb, t: nat) {
    forall i :: 0 <= i < 4 ==> Nanos(s.slots[i].stamp) < TWO_64 / 2 && SlotOk(w, s.slots[i], t)
  }

  ghost predicate EntriesOk(w: World, limit: nat, s: Tlb, t: nat) {
    forall k :: 0 <= k < TLB_SIZE ==> EntryOk(w, limit, s.entries[k], s.stamps[k], k, t)
  }

  /** The invariant of the cache at tick `t`. */
  ghost predicate Inv(w: World, limit: nat, s: Tlb, t: nat) {
    s.cacheMs * NANOS_PER_MS <= limit && SlotsOk(w, s, t) && EntriesOk(w, limit, s, t)
  }

  lemma InitialInv(w: World, limit: nat, pageCache: bool, ms: nat)
    requires ms * NANOS_PER_MS <= limit
    ensures Inv(w, limit, Initial(pageCache, ms), 0)
  {
  }

  lemma SlotOkLater(w: World, c: Slot, t: nat, u: nat)
    requires SlotOk(w, c, t) && t <= u
    ensures SlotOk(w, c, u)
  {
    if Nanos(c.stamp) != 0 {
      var f :| FilledAt(w, c, f, t);
      assert FilledAt(w, c, f, u);
    }
  }

  lemma EntryOkLater(w: World, limit: nat, e: Entry, stamp: Time, k: nat, t: nat, u: nat)
    requires EntryOk(w, limit, e, stamp, k, t) && t <= u
    ensures EntryOk(w, limit, e, stamp, k, u)
  {
    if Nanos(stamp) != 0 {
      var fs :| DerivedAt(w, limit, e, stamp, fs, t);
      assert DerivedAt(w, limit, e, stamp, fs, u);
    }
  }

  lemma InvLater(w: World, limit: nat, s: Tlb, t: nat, u: nat)
    requires Inv(w, limit, s, t) && t <= u
    ensures Inv(w, limit, s, u)
  {
    forall i | 0 <= i < 4 ensures SlotOk(w, s.slots[i], u) { SlotOkLater(w, s.slots[i], t, u); }
    forall k | 0 <= k < TLB_SIZE
      ensures EntryOk(w, limit, s.entries[k], s.stamps[k], k, u)
    {
      EntryOkLater(w, limit, s.entries[k], s.stamps[k], k, t, u);
    }
  }

  // ---- One read of a table entry ----

  /** The cache's last reading is no later than tick `t`; with the page cache there has been one. */
  ghost predicate ReadBy(w: World, limit: nat, s: Tlb, t: nat) {
    Nanos(s.cur) <= Nanos(w.clock(t)) && (s.pageCache ==> limit <= Nanos(s.cur))
  }

  /** A young slot really is younger than `limit`, and was really filled. */
  lemma YoungSlot(w: World, limit: nat, s: Tlb, c: Slot, t: nat) returns (f: nat)
    requires Settled(w, limit) && ReadBy(w, limit, s, t) && s.pageCache
    requires s.cacheMs * NANOS_PER_MS <= limit
    requires Nanos(c.stamp) < TWO_64 / 2 && SlotOk(w, c, t)
    requires Fresh(s.cur, c.stamp, s.cacheMs)
    ensures FilledAt(w, c, f, t)
    ensures Nanos(s.cur) - Nanos(w.clock(f)) < limit
  {
    FreshMeansYoung(s.cur, c.stamp, s.cacheMs);
    f :| FilledAt(w, c, f, t);
  }

  /** Every fetch delivers the word that guest memory held at some tick less than `limit` ago,
      the page cache on or off. */
  lemma FetchedRecently(w: World, limit: nat, s: Tlb, tick: nat, i: nat, address: nat)
      returns (f: nat)
    requires Settled(w, limit) && ReadBy(w, limit, s, tick)
    requires s.cacheMs * NANOS_PER_MS <= limit
    requires SlotsOk(w, s, tick)
    requires i < 4 && address % 8 == 0
    ensures f <= tick && Nanos(s.cur) - Nanos(w.clock(f)) < limit
    ensures Fetch(w, tick, s, i, address).0 == ReadU64(w.mem(f), address)
    ensures SlotsOk(w, Fetch(w, tick, s, i, address).1, tick)
  {
    f := tick;
    if s.pageCache {
      var c := ServingSlot(w, tick, s, i, address);
      if c == s.slots[i] && Fresh(s.cur, c.stamp, s.cacheMs) {
        f := YoungSlot(w, limit, s, c, tick);
      } else {
        assert FilledAt(w, c, tick, tick);
      }
      WordInsidePage(w.mem(f), address);
    }
  }

  lemma {:induction false} WalkFromTail(ms: seq<Mem>, ns: seq<Mem>, level: nat, entry: nat, a: nat)
    requires |ms| == 4 && |ns| == 4 && level < 4
    requires forall j :: level <= j < 4 ==> ms[j] == ns[j]
    ensures WalkFrom(ms, level, entry, a) == WalkFrom(ns, level, entry, a)
    decreases 4 - level
  {
    var s := After(level, a, ReadU64(ms[level], entry));
    if s.Next? { WalkFromTail(ms, ns, level + 1, s.entry, a); }
  }

  /** From `level` on, the cached walk is the walk through the memories of the ticks `fs`, all
      in the last `limit` ns, and it leaves only well-founded slots behind. */
  ghost predicate WalkOk(w: World, limit: nat, s: Tlb, call: nat, level: nat, entry: nat, a: nat, fs: seq<nat>)
    requires level < 4 && entry % 8 == 0
  {
    var (o, s') := WalkCached(w, call, s, level, entry, a);
    && ReadWithin(w, fs, call + 4, Nanos(s.cur), limit)
    && o == WalkFrom(Moments(w, fs), level, entry, a)
    && s' == s.(slots := s'.slots)
    && SlotsOk(w, s', call + 4)
  }

  lemma WalkOkAtEnd(w: World, limit: nat, s: Tlb, call: nat, level: nat, entry: nat, a: nat, f: nat)
    requires level < 4 && entry % 8 == 0
    requires f <= call + 4 && Nanos(s.cur) - Nanos(w.clock(f)) < limit
    requires Fetch(w, call + 1 + level, s, level, entry).0 == ReadU64(w.mem(f), entry)
    requires SlotsOk(w, Fetch(w, call + 1 + level, s, level, entry).1, call + 4)
    requires After(level, a, ReadU64(w.mem(f), entry)).Done?
    ensures WalkOk(w, limit, s, call, level, entry, a, [f, f, f, f])
  {
  }

  lemma WalkOkBelow(w: World, limit: nat, s: Tlb, call: nat, level: nat, entry: nat, a: nat, f: nat,
                    s1: Tlb, n: nat, fs: seq<nat>)
    requires level < 3 && entry % 8 == 0 && n % 8 == 0
    requires f <= call + 4 && Nanos(s.cur) - Nanos(w.clock(f)) < limit
    requires Fetch(w, call + 1 + level, s, level, entry) == (ReadU64(w.mem(f), entry), s1)
    requires s1 == s.(slots := s1.slots)
    requires After(level, a, ReadU64(w.mem(f), entry)) == Next(n)
    requires WalkOk(w, limit, s1, call, level + 1, n, a, fs)
    ensures |fs| == 4 && WalkOk(w, limit, s, call, level, entry, a, fs[level := f])
  {
    WalkFromTail(Moments(w, fs), Moments(w, fs[level := f]), level + 1, n, a);
    assert Moments(w, fs[level := f])[level] == w.mem(f);
    assert WalkCached(w, call, s, level, entry, a) == WalkCached(w, call, s1, level + 1, n, a);
  }

  lemma {:induction false} WalkedRecently(w: World, limit: nat, s: Tlb, call: nat, level: nat, entry: nat, a: nat)
      returns (fs: seq<nat>)
    requires Settled(w, limit) && ReadBy(w, limit, s, call)
    requires s.cacheMs * NANOS_PER_MS <= limit
    requires level < 4 && entry % 8 == 0 && SlotsOk(w, s, call + 1 + level)
    ensures WalkOk(w, limit, s, call, level, entry, a, fs)
    decreases 4 - level, 1
  {
    var f := FetchedRecently(w, limit, s, call + 1 + level, level, entry);
    var s1 := Fetch(w, call + 1 + level, s, level, entry).1;
    if After(level, a, ReadU64(w.mem(f), entry)).Next? {
      fs := WalkedBelow(w, limit, s, call, level, entry, a, f, s1);
    } else {
      fs := [f, f, f, f];
      SlotsOkLater(w, s1, call + 1 + level, call + 4);
      WalkOkAtEnd(w, limit, s, call, level, entry, a, f);
    }
  }

  lemma {:induction false} WalkedBelow(w: World, limit: nat, s: Tlb, call: nat, level: nat, entry: nat, a: nat,
                                       f: nat, s1: Tlb)
      returns (fs: seq<nat>)
    requires Settled(w, limit) && ReadBy(w, limit, s, call)
    requires s.cacheMs * NANOS_PER_MS <= limit
    requires level < 4 && entry % 8 == 0 && SlotsOk(w, s1, call + 1 + level)
    requires f <= call + 1 + level && Nanos(s.cur) - Nanos(w.clock(f)) < limit
    requires Fetch(w, call + 1 + level, s, level, entry) == (ReadU64(w.mem(f), entry), s1)
    requires s1 == s.(slots := s1.slots)
    requires After(level, a, ReadU64(w.mem(f), entry)).Next?
    ensures WalkOk(w, limit, s, call, level, entry, a, fs)
    decreases 4 - level, 0
  {
    var n := After(level, a, ReadU64(w.mem(f), entry)).entry;
    SlotsOkLater(w, s1, call + 1 + level, call + 2 + level);
    var below := WalkedRecently(w, limit, s1, call, level + 1, n, a);
    fs := below[level := f];
    WalkOkBelow(w, limit, s, call, level, entry, a, f, s1, n, below);
  }

  lemma SlotsOkLater(w: World, s: Tlb, t: nat, u: nat)
    requires SlotsOk(w, s, t) && t <= u
    ensures SlotsOk(w, s, u)
  {
    forall i | 0 <= i < 4 ensures SlotOk(w, s.slots[i], u) { SlotOkLater(w, s.slots[i], t, u); }
  }

  // ---- One translation ----

  /** The result is the outcome's value, or the bare page offset in place of a fault. */
  predicate Faithful(v: nat, o: Outcome, a: nat) {
    v == o.Value() || (o.Fault? && v == OffsetOf(a))
  }

  /** What VTranslate first looks at: the state with the clock just read. */
  function AtCall(w: World, tick: nat, s: Tlb): Tlb {
    s.(cur := w.clock(tick))
  }

  /** What a walk installs is derived from the ticks the walk read. */
  lemma InstalledEntryOk(w: World, limit: nat, stamp: Time, a: nat, d: nat, fs: seq<nat>, t: nat)
    requires Nanos(stamp) < TWO_64 / 2 && ReadWithin(w, fs, t, Nanos(stamp), limit)
    ensures var e := Entry(PageOf(a), d, PageOf(WalkAcross(Moments(w, fs), d, a).Value()));
            EntryOk(w, limit, e, stamp, TlbIndex(a), t)
  {
    hide WalkAcross, Moments, TlbIndex, PageOf, OffsetOf;
    InstalledParts(Moments(w, fs), d, a);
    assert DerivedAt(w, limit, Entry(PageOf(a), d, PageOf(WalkAcross(Moments(w, fs), d, a).Value())), stamp, fs, t);
  }

  /** What a walk of `a` installs is aligned, at the index of its page, and the walk of its page. */
  lemma InstalledParts(ms: seq<Mem>, d: nat, a: nat)
    requires |ms| == 4
    ensures PageOf(a) % 0x1000 == 0 && TlbIndex(PageOf(a)) == TlbIndex(a)
    ensures PageOf(WalkAcross(ms, d, a).Value()) == WalkAcross(ms, d, PageOf(a)).Value()
    ensures PageOf(WalkAcross(ms, d, a).Value()) % 0x1000 == 0
  {
    WalkOfPage(ms, d, a);
    SameIndex(a);
    var page := WalkAcross(ms, d, PageOf(a));
    OffsetOfSum(0, 0);
    if page.Phys? { OffsetOfSum(page.address, OffsetOf(a)); }
    hide WalkAcross, TlbIndex, PageOf, OffsetOf;
  }

  lemma SameIndex(a: nat)
    ensures TlbIndex(PageOf(a)) == TlbIndex(a)
  {
  }

  lemma InstallInv(w: World, limit: nat, s: Tlb, a: nat, d: nat, fs: seq<nat>, t: nat)
    requires Inv(w, limit, s, t) && Nanos(s.cur) < TWO_64 / 2
    requires ReadWithin(w, fs, t, Nanos(s.cur), limit)
    ensures Inv(w, limit, Install(s, a, WalkAcross(Moments(w, fs), d, a).Value(), d), t)
  {
    InstalledEntryOk(w, limit, s.cur, a, d, fs, t);
  }

  /** The invariant sees only the cache time, the slots and the stamped entries. */
  lemma InvOfParts(w: World, limit: nat, s: Tlb, s': Tlb, t: nat)
    requires Inv(w, limit, s, t) && SlotsOk(w, s', t)
    requires s'.entries == s.entries && s'.stamps == s.stamps && s'.cacheMs == s.cacheMs
    ensures Inv(w, limit, s', t)
  {
  }

  lemma WalkInternal(w: World, limit: nat, s: Tlb, tick: nat, d: nat, a: nat) returns (fs: seq<nat>)
    requires Settled(w, limit) && ReadBy(w, limit, s, tick) && d % 8 == 0
    requires s.cacheMs * NANOS_PER_MS <= limit && SlotsOk(w, s, tick + 1)
    ensures ReadWithin(w, fs, tick + 4, Nanos(s.cur), limit)
    ensures var (o, s') := TranslateInternal(w, tick, s, d, a);
            o == WalkAcross(Moments(w, fs), d, a) && s' == s.(slots := s'.slots) && SlotsOk(w, s', tick + 4)
  {
    RootAligned(d, a);
    fs := WalkedRecently(w, limit, s, tick, 0, RootEntry(d, a), a);
  }

  lemma RefillOk(w: World, limit: nat, s: Tlb, tick: nat, d: nat, a: nat) returns (fs: seq<nat>)
    requires Settled(w, limit) && s.cur == w.clock(tick) && d % 8 == 0
    requires Inv(w, limit, s, tick)
    ensures ReadWithin(w, fs, tick + 4, Nanos(s.cur), limit)
    ensures Refill(w, tick, s, d, a).0 == WalkAcross(Moments(w, fs), d, a).Value()
    ensures Inv(w, limit, Refill(w, tick, s, d, a).1, tick + 4)
  {
    SlotsOkLater(w, s, tick, tick + 1);
    fs := WalkInternal(w, limit, s, tick, d, a);
    var s' := TranslateInternal(w, tick, s, d, a).1;
    InvLater(w, limit, s, tick, tick + 4);
    InvOfParts(w, limit, s, s', tick + 4);
    InstallInv(w, limit, s', a, d, fs, tick + 4);
  }

  lemma CheckKeepsRest(s: Tlb, d: nat, a: nat)
    ensures var s' := CheckCached(s, d, a).1; s' == s.(hits := s'.hits)
  {
  }

  /** A translation that is not answered from the cache is a walk through memories of the last
      `limit` ns. */
  lemma TranslateMiss(w: World, limit: nat, s: Tlb, tick: nat, dirBase: nat, a: nat) returns (fs: seq<nat>)
    requires Settled(w, limit) && Inv(w, limit, s, tick)
    requires CheckCached(AtCall(w, tick, s), MaskDirBase(dirBase), a).0 == 0
    ensures ReadWithin(w, fs, tick + 4, Nanos(w.clock(tick)), limit)
    ensures Translate(w, tick, s, dirBase, a).0 == WalkAcross(Moments(w, fs), MaskDirBase(dirBase), a).Value()
    ensures Inv(w, limit, Translate(w, tick, s, dirBase, a).1, tick + 4)
  {
    var d := MaskDirBase(dirBase);
    var s1 := CheckCached(AtCall(w, tick, s), d, a).1;
    CheckKeepsRest(AtCall(w, tick, s), d, a);
    hide Refill, CheckCached;
    InvOfParts(w, limit, s, s1, tick);
    fs := RefillOk(w, limit, s1, tick, d, a);
  }

  /** A translation answered from the cache is a walk through memories of the last 2 * `limit`
      ns, up to a remembered fault. */
  lemma TranslateHit(w: World, limit: nat, s: Tlb, tick: nat, dirBase: nat, a: nat) returns (fs: seq<nat>)
    requires Settled(w, limit) && Inv(w, limit, s, tick)
    requires Hit(AtCall(w, tick, s), MaskDirBase(dirBase), a)
    ensures ReadWithin(w, fs, tick, Nanos(w.clock(tick)), 2 * limit)
    ensures var o := WalkAcross(Moments(w, fs), MaskDirBase(dirBase), a);
            CheckCached(AtCall(w, tick, s), MaskDirBase(dirBase), a).0
              == if o.Fault? then OffsetOf(a) else o.address
  {
    var k := TlbIndex(a);
    var e, stamp := s.entries[k], s.stamps[k];
    assert EntryOk(w, limit, e, stamp, k, tick);
    FreshMeansYoung(w.clock(tick), stamp, s.cacheMs);
    fs :| DerivedAt(w, limit, e, stamp, fs, tick);
    WalkOfPage(Moments(w, fs), MaskDirBase(dirBase), a);
    OrOffsetIsSum(e.translation, a);
  }

  /** Every translation, hit or miss, delivers a walk whose table words were read less than
      2 * `limit` ns before the call, and keeps the invariant. */
  lemma TranslateOk(w: World, limit: nat, s: Tlb, tick: nat, dirBase: nat, a: nat) returns (fs: seq<nat>)
    requires Settled(w, limit) && Inv(w, limit, s, tick)
    ensures ReadWithin(w, fs, tick + 4, Nanos(w.clock(tick)), 2 * limit)
    ensures var (v, s') := Translate(w, tick, s, dirBase, a);
            Faithful(v, WalkAcross(Moments(w, fs), MaskDirBase(dirBase), a), a) &&
            Inv(w, limit, s', tick + 4)
  {
    if CheckCached(AtCall(w, tick, s), MaskDirBase(dirBase), a).0 == 0 {
      fs := TranslateMiss(w, limit, s, tick, dirBase, a);
    } else {
      fs := TranslateHit(w, limit, s, tick, dirBase, a);
      InvLater(w, limit, s, tick, tick + 4);
    }
  }

  // ---- Runs ----

  datatype Op = TranslateOp(dirBase: nat, address: nat) | FlushOp | SetTimeOp(ms: nat)

  datatype Event = Event(tick: nat, op: Op)

  function Apply(w: World, s: Tlb, e: Event): Tlb {
    match e.op
    case TranslateOp(d, a) => Translate(w, e.tick, s, d, a).1
    case FlushOp => Flush(s)
    case SetTimeOp(ms) => SetCacheTime(s, ms)
  }

  /** The state after the events, oldest first. */
  function Run(w: World, s: Tlb, events: seq<Event>): Tlb
    decreases |events|
  {
    if events == [] then s
    else Apply(w, Run(w, s, events[..|events| - 1]), events[|events| - 1])
  }

  /** Calls do not overlap, and no cache time above `limit` is ever set. */
  predicate Legal(events: seq<Event>, limit: nat) {
    && (forall i, j :: 0 <= i < j < |events| ==> events[i].tick + 4 < events[j].tick)
    && forall i :: 0 <= i < |events| && events[i].op.SetTimeOp? ==> events[i].op.ms * NANOS_PER_MS <= limit
  }

  function EndTick(events: seq<Event>): nat {
    if events == [] then 0 else events[|events| - 1].tick + 4
  }

  lemma FlushInv(w: World, limit: nat, s: Tlb, t: nat)
    requires Inv(w, limit, s, t)
    ensures Inv(w, limit, Flush(s), t)
  {
    forall k | 0 <= k < TLB_SIZE
      ensures EntryOk(w, limit, Flush(s).entries[k], Flush(s).stamps[k], k, t)
    {
      assert Flush(s).stamps[k] == ZERO;
    }
  }

  lemma SetCacheTimeInv(w: World, limit: nat, s: Tlb, ms: nat, t: nat)
    requires Inv(w, limit, s, t) && ms * NANOS_PER_MS <= limit
    ensures Inv(w, limit, SetCacheTime(s, ms), t)
  {
    assert SlotsOk(w, SetCacheTime(s, ms), t);
    assert EntriesOk(w, limit, SetCacheTime(s, ms), t);
  }

  lemma ApplyInv(w: World, limit: nat, s: Tlb, e: Event)
    requires Settled(w, limit) && Inv(w, limit, s, e.tick)
    requires e.op.SetTimeOp? ==> e.op.ms * NANOS_PER_MS <= limit
    ensures Inv(w, limit, Apply(w, s, e), e.tick + 4)
  {
    hide Translate;
    match e.op
    case TranslateOp(d, a) =>
      var _ := TranslateOk(w, limit, s, e.tick, d, a);
    case FlushOp =>
      InvLater(w, limit, s, e.tick, e.tick + 4);
      FlushInv(w, limit, s, e.tick + 4);
    case SetTimeOp(ms) =>
      InvLater(w, limit, s, e.tick, e.tick + 4);
      SetCacheTimeInv(w, limit, s, ms, e.tick + 4);
  }

  /** The invariant holds after every run. */
  lemma {:induction false} RunInv(w: World, limit: nat, s: Tlb, events: seq<Event>)
    requires Settled(w, limit) && Legal(events, limit) && Inv(w, limit, s, 0)
    ensures Inv(w, limit, Run(w, s, events), EndTick(events))
    decreases |events|
  {
    if events != [] {
      var n := |events| - 1;
      var front := events[..n];
      RunInv(w, limit, s, front);
      InvLater(w, limit, Run(w, s, front), EndTick(front), events[n].tick);
      ApplyInv(w, limit, Run(w, s, front), events[n]);
    }
  }

  lemma ReachableInv(w: World, limit: nat, pageCache: bool, ms: nat, events: seq<Event>, tick: nat)
    requires Settled(w, limit) && ms * NANOS_PER_MS <= limit && Legal(events, limit) && EndTick(events) <= tick
    ensures Inv(w, limit, Run(w, Initial(pageCache, ms), events), tick)
  {
    InitialInv(w, limit, pageCache, ms);
    RunInv(w, limit, Initial(pageCache, ms), events);
    InvLater(w, limit, Run(w, Initial(pageCache, ms), events), EndTick(events), tick);
  }

  /** Bounded staleness. After any run, with the guest changing its memory at will, a
      translation is the walk of the address through table words each of which guest memory
      held less than twice the largest cache time before the call. */
  lemma BoundedStaleness(w: World, limit: nat, pageCache: bool, ms: nat, events: seq<Event>,
                         tick: nat, dirBase: nat, a: nat) returns (fs: seq<nat>)
    requires Settled(w, limit) && ms * NANOS_PER_MS <= limit && Legal(events, limit) && EndTick(events) <= tick
    ensures ReadWithin(w, fs, tick + 4, Nanos(w.clock(tick)), 2 * limit)
    ensures Faithful(Translate(w, tick, Run(w, Initial(pageCache, ms), events), dirBase, a).0,
                     WalkAcross(Moments(w, fs), MaskDirBase(dirBase), a), a)
  {
    var s := Run(w, Initial(pageCache, ms), events);
    ReachableInv(w, limit, pageCache, ms, events, tick);
    fs := TranslateOk(w, limit, s, tick, dirBase, a);
  }

  /** Just after a flush only the page cache can be stale: the bound is one cache time, and the
      result is the walk itself. */
  lemma FlushHalvesStaleness(w: World, limit: nat, pageCache: bool, ms: nat, events: seq<Event>,
                             tick: nat, dirBase: nat, a: nat) returns (fs: seq<nat>)
    requires Settled(w, limit) && ms * NANOS_PER_MS <= limit && Legal(events, limit) && EndTick(events) <= tick
    ensures ReadWithin(w, fs, tick + 4, Nanos(w.clock(tick)), limit)
    ensures Translate(w, tick, Flush(Run(w, Initial(pageCache, ms), events)), dirBase, a).0
         == WalkAcross(Moments(w, fs), MaskDirBase(dirBase), a).Value()
  {
    var s := Run(w, Initial(pageCache, ms), events);
    ReachableInv(w, limit, pageCache, ms, events, tick);
    FreshMeansYoung(w.clock(tick), ZERO, s.cacheMs);
    FlushInv(w, limit, s, tick);
    fs := TranslateMiss(w, limit, Flush(s), tick, dirBase, a);
  }

  // ---- Transparency on tables that stay as they are ----

  /** The table entries on the path of `a` are at every tick what they are in `m`. */
  ghost predicate Frozen(w: World, m: Mem, dirBase: nat, a: nat) {
    forall t: nat :: SameTables(m, w.mem(t), dirBase, a)
  }

  lemma FrozenMoments(w: World, m: Mem, fs: seq<nat>, dirBase: nat, a: nat)
    requires |fs| == 4 && Frozen(w, m, dirBase, a)
    ensures WalkAcross(Moments(w, fs), dirBase, a) == Walk(m, dirBase, a)
  {
    FrozenWalk(m, Moments(w, fs), dirBase, a);
  }

  /** In any state that satisfies the invariant, with the path of the address frozen, the cached
      translation is the uncached walk, except exactly when the cache remembers that the page
      faults and the address is not page-aligned. The page part is always right. */
  lemma CacheTransparency(w: World, m: Mem, limit: nat, s: Tlb, tick: nat, dirBase: nat, a: nat)
    requires Settled(w, limit) && Inv(w, limit, s, tick)
    requires Frozen(w, m, MaskDirBase(dirBase), a)
    ensures var d := MaskDirBase(dirBase);
            var v, walk := Translate(w, tick, s, dirBase, a).0, Walk(m, d, a);
            && (v == walk.Value() <==> !(Hit(AtCall(w, tick, s), d, a) && walk.Fault? && OffsetOf(a) != 0))
            && PageOf(v) == PageOf(walk.Value())
  {
    var d := MaskDirBase(dirBase);
    if Hit(AtCall(w, tick, s), d, a) {
      var fs := TranslateHit(w, limit, s, tick, dirBase, a);
      FrozenMoments(w, m, fs, d, a);
      OffsetOfSum(0, OffsetOf(a));
    }
    if CheckCached(AtCall(w, tick, s), d, a).0 == 0 {
      var fs := TranslateMiss(w, limit, s, tick, dirBase, a);
      FrozenMoments(w, m, fs, d, a);
    }
  }

  /** The same after any run from the initial state. */
  lemma RunTransparency(w: World, m: Mem, limit: nat, pageCache: bool, ms: nat, events: seq<Event>,
                        tick: nat, dirBase: nat, a: nat)
    requires Settled(w, limit) && ms * NANOS_PER_MS <= limit && Legal(events, limit) && EndTick(events) <= tick
    requires Frozen(w, m, MaskDirBase(dirBase), a)
    requires !Walk(m, MaskDirBase(dirBase), a).Fault? || OffsetOf(a) == 0
    ensures Translate(w, tick, Run(w, Initial(pageCache, ms), events), dirBase, a).0
         == Walk(m, MaskDirBase(dirBase), a).Value()
  {
    var s := Run(w, Initial(pageCache, ms), events);
    ReachableInv(w, limit, pageCache, ms, events, tick);
    CacheTransparency(w, m, limit, s, tick, dirBase, a);
  }
}
