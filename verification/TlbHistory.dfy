/** The translation cache as a direct-mapped cache: every slot is determined by the history of
    installs and flushes, and by nothing else. */
module TlbHistory {
  import opened Bits
  import opened Clock
  import opened GuestMemory
  import opened PageWalk
  import opened TlbModel
  import opened TlbRuns
  import opened TlbSlices

  datatype Record = Installed(entry: Entry, stamp: Time) | Flushed

  /** What the event adds to the history of the entries: a translation that is not answered
      from the cache installs its result. */
  function RecordsOf(w: World, s: Tlb, e: Event): seq<Record> {
    match e.op
    case TranslateOp(dirBase, a) =>
      var d := MaskDirBase(dirBase);
      if CheckCached(AtCall(w, e.tick, s), d, a).0 != 0 then []
      else [Installed(Entry(PageOf(a), d, PageOf(Translate(w, e.tick, s, dirBase, a).0)), w.clock(e.tick))]
    case FlushOp => [Flushed]
    case SetTimeOp(_) => []
  }

  function Log(w: World, s: Tlb, events: seq<Event>): seq<Record>
    decreases |events|
  {
    if events == [] then []
    else
      var front := events[..|events| - 1];
      Log(w, s, front) + RecordsOf(w, Run(w, s, front), events[|events| - 1])
  }

  predicate InstalledAt(log: seq<Record>, i: int, k: nat) {
    0 <= i < |log| && log[i].Installed? && TlbIndex(log[i].entry.page) == k
  }

  /** Position `i` of the log is the last install at index `k`. */
  predicate Latest(log: seq<Record>, i: int, k: nat) {
    InstalledAt(log, i, k) && forall j :: i < j < |log| ==> !InstalledAt(log, j, k)
  }

  predicate FlushedAfter(log: seq<Record>, i: int) {
    exists j :: 0 <= j < |log| && i < j && log[j].Flushed?
  }

  // ---- One event ----

  /** Slot `k` after one more record. */
  predicate Follows(s: Tlb, s': Tlb, r: Record, k: nat)
    requires k < TLB_SIZE
  {
    match r
    case Installed(e, stamp) =>
      if TlbIndex(e.page) == k then s'.entries[k] == e && s'.stamps[k] == stamp
      else s'.entries[k] == s.entries[k] && s'.stamps[k] == s.stamps[k]
    case Flushed => s'.entries[k] == s.entries[k] && s'.stamps[k] == ZERO
  }

  lemma RefillFollows(w: World, tick: nat, s: Tlb, d: nat, a: nat, k: nat)
    requires d % 8 == 0 && k < TLB_SIZE
    ensures var (v, s') := Refill(w, tick, s, d, a);
            Follows(s, s', Installed(Entry(PageOf(a), d, PageOf(v)), s.cur), k) && s'.cacheMs == s.cacheMs
  {
    InternalKeepsRest(w, tick, s, d, a);
    hide TranslateInternal;
    assert TlbIndex(PageOf(a)) == TlbIndex(a);
  }

  /** A translation that is not answered from the cache changes its own slot only. */
  lemma MissFollows(w: World, tick: nat, s: Tlb, dirBase: nat, a: nat, k: nat)
    requires k < TLB_SIZE
    requires CheckCached(AtCall(w, tick, s), MaskDirBase(dirBase), a).0 == 0
    ensures var (v, s') := Translate(w, tick, s, dirBase, a);
            Follows(s, s', Installed(Entry(PageOf(a), MaskDirBase(dirBase), PageOf(v)), w.clock(tick)), k) &&
            s'.cacheMs == s.cacheMs
  {
    var s1 := CheckCached(AtCall(w, tick, s), MaskDirBase(dirBase), a).1;
    RefillFollows(w, tick, s1, MaskDirBase(dirBase), a, k);
    hide Refill;
  }

  /** An event changes slot `k` only through the record it leaves, so a translation at one
      index never disturbs another index. */
  lemma ApplyFollows(w: World, s: Tlb, e: Event, k: nat)
    requires k < TLB_SIZE
    ensures var s', rs := Apply(w, s, e), RecordsOf(w, s, e);
            if rs == [] then s'.entries[k] == s.entries[k] && s'.stamps[k] == s.stamps[k]
            else |rs| == 1 && Follows(s, s', rs[0], k)
  {
    hide Refill;
    match e.op
    case TranslateOp(dirBase, a) =>
      if CheckCached(AtCall(w, e.tick, s), MaskDirBase(dirBase), a).0 == 0 {
        MissFollows(w, e.tick, s, dirBase, a, k);
      }
    case FlushOp =>
    case SetTimeOp(_) =>
  }

  // ---- Whole runs ----

  /** What the log says about slot `k`. */
  ghost predicate SlotMatches(s0: Tlb, s: Tlb, log: seq<Record>, k: nat)
    requires k < TLB_SIZE
  {
    && (forall i :: Latest(log, i, k) ==>
          s.entries[k] == log[i].entry &&
          s.stamps[k] == if FlushedAfter(log, i) then ZERO else log[i].stamp)
    && ((forall i :: !InstalledAt(log, i, k)) ==>
          s.entries[k] == s0.entries[k] && (s.stamps[k] == s0.stamps[k] || s.stamps[k] == ZERO))
  }

  lemma SlotMatchesNext(s0: Tlb, s: Tlb, s': Tlb, log: seq<Record>, r: Record, k: nat)
    requires k < TLB_SIZE && SlotMatches(s0, s, log, k) && Follows(s, s', r, k)
    ensures SlotMatches(s0, s', log + [r], k)
  {
    var log' := log + [r];
    var n := |log|;
    assert log'[n] == r;
    forall i | Latest(log', i, k)
      ensures s'.entries[k] == log'[i].entry
      ensures s'.stamps[k] == if FlushedAfter(log', i) then ZERO else log'[i].stamp
    {
      if i < n {
        LatestInFront(log, r, i, k);
        if FlushedAfter(log, i) {
          var j :| 0 <= j < n && i < j && log[j].Flushed?;
          assert log'[j].Flushed?;
        }
      }
    }
    if forall i :: !InstalledAt(log', i, k) {
      forall i ensures !InstalledAt(log, i, k) { assert !InstalledAt(log', i, k); }
      assert !InstalledAt(log', n, k);
    }
  }

  lemma LatestInFront(log: seq<Record>, r: Record, i: int, k: nat)
    requires Latest(log + [r], i, k) && i < |log|
    ensures Latest(log, i, k) && !InstalledAt(log + [r], |log|, k)
    ensures (log + [r])[i] == log[i]
  {
    forall j | i < j < |log| ensures !InstalledAt(log, j, k) {
      assert !InstalledAt(log + [r], j, k);
    }
  }

  /** After any run slot `k` holds exactly the last (page, table base, translation) installed at
      index `k`, with its stamp, or with the zero stamp if a flush came later. */
  lemma {:induction false} SlotIsLatestInstall(w: World, s0: Tlb, events: seq<Event>, k: nat)
    requires k < TLB_SIZE
    ensures SlotMatches(s0, Run(w, s0, events), Log(w, s0, events), k)
    decreases |events|
  {
    if events != [] {
      var n := |events| - 1;
      var front := events[..n];
      SlotIsLatestInstall(w, s0, front, k);
      var s := Run(w, s0, front);
      ApplyFollows(w, s, events[n], k);
      var rs := RecordsOf(w, s, events[n]);
      if rs == [] {
        assert Log(w, s0, events) == Log(w, s0, front);
      } else {
        assert rs == [rs[0]];
        SlotMatchesNext(s0, s, Run(w, s0, events), Log(w, s0, front), rs[0], k);
      }
    }
  }

  lemma {:induction false} LatestOrNone(log: seq<Record>, k: nat) returns (i: int)
    ensures Latest(log, i, k) || (i == -1 && forall j :: !InstalledAt(log, j, k))
    decreases |log|
  {
    if log == [] {
      i := -1;
    } else {
      var n := |log| - 1;
      if InstalledAt(log, n, k) {
        i := n;
      } else {
        i := LatestOrNone(log[..n], k);
        assert log == log[..n] + [log[n]];
        forall j | i < j ensures !InstalledAt(log, j, k) {
          if j < n { assert !InstalledAt(log[..n], j, k); }
        }
        if i == -1 {
          forall j ensures !InstalledAt(log, j, k) { }
        }
      }
    }
  }

  /** The record makes (d, a) a hit at the reading `now`. */
  predicate YoungInstall(log: seq<Record>, i: int, d: nat, a: nat, now: Time, ms: nat) {
    && Latest(log, i, TlbIndex(a)) && !FlushedAfter(log, i)
    && log[i].entry.page == PageOf(a) && log[i].entry.dirBase == d
    && 0 <= Nanos(now) - Nanos(log[i].stamp) < ms * NANOS_PER_MS
  }

  lemma {:induction false} LogStamps(w: World, s0: Tlb, events: seq<Event>, i: nat)
    requires GoodClock(w) && i < |Log(w, s0, events)| && Log(w, s0, events)[i].Installed?
    ensures Nanos(Log(w, s0, events)[i].stamp) < TWO_64 / 2
    decreases |events|
  {
    var front := events[..|events| - 1];
    if i < |Log(w, s0, front)| { LogStamps(w, s0, front, i); }
  }

  /** The cache time set last, or the one at the start. */
  function LastTime(events: seq<Event>, ms: nat): nat
    decreases |events|
  {
    if events == [] then ms
    else
      match events[|events| - 1].op
      case SetTimeOp(t) => t
      case _ => LastTime(events[..|events| - 1], ms)
  }

  lemma ApplyKeepsTime(w: World, s: Tlb, e: Event)
    ensures Apply(w, s, e).cacheMs == if e.op.SetTimeOp? then e.op.ms else s.cacheMs
  {
    hide Refill;
    match e.op
    case TranslateOp(dirBase, a) =>
      if CheckCached(AtCall(w, e.tick, s), MaskDirBase(dirBase), a).0 == 0 {
        MissFollows(w, e.tick, s, dirBase, a, 0);
      }
    case FlushOp =>
    case SetTimeOp(_) =>
  }

  /** The cache time in force after any run is the one set last. */
  lemma {:induction false} TimeInForce(w: World, s0: Tlb, events: seq<Event>)
    ensures Run(w, s0, events).cacheMs == LastTime(events, s0.cacheMs)
    decreases |events|
  {
    hide Apply;
    if events != [] {
      var n := |events| - 1;
      TimeInForce(w, s0, events[..n]);
      ApplyKeepsTime(w, Run(w, s0, events[..n]), events[n]);
    }
  }

  /** A lookup hits exactly when the last install at its index is for the same page and table
      base, younger than the cache time set last, and not flushed since. */
  lemma HitIffYoungInstall(w: World, limit: nat, pageCache: bool, ms: nat, events: seq<Event>,
                           tick: nat, d: nat, a: nat)
    requires Settled(w, limit) && ms * NANOS_PER_MS <= limit && Legal(events, limit)
    ensures var s0 := Initial(pageCache, ms);
            var s := Run(w, s0, events);
            Hit(AtCall(w, tick, s), d, a)
            <==> exists i :: YoungInstall(Log(w, s0, events), i, d, a, w.clock(tick), LastTime(events, ms))
  {
    TimeInForce(w, Initial(pageCache, ms), events);
    var s0 := Initial(pageCache, ms);
    var s := Run(w, s0, events);
    var log := Log(w, s0, events);
    var k := TlbIndex(a);
    SlotIsLatestInstall(w, s0, events, k);
    InitialInv(w, limit, pageCache, ms);
    RunInv(w, limit, s0, events);
    FreshMeansYoung(w.clock(tick), ZERO, s.cacheMs);
    var i := LatestOrNone(log, k);
    if i >= 0 {
      LogStamps(w, s0, events, i);
      FreshMeansYoung(w.clock(tick), log[i].stamp, s.cacheMs);
      if Hit(AtCall(w, tick, s), d, a) {
        assert YoungInstall(log, i, d, a, w.clock(tick), s.cacheMs);
      }
      forall j | YoungInstall(log, j, d, a, w.clock(tick), s.cacheMs) ensures Hit(AtCall(w, tick, s), d, a) {
        LatestUnique(log, i, j, k);
      }
    } else {
      forall j ensures !YoungInstall(log, j, d, a, w.clock(tick), s.cacheMs) {
        assert !InstalledAt(log, j, k);
      }
    }
  }

  lemma LatestUnique(log: seq<Record>, i: int, j: int, k: nat)
    requires Latest(log, i, k) && Latest(log, j, k)
    ensures i == j
  {
    assert InstalledAt(log, i, k) && InstalledAt(log, j, k);
  }

  /** Tags are page-aligned after any run, as VerifyTlb needs them. */
  lemma {:induction false} TagsStayAligned(w: World, s0: Tlb, events: seq<Event>)
    requires TagsAligned(s0)
    ensures TagsAligned(Run(w, s0, events))
    decreases |events|
  {
    hide Apply;
    if events != [] {
      var n := |events| - 1;
      TagsStayAligned(w, s0, events[..n]);
      forall k | 0 <= k < TLB_SIZE ensures Run(w, s0, events).entries[k].page % 8 == 0 {
        ApplyFollows(w, Run(w, s0, events[..n]), events[n], k);
        RecordsAligned(w, Run(w, s0, events[..n]), events[n]);
        hide RecordsOf;
      }
    }
  }

  lemma RecordsAligned(w: World, s: Tlb, e: Event)
    ensures forall i :: 0 <= i < |RecordsOf(w, s, e)| && RecordsOf(w, s, e)[i].Installed? ==>
              RecordsOf(w, s, e)[i].entry.page % 8 == 0
  {
    hide Translate, CheckCached, AtCall, MaskDirBase;
    if e.op.TranslateOp? { PageIsWordAligned(e.op.address); }
    hide PageOf;
  }

  lemma PageIsWordAligned(a: nat)
    ensures PageOf(a) % 8 == 0
  {
    assert PageOf(a) == a / 0x1000 * 512 * 8;
  }

  // ---- The remembered fault ----

  /** An address whose page faults, translated twice within the cache time on frozen tables: the
      first call reports the fault, the second returns the page offset. Every unaligned
      faulting address behaves so. */
  lemma RememberedFault(w: World, m: Mem, limit: nat, s: Tlb, tick: nat, later: nat, dirBase: nat, a: nat)
    requires Settled(w, limit) && Inv(w, limit, s, tick) && tick + 4 < later
    requires Frozen(w, m, MaskDirBase(dirBase), a) && Walk(m, MaskDirBase(dirBase), a).Fault?
    requires !Hit(AtCall(w, tick, s), MaskDirBase(dirBase), a)
    requires Nanos(w.clock(later)) - Nanos(w.clock(tick)) < s.cacheMs * NANOS_PER_MS
    ensures var (first, s1) := Translate(w, tick, s, dirBase, a);
            first == 0 && Translate(w, later, s1, dirBase, a).0 == OffsetOf(a)
  {
    CacheTransparency(w, m, limit, s, tick, dirBase, a);
    MissFollows(w, tick, s, dirBase, a, TlbIndex(a));
    hide Translate;
    var s1 := Translate(w, tick, s, dirBase, a).1;
    InstalledFaultHits(w, s1, tick, later, dirBase, a);
    if OffsetOf(a) == 0 {
      TranslateInv(w, limit, s, tick, dirBase, a, later);
      CacheTransparency(w, m, limit, s1, later, dirBase, a);
    }
  }

  lemma TranslateInv(w: World, limit: nat, s: Tlb, tick: nat, dirBase: nat, a: nat, later: nat)
    requires Settled(w, limit) && Inv(w, limit, s, tick) && tick + 4 <= later
    ensures Inv(w, limit, Translate(w, tick, s, dirBase, a).1, later)
  {
    var fs := TranslateOk(w, limit, s, tick, dirBase, a);
    InvLater(w, limit, Translate(w, tick, s, dirBase, a).1, tick + 4, later);
  }

  lemma InstalledFaultHits(w: World, s: Tlb, tick: nat, later: nat, dirBase: nat, a: nat)
    requires GoodClock(w) && tick <= later && s.cacheMs * NANOS_PER_MS <= TWO_64 / 2
    requires s.entries[TlbIndex(a)] == Entry(PageOf(a), MaskDirBase(dirBase), 0)
    requires s.stamps[TlbIndex(a)] == w.clock(tick)
    requires Nanos(w.clock(later)) - Nanos(w.clock(tick)) < s.cacheMs * NANOS_PER_MS
    ensures OffsetOf(a) != 0 ==> Translate(w, later, s, dirBase, a).0 == OffsetOf(a)
  {
    FreshMeansYoung(w.clock(later), w.clock(tick), s.cacheMs);
    OrOffsetIsSum(0, a);
    assert Hit(AtCall(w, later, s), MaskDirBase(dirBase), a);
  }
}
