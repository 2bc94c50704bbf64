/** Virtual reads and writes as the program performs them: split, translate through the cache,
    compact into an array, transfer. */
module VMem {
  import opened Bits
  import opened GuestMemory
  import opened TlbModel
  import opened TlbCache
  import opened Splitter
  import opened DataCount
  import opened PhysMem

  const MAX_BATCHED_RW: nat := 1024

  /** The largest size whose page count fits an `int`: 2^31 - 2 pages. */
  const MAX_REQUEST: nat := 0x7ff_ffff_e000

  /** Translates one piece and writes it into slot `at`. */
  method TranslateInto(tlb: Cache, w: World, tick: nat, dirBase: nat, info: array<RW>, at: nat,
                       local: nat, a: nat, size: nat) returns (v: nat)
    requires tlb.Valid() && at < info.Length
    modifies info, tlb`curTime, tlb`hits, tlb`misses, tlb.entries, tlb.entryTimes, tlb.slots
    ensures tlb.Valid() && (v, tlb.Abs()) == Translate(w, tick, old(tlb.Abs()), dirBase, a)
    ensures info[..] == old(info[..])[at := RW(local, v, size)]
  {
    v := tlb.VTranslate(w, tick, dirBase, a);
    info[at] := RW(local, v, size);
  }

  /** Writes the compacted list at `info[base..]`, after clearing `clear` slots. `calls` counts the
      translations, which advance the guest five ticks each. */
  method FillRWInfo(tlb: Cache, w: World, tick: nat, dirBase: nat, info: array<RW>, base: nat, clear: nat, e: RW)
      returns (count: nat, calls: nat)
    requires tlb.Valid()
    requires base + |Pieces(e.remote, e.size)| <= info.Length && base + clear <= info.Length
    modifies info, tlb`curTime, tlb`hits, tlb`misses, tlb.entries, tlb.entryTimes, tlb.slots
    ensures tlb.Valid() && count <= calls == |Pieces(e.remote, e.size)|
    ensures (info[base..base + count], tlb.Abs()) == Fill(w, tick, old(tlb.Abs()), dirBase, e)
    ensures info[..base] == old(info[..base])
  {
    hide *;
    ghost var s0 := tlb.Abs();
    ghost var ps := Pieces(e.remote, e.size);
    forall i | 0 <= i < clear { info[base + i] := RW(0, 0, 0); }

    var curSize := FirstSize(e.remote, e.size);
    var v := TranslateInto(tlb, w, tick, dirBase, info, base, e.local, Wrap64(e.remote), curSize);
    ghost var vs := [v];
    count, calls := 1, 1;
    PiecesStart(e.remote, e.size);
    SplitFirst(w, tick, s0, dirBase, e, v, tlb.Abs());
    assert info[base..base + 1] == [RW(e.local, v, curSize)];

    while curSize < e.size
      invariant tlb.Valid() && 1 <= count <= calls <= |ps|
      invariant ps[calls..] == TailPieces(curSize, e.size)
      invariant SplitSoFar(w, tick, s0, dirBase, e, calls, vs, tlb.Abs(), info[base..base + count])
      invariant info[..base] == old(info[..base])
      decreases e.size - curSize
    {
      TailStep(ps, calls, curSize, e.size);
      ghost var s, list := tlb.Abs(), info[base..base + count];
      v := TranslateInto(tlb, w, tick + 5 * calls, dirBase, info, base + count,
                         e.local + curSize, Wrap64(e.remote + curSize), Min(0x1000, e.size - curSize));
      SplitNext(w, tick, s0, dirBase, e, calls, vs, s, list, v, tlb.Abs());
      assert info[base..base + count + 1] == list + [RW(e.local + curSize, v, Min(0x1000, e.size - curSize))];
      if v != 0 {
        count := count + 1;
      } else {
        assert info[base..base + count] == list;
      }
      vs, calls, curSize := vs + [v], calls + 1, curSize + 0x1000;
    }
    TailEnd(ps, calls, curSize, e.size);
    SplitAll(w, tick, s0, dirBase, e, vs, tlb.Abs(), info[base..base + count]);
  }

  /** After `k` pieces: their translations, the cache state, and the compacted list. */
  ghost predicate SplitSoFar(w: World, tick: nat, s0: Tlb, dirBase: nat, e: RW, k: nat, vs: seq<nat>, s: Tlb,
                             list: seq<RW>)
  {
    var ps := Pieces(e.remote, e.size);
    && 1 <= k <= |ps| && |vs| == k
    && (vs, s) == TranslateAll(w, tick, s0, dirBase, e.remote, ps[..k])
    && list == Chunks(e.local, ps[..k], vs)
  }

  lemma SplitFirst(w: World, tick: nat, s0: Tlb, dirBase: nat, e: RW, v: nat, s: Tlb)
    requires (v, s) == Translate(w, tick, s0, dirBase, Wrap64(e.remote))
    ensures SplitSoFar(w, tick, s0, dirBase, e, 1, [v], s, [RW(e.local, v, FirstSize(e.remote, e.size))])
  {
    hide Translate, TranslateAll, Chunks, FirstSize;
    var ps := Pieces(e.remote, e.size);
    TranslateFirst(w, tick, s0, dirBase, e.remote, ps);
    ChunksFirst(e.local, ps, v);
  }

  lemma SplitNext(w: World, tick: nat, s0: Tlb, dirBase: nat, e: RW, k: nat, vs: seq<nat>, s: Tlb, list: seq<RW>,
                  v: nat, s': Tlb)
    requires SplitSoFar(w, tick, s0, dirBase, e, k, vs, s, list) && k < |Pieces(e.remote, e.size)|
    requires (v, s') == Translate(w, tick + 5 * k, s, dirBase, Wrap64(e.remote + Pieces(e.remote, e.size)[k].off))
    ensures var p := Pieces(e.remote, e.size)[k];
            SplitSoFar(w, tick, s0, dirBase, e, k + 1, vs + [v], s',
                       if v != 0 then list + [RW(e.local + p.off, v, p.size)] else list)
  {
    hide Translate, TranslateAll, Chunks, Pieces;
    var ps := Pieces(e.remote, e.size);
    TranslateNext(w, tick, s0, dirBase, e.remote, ps, k);
    ChunksNext(e.local, ps, k, vs, v);
  }

  lemma SplitAll(w: World, tick: nat, s0: Tlb, dirBase: nat, e: RW, vs: seq<nat>, s: Tlb, list: seq<RW>)
    requires SplitSoFar(w, tick, s0, dirBase, e, |Pieces(e.remote, e.size)|, vs, s, list)
    ensures Fill(w, tick, s0, dirBase, e) == (list, s)
  {
    hide TranslateAll, Chunks, Pieces;
    var ps := Pieces(e.remote, e.size);
    assert ps[..|ps|] == ps;
  }

  lemma PiecesStart(remote: nat, len: nat)
    ensures Pieces(remote, len)[0] == Piece(0, FirstSize(remote, len))
    ensures Pieces(remote, len)[1..] == TailPieces(FirstSize(remote, len), len)
  {
  }

  lemma TailStep(ps: seq<Piece>, k: nat, cur: nat, len: nat)
    requires k <= |ps| && ps[k..] == TailPieces(cur, len) && cur < len
    ensures k < |ps| && ps[k] == Piece(cur, Min(0x1000, len - cur)) && ps[k + 1..] == TailPieces(cur + 0x1000, len)
  {
    assert ps[k] == ps[k..][0] && ps[k + 1..] == ps[k..][1..];
  }

  lemma TailEnd(ps: seq<Piece>, k: nat, cur: nat, len: nat)
    requires k <= |ps| && ps[k..] == TailPieces(cur, len) && cur >= len
    ensures k == |ps| && ps[..k] == ps
  {
  }

  lemma TranslateFirst(w: World, tick: nat, s: Tlb, dirBase: nat, remote: nat, ps: seq<Piece>)
    requires |ps| >= 1 && ps[0].off == 0
    ensures var (v, s') := Translate(w, tick, s, dirBase, Wrap64(remote));
            TranslateAll(w, tick, s, dirBase, remote, ps[..1]) == ([v], s')
  {
    hide Translate;
    TranslateNext(w, tick, s, dirBase, remote, ps, 0);
    assert TranslateAll(w, tick, s, dirBase, remote, ps[..0]) == ([], s);
    assert ps[..0 + 1] == ps[..1];
    var (v, s') := Translate(w, tick, s, dirBase, Wrap64(remote));
    assert [] + [v] == [v];
  }

  lemma TranslateNext(w: World, tick: nat, s: Tlb, dirBase: nat, remote: nat, ps: seq<Piece>, k: nat)
    requires k < |ps|
    ensures var (vs, s1) := TranslateAll(w, tick, s, dirBase, remote, ps[..k]);
            var (v, s2) := Translate(w, tick + 5 * k, s1, dirBase, Wrap64(remote + ps[k].off));
            TranslateAll(w, tick, s, dirBase, remote, ps[..k + 1]) == (vs + [v], s2)
  {
    hide Translate;
    assert ps[..k + 1][..k] == ps[..k];
  }

  lemma ChunksFirst(local: nat, ps: seq<Piece>, v: nat)
    requires |ps| >= 1
    ensures Chunks(local, ps[..1], [v]) == [RW(local, v, ps[0].size)]
  {
  }

  lemma ChunksNext(local: nat, ps: seq<Piece>, k: nat, vs: seq<nat>, v: nat)
    requires 1 <= k < |ps| && |vs| == k
    ensures Chunks(local, ps[..k + 1], vs + [v])
         == Chunks(local, ps[..k], vs) + if v != 0 then [RW(local + ps[k].off, v, ps[k].size)] else []
  {
    assert ps[..k + 1][1..][..k - 1] == ps[..k][1..];
    assert (vs + [v])[1..][..k - 1] == vs[1..];
  }

  method FillRWInfoMul(tlb: Cache, w: World, tick: nat, dirBase: nat, origData: array<RW>, info: array<RW>, count: nat)
      returns (ret: nat)
    requires tlb.Valid() && info != origData && count <= origData.Length
    requires Slots(origData[..count]) <= info.Length
    modifies info, tlb`curTime, tlb`hits, tlb`misses, tlb.entries, tlb.entryTimes, tlb.slots
    ensures tlb.Valid() && ret <= Slots(origData[..count])
    ensures (info[..ret], tlb.Abs()) == FillAll(w, tick, old(tlb.Abs()), dirBase, origData[..count])
  {
    hide Fill, FillAll, Slots;
    ghost var s0 := tlb.Abs();
    ghost var es := origData[..count];
    ret := 0;
    var now := tick;
    FillNothing(w, tick, s0, dirBase, es);
    for i := 0 to count
      invariant tlb.Valid() && origData[..count] == es
      invariant ret <= Slots(es[..i]) <= info.Length && now == tick + 5 * Slots(es[..i])
      invariant (info[..ret], tlb.Abs()) == FillAll(w, tick, s0, dirBase, es[..i])
    {
      assert es[..i + 1][..i] == es[..i];
      SlotsMonotone(es, i + 1);
      FillAllNext(w, tick, s0, dirBase, es, i);
      ghost var before := info[..ret];
      var lcount, calls := FillRWInfo(tlb, w, now, dirBase, info, ret, 0, origData[i]);
      assert info[..ret + lcount] == before + info[ret..ret + lcount];
      ret, now := ret + lcount, now + 5 * calls;
    }
    assert es[..count] == es;
  }

  lemma FillNothing(w: World, tick: nat, s: Tlb, dirBase: nat, es: seq<RW>)
    ensures FillAll(w, tick, s, dirBase, es[..0]) == ([], s) && Slots(es[..0]) == 0
  {
  }

  lemma FillAllNext(w: World, tick: nat, s: Tlb, dirBase: nat, es: seq<RW>, i: nat)
    requires i < |es|
    ensures Slots(es[..i + 1]) == Slots(es[..i]) + |Pieces(es[i].remote, es[i].size)|
    ensures var (cs, s1) := FillAll(w, tick, s, dirBase, es[..i]);
            var (c, s2) := Fill(w, tick + 5 * Slots(es[..i]), s1, dirBase, es[i]);
            FillAll(w, tick, s, dirBase, es[..i + 1]) == (cs + c, s2)
  {
    hide Fill;
    assert es[..i + 1][..i] == es[..i];
  }

  lemma {:induction false} SlotsMonotone(es: seq<RW>, n: nat)
    requires n <= |es|
    ensures Slots(es[..n]) <= Slots(es)
    decreases |es|
  {
    if n < |es| {
      SlotsMonotone(es[..|es| - 1], n);
      assert es[..|es| - 1][..n] == es[..n];
    } else {
      assert es[..n] == es;
    }
  }

  // ---- The entry points ----

  /** The test of the fast path: the address just after the range is in the same page. */
  predicate SamePage(remote: nat, size: nat) {
    remote / 0x1000 == Wrap64(remote + size) / 0x1000
  }

  /** On the fast path the split would give the same single transfer, so both paths agree. */
  lemma FastPathIsSplit(w: World, tick: nat, s: Tlb, dirBase: nat, e: RW)
    requires e.remote < TWO_64 && e.size <= TWO_64 - 0x1000 && SamePage(e.remote, e.size)
    ensures var (v, s') := Translate(w, tick, s, dirBase, e.remote);
            Fill(w, tick, s, dirBase, e) == ([RW(e.local, v, e.size)], s')
  {
    hide Translate;
    NoWrapInPage(e.remote, e.size);
    var ps := Pieces(e.remote, e.size);
    assert ps == [Piece(0, e.size)];
    TranslateFirst(w, tick, s, dirBase, e.remote, ps);
    assert ps[..1] == ps && Wrap64(e.remote) == e.remote;
    ChunksFirst(e.local, ps, Translate(w, tick, s, dirBase, e.remote).0);
  }

  /** Where the fast path is taken it does what the split would exactly for sizes below a page; the
      other sizes are those whose end wraps around the address space into the same page. */
  lemma FastPathExactly(w: World, tick: nat, s: Tlb, dirBase: nat, e: RW)
    requires e.remote < TWO_64 && e.size < TWO_64 && SamePage(e.remote, e.size)
    ensures Fill(w, tick, s, dirBase, e).0 == [RW(e.local, Translate(w, tick, s, dirBase, e.remote).0, e.size)]
            <==> e.size < 0x1000
    ensures e.size < 0x1000 || e.size > TWO_64 - 0x1000
  {
    if e.size <= TWO_64 - 0x1000 {
      FastPathIsSplit(w, tick, s, dirBase, e);
      NoWrapInPage(e.remote, e.size);
    } else {
      hide Translate, TranslateAll, SamePage;
      assert Fill(w, tick, s, dirBase, e).0[0].size == FirstSize(e.remote, e.size);
    }
  }

  lemma NoWrapInPage(remote: nat, size: nat)
    requires remote < TWO_64 && size <= TWO_64 - 0x1000 && SamePage(remote, size)
    ensures OffsetOf(remote) + size < 0x1000
  {
    assert Wrap64(remote + size) == if remote + size < TWO_64 then remote + size else remote + size - TWO_64;
  }

  lemma {:induction false} KeptTailWithin(local: nat, ps: seq<Piece>, vs: seq<nat>, len: nat)
    requires |ps| == |vs|
    requires forall k :: 0 <= k < |ps| ==> ps[k].off + ps[k].size <= len && ps[k].size <= 0x1000
    ensures forall i :: 0 <= i < |KeptTail(local, ps, vs)| ==>
              KeptTail(local, ps, vs)[i].local + KeptTail(local, ps, vs)[i].size <= local + len
              && KeptTail(local, ps, vs)[i].size <= Min(len, 0x1000)
    decreases |ps|
  {
    if ps != [] {
      var n := |ps| - 1;
      KeptTailWithin(local, ps[..n], vs[..n], len);
    }
  }

  lemma PiecesWithin(remote: nat, len: nat)
    ensures forall k :: 0 <= k < |Pieces(remote, len)| ==>
              Pieces(remote, len)[k].off + Pieces(remote, len)[k].size <= len && Pieces(remote, len)[k].size <= 0x1000
  {
    forall k | 0 <= k < |Pieces(remote, len)|
      ensures Pieces(remote, len)[k].off + Pieces(remote, len)[k].size <= len && Pieces(remote, len)[k].size <= 0x1000
    {
      if k > 0 { PieceAt(remote, len, k); }
    }
  }

  /** A request the program can serve: local memory holds it, and guest RAM its largest transfer. */
  predicate Fits(bufSize: nat, ramSize: nat, e: RW) {
    e.local + e.size <= bufSize && Min(e.size, 0x1000) <= ramSize < TWO_64
  }

  predicate AllFit(bufSize: nat, ramSize: nat, es: seq<RW>) {
    forall i :: 0 <= i < |es| ==> Fits(bufSize, ramSize, es[i])
  }

  /** Every transfer of a request stays inside local memory, is no longer than a page, and is
      protected by the bounds test. */
  lemma ChunksProper(f: Hole, e: RW, vs: seq<nat>, bufSize: nat, ramSize: nat)
    requires |vs| == |Pieces(e.remote, e.size)| && Fits(bufSize, ramSize, e)
    ensures AllProper(f, bufSize, ramSize, Chunks(e.local, Pieces(e.remote, e.size), vs))
    ensures forall i :: 0 <= i < |Chunks(e.local, Pieces(e.remote, e.size), vs)| ==>
              Chunks(e.local, Pieces(e.remote, e.size), vs)[i].size <= Min(e.size, 0x1000)
  {
    var ps := Pieces(e.remote, e.size);
    PiecesWithin(e.remote, e.size);
    KeptTailWithin(e.local, ps[1..], vs[1..], e.size);
    hide KeptTail, Pieces, InRange;
    var cs := Chunks(e.local, ps, vs);
    forall i | 0 <= i < |cs| ensures Proper(f, bufSize, ramSize, cs[i]) {
      ShortIsProper(f, bufSize, ramSize, cs[i]);
    }
  }

  lemma ShortIsProper(f: Hole, bufSize: nat, ramSize: nat, c: RW)
    requires c.local + c.size <= bufSize && c.size <= ramSize < TWO_64
    ensures Proper(f, bufSize, ramSize, c)
  {
    AcceptsExactly(ramSize, Remap(f, c.remote), c.size);
  }

  /** The transfers of a proper request are proper. */
  lemma FillProper(w: World, tick: nat, s: Tlb, dirBase: nat, e: RW, f: Hole, bufSize: nat, ramSize: nat)
    requires Fits(bufSize, ramSize, e)
    ensures AllProper(f, bufSize, ramSize, Fill(w, tick, s, dirBase, e).0)
  {
    hide TranslateAll;
    var (vs, s') := TranslateAll(w, tick, s, dirBase, e.remote, Pieces(e.remote, e.size));
    ChunksProper(f, e, vs, bufSize, ramSize);
  }

  lemma {:induction false} FillAllProper(w: World, tick: nat, s: Tlb, dirBase: nat, es: seq<RW>,
                                         f: Hole, bufSize: nat, ramSize: nat)
    requires AllFit(bufSize, ramSize, es)
    ensures AllProper(f, bufSize, ramSize, FillAll(w, tick, s, dirBase, es).0)
    decreases |es|
  {
    hide Fill, Proper, Fits;
    if es != [] {
      var n := |es| - 1;
      FillAllProper(w, tick, s, dirBase, es[..n], f, bufSize, ramSize);
      var (cs, s1) := FillAll(w, tick, s, dirBase, es[..n]);
      FillProper(w, tick + 5 * Slots(es[..n]), s1, dirBase, es[n], f, bufSize, ramSize);
    }
  }

  /** A request the entry points can be given: one that fits, with a page count that fits the `int`
      it is kept in (see SplitSizeExactly). */
  predicate Acceptable(bufSize: nat, ramSize: nat, e: RW) {
    && Fits(bufSize, ramSize, e)
    && e.remote < TWO_64 && e.size <= MAX_REQUEST
  }

  /** The common first half of the slow paths. */
  method SplitOne(tlb: Cache, w: World, tick: nat, dirBase: nat, e: RW) returns (list: array<RW>, count: nat)
    requires tlb.Valid() && e.remote < TWO_64 && e.size <= MAX_REQUEST && !SamePage(e.remote, e.size)
    modifies tlb`curTime, tlb`hits, tlb`misses, tlb.entries, tlb.entryTimes, tlb.slots
    ensures tlb.Valid() && fresh(list) && count <= list.Length
    ensures (list[..count], tlb.Abs()) == Fill(w, tick, old(tlb.Abs()), dirBase, e)
  {
    hide Fill;
    SplitSize(e.remote, e.size);
    var dataCount := DataSize(e.size);
    list := new RW[ArraySize(dataCount)](i => RW(0, 0, 0));
    var calls;
    count, calls := FillRWInfo(tlb, w, tick, dirBase, list, 0, dataCount, e);
  }

  lemma OneProper(f: Hole, bufSize: nat, ramSize: nat, cs: seq<RW>)
    requires |cs| == 1 && AllProper(f, bufSize, ramSize, cs)
    ensures Proper(f, bufSize, ramSize, cs[0])
  {
  }

  method VMemRead(tlb: Cache, w: World, tick: nat, f: Hole, ram: array<Byte>, dirBase: nat,
                  buf: array<Byte>, local: nat, remote: nat, size: nat) returns (ret: int)
    requires tlb.Valid() && ram != buf && Acceptable(buf.Length, ram.Length, RW(local, remote, size))
    modifies buf, tlb`curTime, tlb`hits, tlb`misses, tlb.entries, tlb.entryTimes, tlb.slots
    ensures tlb.Valid()
    ensures var (cs, s) := Fill(w, tick, old(tlb.Abs()), dirBase, RW(local, remote, size));
            AllProper(f, buf.Length, ram.Length, cs) && tlb.Abs() == s &&
            (ret, buf[..]) == ReadAll(f, ram[..], old(buf[..]), cs)
  {
    ghost var e := RW(local, remote, size);
    FillProper(w, tick, tlb.Abs(), dirBase, e, f, buf.Length, ram.Length);
    hide Fill, Translate, ReadAll, AllProper, Proper, Fits, InRange;
    if SamePage(remote, size) {
      FastPathIsSplit(w, tick, tlb.Abs(), dirBase, e);
      OneProper(f, buf.Length, ram.Length, Fill(w, tick, tlb.Abs(), dirBase, e).0);
      var v := tlb.VTranslate(w, tick, dirBase, remote);
      ret := MemRead(f, ram, buf, local, v, size);
    } else {
      var rdata, count := SplitOne(tlb, w, tick, dirBase, RW(local, remote, size));
      ret := MemReadMul(f, ram, buf, rdata, count);
    }
  }

  method VMemWrite(tlb: Cache, w: World, tick: nat, f: Hole, ram: array<Byte>, dirBase: nat,
                   buf: array<Byte>, local: nat, remote: nat, size: nat) returns (ret: int)
    requires tlb.Valid() && ram != buf && Acceptable(buf.Length, ram.Length, RW(local, remote, size))
    modifies ram, tlb`curTime, tlb`hits, tlb`misses, tlb.entries, tlb.entryTimes, tlb.slots
    ensures tlb.Valid()
    ensures var (cs, s) := Fill(w, tick, old(tlb.Abs()), dirBase, RW(local, remote, size));
            AllProper(f, buf.Length, ram.Length, cs) && tlb.Abs() == s &&
            (ret, ram[..]) == WriteAll(f, old(ram[..]), buf[..], cs)
  {
    ghost var e := RW(local, remote, size);
    FillProper(w, tick, tlb.Abs(), dirBase, e, f, buf.Length, ram.Length);
    hide Fill, Translate, WriteAll, AllProper, Proper, Fits, InRange;
    if SamePage(remote, size) {
      FastPathIsSplit(w, tick, tlb.Abs(), dirBase, e);
      OneProper(f, buf.Length, ram.Length, Fill(w, tick, tlb.Abs(), dirBase, e).0);
      var v := tlb.VTranslate(w, tick, dirBase, remote);
      ret := MemWrite(f, ram, buf, local, v, size);
    } else {
      var wdata, count := SplitOne(tlb, w, tick, dirBase, RW(local, remote, size));
      ret := MemWriteMul(f, ram, buf, wdata, count);
    }
  }

  /** The array size computed for one request, in `int` arithmetic. */
  function DataSize(size: nat): int
    requires size >= 1
  {
    ToInt32(ToInt32((size - 1) / 0x1000) + 2)
  }

  /** The array really used: the fixed one unless more is asked for. */
  function ArraySize(dataCount: int): nat {
    if dataCount > MAX_BATCHED_RW then dataCount else MAX_BATCHED_RW
  }

  /** The array holds every split of a request, for every address, exactly when the page count
      fits an `int`. */
  lemma SplitSizeExactly(size: nat)
    requires size >= 1
    ensures (forall remote: nat :: |Pieces(remote, size)| <= ArraySize(DataSize(size))) <==> size <= MAX_REQUEST
  {
    if size <= MAX_REQUEST {
      forall remote: nat ensures |Pieces(remote, size)| <= ArraySize(DataSize(size)) {
        SingleCapacity(remote, size);
        ExactDataSize(size);
      }
    } else {
      PiecesLength(0, size);
      assert |Pieces(0, size)| > ArraySize(DataSize(size));
    }
  }

  lemma ExactDataSize(size: nat)
    requires 1 <= size <= MAX_REQUEST
    ensures DataSize(size) == (size - 1) / 0x1000 + 2
  {
  }

  /** Off the fast path the size is positive and the computed array size is enough. */
  lemma SplitSize(remote: nat, size: nat)
    requires remote < TWO_64 && size <= MAX_REQUEST && !SamePage(remote, size)
    ensures size >= 1 && |Pieces(remote, size)| <= DataSize(size)
  {
    if size >= 1 {
      SingleCapacity(remote, size);
      ExactDataSize(size);
    }
  }

  /** The array of the batched entry points holds every split of a list exactly when the number of
      slots fits an `int` and either no request is empty at a page start or the fixed array does. */
  lemma ListSizeExactly(es: seq<RW>)
    requires AreWords(es)
    ensures Slots(es) <= ArraySize(CountData(es))
            <==> Slots(es) < 0x8000_0000 && (EmptyCount(es) == 0 || Slots(es) <= 1024)
  {
    CountIsSlots(es);
    CountsFit(es);
    hide Slots, CountData, EmptyCount, AreWords, EmptyAligned;
  }

  /** A list the batched entry points can be given: one whose splits the array holds, see
      ListSizeExactly. */
  predicate AcceptableList(bufSize: nat, ramSize: nat, es: seq<RW>) {
    && AllFit(bufSize, ramSize, es) && AreWords(es) && Slots(es) < 0x8000_0000
    && (EmptyCount(es) == 0 || Slots(es) <= MAX_BATCHED_RW)
  }

  /** The common first half of the batched entry points. */
  method SplitMul(tlb: Cache, w: World, tick: nat, dirBase: nat, info: array<RW>, num: nat)
      returns (list: array<RW>, count: nat)
    requires tlb.Valid() && num <= info.Length
    requires AreWords(info[..num]) && Slots(info[..num]) < 0x8000_0000
    requires EmptyCount(info[..num]) == 0 || Slots(info[..num]) <= MAX_BATCHED_RW
    modifies tlb`curTime, tlb`hits, tlb`misses, tlb.entries, tlb.entryTimes, tlb.slots
    ensures tlb.Valid() && fresh(list) && count <= list.Length
    ensures (list[..count], tlb.Abs()) == FillAll(w, tick, old(tlb.Abs()), dirBase, info[..num])
  {
    ListSizeExactly(info[..num]);
    hide FillAll, AllProper, Slots, CountData, EmptyCount, AreWords;
    var dataCount := CalculateDataCount(info, num);
    list := new RW[ArraySize(dataCount)](i => RW(0, 0, 0));
    count := FillRWInfoMul(tlb, w, tick, dirBase, info, list, num);
  }

  method VMemReadMul(tlb: Cache, w: World, tick: nat, f: Hole, ram: array<Byte>, dirBase: nat,
                     buf: array<Byte>, info: array<RW>, num: nat) returns (ret: int)
    requires tlb.Valid() && ram != buf && num <= info.Length
    requires AcceptableList(buf.Length, ram.Length, info[..num])
    modifies buf, tlb`curTime, tlb`hits, tlb`misses, tlb.entries, tlb.entryTimes, tlb.slots
    ensures tlb.Valid()
    ensures var (cs, s) := FillAll(w, tick, old(tlb.Abs()), dirBase, info[..num]);
            AllProper(f, buf.Length, ram.Length, cs) && tlb.Abs() == s &&
            (ret, buf[..]) == ReadAll(f, ram[..], old(buf[..]), cs)
  {
    FillAllProper(w, tick, tlb.Abs(), dirBase, info[..num], f, buf.Length, ram.Length);
    hide FillAll, ReadAll, AllProper, Slots;
    var readInfo, count := SplitMul(tlb, w, tick, dirBase, info, num);
    ret := MemReadMul(f, ram, buf, readInfo, count);
  }

  method VMemWriteMul(tlb: Cache, w: World, tick: nat, f: Hole, ram: array<Byte>, dirBase: nat,
                      buf: array<Byte>, info: array<RW>, num: nat) returns (ret: int)
    requires tlb.Valid() && ram != buf && num <= info.Length
    requires AcceptableList(buf.Length, ram.Length, info[..num])
    modifies ram, tlb`curTime, tlb`hits, tlb`misses, tlb.entries, tlb.entryTimes, tlb.slots
    ensures tlb.Valid()
    ensures var (cs, s) := FillAll(w, tick, old(tlb.Abs()), dirBase, info[..num]);
            AllProper(f, buf.Length, ram.Length, cs) && tlb.Abs() == s &&
            (ret, ram[..]) == WriteAll(f, old(ram[..]), buf[..], cs)
  {
    FillAllProper(w, tick, tlb.Abs(), dirBase, info[..num], f, buf.Length, ram.Length);
    hide FillAll, WriteAll, AllProper, Slots;
    var writeInfo, count := SplitMul(tlb, w, tick, dirBase, info, num);
    ret := MemWriteMul(f, ram, buf, writeInfo, count);
  }
}
