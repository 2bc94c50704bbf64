/** Batched requests: all translations first, then all transfers. On frozen tables this equals
    doing the requests one by one. */
module Batch {
  import opened Bits
  import opened GuestMemory
  import opened TlbModel
  import opened TlbRuns
  import opened Splitter
  import opened PhysMem
  import opened VMem
  import opened VMemBytes

  // ---- Lists of transfers one after the other ----

  lemma {:induction false} WriteConcat(f: Hole, ram: seq<Byte>, buf: seq<Byte>, a: seq<RW>, b: seq<RW>)
    requires AllProper(f, |buf|, |ram|, a) && AllProper(f, |buf|, |ram|, b) && AllInRange(f, |ram|, a)
    ensures AllProper(f, |buf|, |ram|, a + b)
    ensures var (n, x) := WriteAll(f, ram, buf, a);
            var (n', x') := WriteAll(f, x, buf, b);
            n >= 0 && WriteAll(f, ram, buf, a + b) == (Add(n, n'), x')
    decreases |a|
  {
    hide InRange, Proper, WriteChunk, WriteAll;
    if a == [] {
      assert a + b == b;
      WriteNothing(f, ram, buf, 0);
    } else {
      assert (a + b)[0] == a[0] && (a + b)[1..] == a[1..] + b;
      WriteHead(f, ram, buf, a);
      WriteHead(f, ram, buf, a + b);
      WriteConcat(f, WriteChunk(f, ram, buf, a[0]), buf, a[1..], b);
    }
  }

  lemma {:induction false} ReadConcat(f: Hole, ram: seq<Byte>, buf: seq<Byte>, a: seq<RW>, b: seq<RW>)
    requires AllProper(f, |buf|, |ram|, a) && AllProper(f, |buf|, |ram|, b) && AllInRange(f, |ram|, a)
    ensures AllProper(f, |buf|, |ram|, a + b)
    ensures var (n, x) := ReadAll(f, ram, buf, a);
            var (n', x') := ReadAll(f, ram, x, b);
            n >= 0 && ReadAll(f, ram, buf, a + b) == (Add(n, n'), x')
    decreases |a|
  {
    hide InRange, Proper, ReadChunk, ReadAll;
    if a == [] {
      assert a + b == b;
      ReadNothing(f, ram, buf, 0);
    } else {
      assert (a + b)[0] == a[0] && (a + b)[1..] == a[1..] + b;
      ReadHead(f, ram, buf, a);
      ReadHead(f, ram, buf, a + b);
      ReadConcat(f, ram, ReadChunk(f, ram, buf, a[0]), a[1..], b);
    }
  }

  // ---- Requests one after the other ----

  ghost predicate AllReadable(f: Hole, bufSize: nat, ramSize: nat, m: Mem, d: nat, es: seq<RW>) {
    forall i :: 0 <= i < |es| ==> Readable(f, bufSize, ramSize, m, d, es[i])
  }

  ghost predicate AllFrozen(w: World, m: Mem, d: nat, es: seq<RW>) {
    forall i :: 0 <= i < |es| ==> RangeFrozen(w, m, d, es[i].remote, es[i].size)
  }

  function AllWalkChunks(m: Mem, d: nat, es: seq<RW>): seq<RW>
    decreases |es|
  {
    if es == [] then []
    else AllWalkChunks(m, d, es[..|es| - 1]) + WalkChunks(m, d, es[|es| - 1])
  }

  lemma {:induction false} FillAllIsWalk(w: World, m: Mem, limit: nat, s: Tlb, tick: nat, dirBase: nat, es: seq<RW>,
                                         f: Hole, bufSize: nat, ramSize: nat)
    requires Settled(w, limit) && Inv(w, limit, s, tick)
    requires AllFrozen(w, m, MaskDirBase(dirBase), es)
    requires AllReadable(f, bufSize, ramSize, m, MaskDirBase(dirBase), es)
    ensures var (cs, s') := FillAll(w, tick, s, dirBase, es);
            cs == AllWalkChunks(m, MaskDirBase(dirBase), es) && Inv(w, limit, s', tick + 5 * Slots(es))
    decreases |es|
  {
    hide Fill, WalkChunks, Inv, RangeFrozen, Src, BytesInRange, Pieces, Settled, HasFrame;
    if es != [] {
      var n := |es| - 1;
      FillAllIsWalk(w, m, limit, s, tick, dirBase, es[..n], f, bufSize, ramSize);
      var s1 := FillAll(w, tick, s, dirBase, es[..n]).1;
      FillIsWalk(w, m, limit, s1, tick + 5 * Slots(es[..n]), dirBase, es[n]);
    }
  }

  /** Writing the requests in order, each by itself. */
  ghost function WriteEach(f: Hole, ram: seq<Byte>, buf: seq<Byte>, m: Mem, d: nat, es: seq<RW>): (r: seq<Byte>)
    requires AllReadable(f, |buf|, |ram|, m, d, es)
    ensures |r| == |ram|
    decreases |es|
  {
    if es == [] then ram
    else
      var n := |es| - 1;
      var ram1 := WriteEach(f, ram, buf, m, d, es[..n]);
      WalkChunksOk(f, |buf|, |ram|, m, d, es[n]);
      WriteAll(f, ram1, buf, WalkChunks(m, d, es[n])).1
  }

  ghost function ReadEach(f: Hole, ram: seq<Byte>, buf: seq<Byte>, m: Mem, d: nat, es: seq<RW>): (r: seq<Byte>)
    requires AllReadable(f, |buf|, |ram|, m, d, es)
    ensures |r| == |buf|
    decreases |es|
  {
    if es == [] then buf
    else
      var n := |es| - 1;
      var buf1 := ReadEach(f, ram, buf, m, d, es[..n]);
      WalkChunksOk(f, |buf|, |ram|, m, d, es[n]);
      ReadAll(f, ram, buf1, WalkChunks(m, d, es[n])).1
  }

  /** Mapped bytes of all requests. */
  function AllMappedBytes(m: Mem, d: nat, es: seq<RW>): nat
    decreases |es|
  {
    if es == [] then 0
    else AllMappedBytes(m, d, es[..|es| - 1]) + MappedBytes(m, d, es[|es| - 1].remote, es[|es| - 1].size)
  }

  lemma {:induction false} AllWalkChunksOk(f: Hole, bufSize: nat, ramSize: nat, m: Mem, d: nat, es: seq<RW>)
    requires AllReadable(f, bufSize, ramSize, m, d, es)
    ensures AllProper(f, bufSize, ramSize, AllWalkChunks(m, d, es))
    ensures AllInRange(f, ramSize, AllWalkChunks(m, d, es))
    decreases |es|
  {
    hide WalkChunks, Src, BytesInRange, InRange, Proper;
    if es != [] {
      var n := |es| - 1;
      AllWalkChunksOk(f, bufSize, ramSize, m, d, es[..n]);
      assert Readable(f, bufSize, ramSize, m, d, es[n]);
      WalkChunksOk(f, bufSize, ramSize, m, d, es[n]);
    }
  }

  lemma AddCounts(a: nat, b: nat)
    ensures Add(a, b) == a + b
  {
  }

  lemma WriteNone(f: Hole, ram: seq<Byte>, buf: seq<Byte>, m: Mem, d: nat)
    ensures AllReadable(f, |buf|, |ram|, m, d, []) && AllProper(f, |buf|, |ram|, AllWalkChunks(m, d, []))
    ensures WriteAll(f, ram, buf, AllWalkChunks(m, d, []))
         == (AllMappedBytes(m, d, []), WriteEach(f, ram, buf, m, d, []))
  {
  }

  lemma WriteNext(f: Hole, ram: seq<Byte>, buf: seq<Byte>, m: Mem, d: nat, es: seq<RW>, n: nat)
    requires AllReadable(f, |buf|, |ram|, m, d, es) && |es| == n + 1
    ensures AllReadable(f, |buf|, |ram|, m, d, es[..n]) && Readable(f, |buf|, |ram|, m, d, es[n])
    ensures AllWalkChunks(m, d, es) == AllWalkChunks(m, d, es[..n]) + WalkChunks(m, d, es[n])
    ensures AllMappedBytes(m, d, es)
         == AllMappedBytes(m, d, es[..n]) + MappedBytes(m, d, es[n].remote, es[n].size)
    ensures es[n].size >= 1 && HasFrame(Src(m, d, es[n].remote, 0))
    ensures AllProper(f, |buf|, |ram|, WalkChunks(m, d, es[n]))
    ensures WriteEach(f, ram, buf, m, d, es)
         == WriteAll(f, WriteEach(f, ram, buf, m, d, es[..n]), buf, WalkChunks(m, d, es[n])).1
  {
    assert Readable(f, |buf|, |ram|, m, d, es[n]);
    hide WalkChunks, WriteAll, MappedBytes, BytesInRange, Src;
    WalkChunksOk(f, |buf|, |ram|, m, d, es[n]);
  }

  lemma {:induction false} BatchWritesEach(f: Hole, ram: seq<Byte>, buf: seq<Byte>, m: Mem, d: nat, es: seq<RW>)
    requires AllReadable(f, |buf|, |ram|, m, d, es)
    ensures AllProper(f, |buf|, |ram|, AllWalkChunks(m, d, es))
    ensures WriteAll(f, ram, buf, AllWalkChunks(m, d, es))
         == (AllMappedBytes(m, d, es), WriteEach(f, ram, buf, m, d, es))
    decreases |es|
  {
    hide *;
    AllWalkChunksOk(f, |buf|, |ram|, m, d, es);
    if es == [] {
      WriteNone(f, ram, buf, m, d);
    } else {
      var n := |es| - 1;
      WriteNext(f, ram, buf, m, d, es, n);
      BatchWritesEach(f, ram, buf, m, d, es[..n]);
      AllWalkChunksOk(f, |buf|, |ram|, m, d, es[..n]);
      WalkChunksOk(f, |buf|, |ram|, m, d, es[n]);
      WalkChunksTotal(m, d, es[n]);
      WriteAllTotal(f, WriteEach(f, ram, buf, m, d, es[..n]), buf, WalkChunks(m, d, es[n]));
      WriteConcat(f, ram, buf, AllWalkChunks(m, d, es[..n]), WalkChunks(m, d, es[n]));
      AddCounts(AllMappedBytes(m, d, es[..n]), MappedBytes(m, d, es[n].remote, es[n].size));
    }
  }

  lemma ReadNone(f: Hole, ram: seq<Byte>, buf: seq<Byte>, m: Mem, d: nat)
    ensures AllReadable(f, |buf|, |ram|, m, d, []) && AllProper(f, |buf|, |ram|, AllWalkChunks(m, d, []))
    ensures ReadAll(f, ram, buf, AllWalkChunks(m, d, []))
         == (AllMappedBytes(m, d, []), ReadEach(f, ram, buf, m, d, []))
  {
  }

  lemma ReadNext(f: Hole, ram: seq<Byte>, buf: seq<Byte>, m: Mem, d: nat, es: seq<RW>, n: nat)
    requires AllReadable(f, |buf|, |ram|, m, d, es) && |es| == n + 1
    ensures AllReadable(f, |buf|, |ram|, m, d, es[..n]) && Readable(f, |buf|, |ram|, m, d, es[n])
    ensures AllWalkChunks(m, d, es) == AllWalkChunks(m, d, es[..n]) + WalkChunks(m, d, es[n])
    ensures AllMappedBytes(m, d, es)
         == AllMappedBytes(m, d, es[..n]) + MappedBytes(m, d, es[n].remote, es[n].size)
    ensures es[n].size >= 1 && HasFrame(Src(m, d, es[n].remote, 0))
    ensures AllProper(f, |buf|, |ram|, WalkChunks(m, d, es[n]))
    ensures ReadEach(f, ram, buf, m, d, es)
         == ReadAll(f, ram, ReadEach(f, ram, buf, m, d, es[..n]), WalkChunks(m, d, es[n])).1
  {
    assert Readable(f, |buf|, |ram|, m, d, es[n]);
    hide WalkChunks, ReadAll, MappedBytes, BytesInRange, Src;
    WalkChunksOk(f, |buf|, |ram|, m, d, es[n]);
  }

  lemma {:induction false} BatchReadsEach(f: Hole, ram: seq<Byte>, buf: seq<Byte>, m: Mem, d: nat, es: seq<RW>)
    requires AllReadable(f, |buf|, |ram|, m, d, es)
    ensures AllProper(f, |buf|, |ram|, AllWalkChunks(m, d, es))
    ensures ReadAll(f, ram, buf, AllWalkChunks(m, d, es))
         == (AllMappedBytes(m, d, es), ReadEach(f, ram, buf, m, d, es))
    decreases |es|
  {
    hide *;
    AllWalkChunksOk(f, |buf|, |ram|, m, d, es);
    if es == [] {
      ReadNone(f, ram, buf, m, d);
    } else {
      var n := |es| - 1;
      ReadNext(f, ram, buf, m, d, es, n);
      BatchReadsEach(f, ram, buf, m, d, es[..n]);
      AllWalkChunksOk(f, |buf|, |ram|, m, d, es[..n]);
      WalkChunksOk(f, |buf|, |ram|, m, d, es[n]);
      WalkChunksTotal(m, d, es[n]);
      ReadAllTotal(f, ram, ReadEach(f, ram, buf, m, d, es[..n]), WalkChunks(m, d, es[n]));
      ReadConcat(f, ram, buf, AllWalkChunks(m, d, es[..n]), WalkChunks(m, d, es[n]));
      AddCounts(AllMappedBytes(m, d, es[..n]), MappedBytes(m, d, es[n].remote, es[n].size));
    }
  }

  lemma ReadMulIsEach(w: World, m: Mem, limit: nat, s: Tlb, tick: nat, dirBase: nat,
                      f: Hole, ram: seq<Byte>, buf: seq<Byte>, es: seq<RW>)
    requires Settled(w, limit) && Inv(w, limit, s, tick)
    requires AllFrozen(w, m, MaskDirBase(dirBase), es)
    requires AllReadable(f, |buf|, |ram|, m, MaskDirBase(dirBase), es)
    ensures var cs := FillAll(w, tick, s, dirBase, es).0;
            AllProper(f, |buf|, |ram|, cs) &&
            ReadAll(f, ram, buf, cs)
              == (AllMappedBytes(m, MaskDirBase(dirBase), es), ReadEach(f, ram, buf, m, MaskDirBase(dirBase), es))
  {
    hide *;
    FillAllIsWalk(w, m, limit, s, tick, dirBase, es, f, |buf|, |ram|);
    BatchReadsEach(f, ram, buf, m, MaskDirBase(dirBase), es);
  }

  lemma WriteMulIsEach(w: World, m: Mem, limit: nat, s: Tlb, tick: nat, dirBase: nat,
                       f: Hole, ram: seq<Byte>, buf: seq<Byte>, es: seq<RW>)
    requires Settled(w, limit) && Inv(w, limit, s, tick)
    requires AllFrozen(w, m, MaskDirBase(dirBase), es)
    requires AllReadable(f, |buf|, |ram|, m, MaskDirBase(dirBase), es)
    ensures var cs := FillAll(w, tick, s, dirBase, es).0;
            AllProper(f, |buf|, |ram|, cs) &&
            WriteAll(f, ram, buf, cs)
              == (AllMappedBytes(m, MaskDirBase(dirBase), es), WriteEach(f, ram, buf, m, MaskDirBase(dirBase), es))
  {
    hide *;
    FillAllIsWalk(w, m, limit, s, tick, dirBase, es, f, |buf|, |ram|);
    BatchWritesEach(f, ram, buf, m, MaskDirBase(dirBase), es);
  }

  // ---- The same requests as calls of their own ----

  /** One VMemRead: result, local memory, cache. */
  function OneRead(w: World, tick: nat, s: Tlb, dirBase: nat, f: Hole, ram: seq<Byte>, buf: seq<Byte>, e: RW)
      : (r: (int, seq<Byte>, Tlb))
    requires Fits(|buf|, |ram|, e)
    ensures |r.1| == |buf|
  {
    FillProper(w, tick, s, dirBase, e, f, |buf|, |ram|);
    var (cs, s') := Fill(w, tick, s, dirBase, e);
    var (n, b) := ReadAll(f, ram, buf, cs);
    (n, b, s')
  }

  /** One VMemWrite: result, guest RAM, cache. */
  function OneWrite(w: World, tick: nat, s: Tlb, dirBase: nat, f: Hole, ram: seq<Byte>, buf: seq<Byte>, e: RW)
      : (r: (int, seq<Byte>, Tlb))
    requires Fits(|buf|, |ram|, e)
    ensures |r.1| == |ram|
  {
    FillProper(w, tick, s, dirBase, e, f, |buf|, |ram|);
    var (cs, s') := Fill(w, tick, s, dirBase, e);
    var (n, ram') := WriteAll(f, ram, buf, cs);
    (n, ram', s')
  }

  /** One VMemRead per request, in order, each translating through the cache the one before it
      left; the results added up. */
  function ReadCalls(w: World, tick: nat, s: Tlb, dirBase: nat, f: Hole, ram: seq<Byte>, buf: seq<Byte>, es: seq<RW>)
      : (r: (int, seq<Byte>, Tlb))
    requires AllFit(|buf|, |ram|, es)
    ensures |r.1| == |buf|
    decreases |es|
  {
    if es == [] then (0, buf, s)
    else
      var k := |es| - 1;
      var (n1, b1, s1) := ReadCalls(w, tick, s, dirBase, f, ram, buf, es[..k]);
      var (n2, b2, s2) := OneRead(w, tick + 5 * Slots(es[..k]), s1, dirBase, f, ram, b1, es[k]);
      (n1 + n2, b2, s2)
  }

  function WriteCalls(w: World, tick: nat, s: Tlb, dirBase: nat, f: Hole, ram: seq<Byte>, buf: seq<Byte>, es: seq<RW>)
      : (r: (int, seq<Byte>, Tlb))
    requires AllFit(|buf|, |ram|, es)
    ensures |r.1| == |ram|
    decreases |es|
  {
    if es == [] then (0, ram, s)
    else
      var k := |es| - 1;
      var (n1, ram1, s1) := WriteCalls(w, tick, s, dirBase, f, ram, buf, es[..k]);
      var (n2, ram2, s2) := OneWrite(w, tick + 5 * Slots(es[..k]), s1, dirBase, f, ram1, buf, es[k]);
      (n1 + n2, ram2, s2)
  }

  lemma OneReadIsWalk(w: World, m: Mem, limit: nat, s: Tlb, tick: nat, dirBase: nat,
                      f: Hole, ram: seq<Byte>, buf: seq<Byte>, e: RW)
    requires Settled(w, limit) && Inv(w, limit, s, tick)
    requires RangeFrozen(w, m, MaskDirBase(dirBase), e.remote, e.size)
    requires Readable(f, |buf|, |ram|, m, MaskDirBase(dirBase), e)
    ensures var cs, s' := WalkChunks(m, MaskDirBase(dirBase), e), Fill(w, tick, s, dirBase, e).1;
            && AllProper(f, |buf|, |ram|, cs) && Inv(w, limit, s', tick + 5 * |Pieces(e.remote, e.size)|)
            && OneRead(w, tick, s, dirBase, f, ram, buf, e)
                 == (ReadAll(f, ram, buf, cs).0, ReadAll(f, ram, buf, cs).1, s')
            && ReadAll(f, ram, buf, cs).0 == MappedBytes(m, MaskDirBase(dirBase), e.remote, e.size)
  {
    var d := MaskDirBase(dirBase);
    WalkChunksOk(f, |buf|, |ram|, m, d, e);
    hide ReadAll, WalkChunks, Fill, Inv, RangeFrozen, Src, BytesInRange, Settled, MappedBytes, Pieces, AllInRange,
         AllProper, MaskDirBase, Ascending, HasFrame;
    FillIsWalk(w, m, limit, s, tick, dirBase, e);
    WalkChunksTotal(m, d, e);
    ReadAllTotal(f, ram, buf, WalkChunks(m, d, e));
  }

  lemma OneWriteIsWalk(w: World, m: Mem, limit: nat, s: Tlb, tick: nat, dirBase: nat,
                       f: Hole, ram: seq<Byte>, buf: seq<Byte>, e: RW)
    requires Settled(w, limit) && Inv(w, limit, s, tick)
    requires RangeFrozen(w, m, MaskDirBase(dirBase), e.remote, e.size)
    requires Readable(f, |buf|, |ram|, m, MaskDirBase(dirBase), e)
    ensures var cs, s' := WalkChunks(m, MaskDirBase(dirBase), e), Fill(w, tick, s, dirBase, e).1;
            && AllProper(f, |buf|, |ram|, cs) && Inv(w, limit, s', tick + 5 * |Pieces(e.remote, e.size)|)
            && OneWrite(w, tick, s, dirBase, f, ram, buf, e)
                 == (WriteAll(f, ram, buf, cs).0, WriteAll(f, ram, buf, cs).1, s')
            && WriteAll(f, ram, buf, cs).0 == MappedBytes(m, MaskDirBase(dirBase), e.remote, e.size)
  {
    var d := MaskDirBase(dirBase);
    WalkChunksOk(f, |buf|, |ram|, m, d, e);
    hide WriteAll, WalkChunks, Fill, Inv, RangeFrozen, Src, BytesInRange, Settled, MappedBytes, Pieces, AllInRange,
         AllProper, MaskDirBase, Ascending, HasFrame;
    FillIsWalk(w, m, limit, s, tick, dirBase, e);
    WalkChunksTotal(m, d, e);
    WriteAllTotal(f, ram, buf, WalkChunks(m, d, e));
  }

  lemma ReadableFits(f: Hole, bufSize: nat, ramSize: nat, m: Mem, d: nat, es: seq<RW>)
    requires AllReadable(f, bufSize, ramSize, m, d, es)
    ensures AllFit(bufSize, ramSize, es)
  {
    hide Fits, Src, BytesInRange;
    forall i | 0 <= i < |es| ensures Fits(bufSize, ramSize, es[i]) {
      assert Readable(f, bufSize, ramSize, m, d, es[i]);
    }
  }

  /** What one call per request has done. */
  ghost predicate ReadCallsDid(w: World, m: Mem, limit: nat, s: Tlb, tick: nat, dirBase: nat,
                             f: Hole, ram: seq<Byte>, buf: seq<Byte>, es: seq<RW>)
  {
    && AllFit(|buf|, |ram|, es) && AllReadable(f, |buf|, |ram|, m, MaskDirBase(dirBase), es)
    && var (n, x, s') := ReadCalls(w, tick, s, dirBase, f, ram, buf, es);
    && n == AllMappedBytes(m, MaskDirBase(dirBase), es) && x == ReadEach(f, ram, buf, m, MaskDirBase(dirBase), es)
    && Inv(w, limit, s', tick + 5 * Slots(es))
  }

  lemma ReadCallsFold(w: World, tick: nat, s: Tlb, dirBase: nat, f: Hole, ram: seq<Byte>, buf: seq<Byte>, es: seq<RW>,
                      k: nat)
    requires AllFit(|buf|, |ram|, es) && |es| == k + 1
    ensures AllFit(|buf|, |ram|, es[..k]) && Fits(|buf|, |ram|, es[k])
    ensures Slots(es) == Slots(es[..k]) + |Pieces(es[k].remote, es[k].size)|
    ensures var (n1, x1, s1) := ReadCalls(w, tick, s, dirBase, f, ram, buf, es[..k]);
            var (n2, x2, s2) := OneRead(w, tick + 5 * Slots(es[..k]), s1, dirBase, f, ram, x1, es[k]);
            ReadCalls(w, tick, s, dirBase, f, ram, buf, es) == (n1 + n2, x2, s2)
  {
    hide OneRead, Fits, Pieces;
  }

  lemma NextReadCall(w: World, m: Mem, limit: nat, s: Tlb, tick: nat, dirBase: nat,
                  f: Hole, ram: seq<Byte>, buf: seq<Byte>, es: seq<RW>, k: nat)
    requires Settled(w, limit) && |es| == k + 1 && RangeFrozen(w, m, MaskDirBase(dirBase), es[k].remote, es[k].size)
    requires AllReadable(f, |buf|, |ram|, m, MaskDirBase(dirBase), es) && AllFit(|buf|, |ram|, es)
    requires ReadCallsDid(w, m, limit, s, tick, dirBase, f, ram, buf, es[..k])
    ensures ReadCallsDid(w, m, limit, s, tick, dirBase, f, ram, buf, es)
  {
    hide ReadCalls, OneRead, ReadEach, WalkChunks, ReadAll, Inv, RangeFrozen, Settled, Readable, AllReadable, AllProper,
         MappedBytes, AllMappedBytes, AllWalkChunks, Pieces, Slots, MaskDirBase, Fits, AllFit, HasFrame, Src;
    ReadCallsFold(w, tick, s, dirBase, f, ram, buf, es, k);
    ReadNext(f, ram, buf, m, MaskDirBase(dirBase), es, k);
    var (n1, x1, s1) := ReadCalls(w, tick, s, dirBase, f, ram, buf, es[..k]);
    OneReadIsWalk(w, m, limit, s1, tick + 5 * Slots(es[..k]), dirBase, f, ram, x1, es[k]);
  }

  lemma {:induction false} ReadCallsAreEach(w: World, m: Mem, limit: nat, s: Tlb, tick: nat, dirBase: nat,
                                            f: Hole, ram: seq<Byte>, buf: seq<Byte>, es: seq<RW>)
    requires Settled(w, limit) && Inv(w, limit, s, tick)
    requires AllFrozen(w, m, MaskDirBase(dirBase), es)
    requires AllReadable(f, |buf|, |ram|, m, MaskDirBase(dirBase), es)
    ensures ReadCallsDid(w, m, limit, s, tick, dirBase, f, ram, buf, es)
    decreases |es|
  {
    ReadableFits(f, |buf|, |ram|, m, MaskDirBase(dirBase), es);
    if es != [] {
      hide Inv, RangeFrozen, Settled, Readable, ReadCallsDid, MaskDirBase, Fits;
      var k := |es| - 1;
      ReadCallsAreEach(w, m, limit, s, tick, dirBase, f, ram, buf, es[..k]);
      NextReadCall(w, m, limit, s, tick, dirBase, f, ram, buf, es, k);
    }
  }

  lemma ReadCallsDidEach(w: World, m: Mem, limit: nat, s: Tlb, tick: nat, dirBase: nat,
                      f: Hole, ram: seq<Byte>, buf: seq<Byte>, es: seq<RW>)
    requires ReadCallsDid(w, m, limit, s, tick, dirBase, f, ram, buf, es)
    ensures AllFit(|buf|, |ram|, es) && AllReadable(f, |buf|, |ram|, m, MaskDirBase(dirBase), es)
    ensures var (n, x, _) := ReadCalls(w, tick, s, dirBase, f, ram, buf, es);
            n == AllMappedBytes(m, MaskDirBase(dirBase), es) && x == ReadEach(f, ram, buf, m, MaskDirBase(dirBase), es)
  {
    hide ReadCalls, ReadEach, Inv, AllFit, AllReadable, AllMappedBytes;
  }

  /** What one call per request has done. */
  ghost predicate WriteCallsDid(w: World, m: Mem, limit: nat, s: Tlb, tick: nat, dirBase: nat,
                             f: Hole, ram: seq<Byte>, buf: seq<Byte>, es: seq<RW>)
  {
    && AllFit(|buf|, |ram|, es) && AllReadable(f, |buf|, |ram|, m, MaskDirBase(dirBase), es)
    && var (n, x, s') := WriteCalls(w, tick, s, dirBase, f, ram, buf, es);
    && n == AllMappedBytes(m, MaskDirBase(dirBase), es) && x == WriteEach(f, ram, buf, m, MaskDirBase(dirBase), es)
    && Inv(w, limit, s', tick + 5 * Slots(es))
  }

  lemma WriteCallsFold(w: World, tick: nat, s: Tlb, dirBase: nat, f: Hole, ram: seq<Byte>, buf: seq<Byte>,
                       es: seq<RW>, k: nat)
    requires AllFit(|buf|, |ram|, es) && |es| == k + 1
    ensures AllFit(|buf|, |ram|, es[..k]) && Fits(|buf|, |ram|, es[k])
    ensures Slots(es) == Slots(es[..k]) + |Pieces(es[k].remote, es[k].size)|
    ensures var (n1, x1, s1) := WriteCalls(w, tick, s, dirBase, f, ram, buf, es[..k]);
            var (n2, x2, s2) := OneWrite(w, tick + 5 * Slots(es[..k]), s1, dirBase, f, x1, buf, es[k]);
            WriteCalls(w, tick, s, dirBase, f, ram, buf, es) == (n1 + n2, x2, s2)
  {
    hide OneWrite, Fits, Pieces;
  }

  lemma NextWriteCall(w: World, m: Mem, limit: nat, s: Tlb, tick: nat, dirBase: nat,
                  f: Hole, ram: seq<Byte>, buf: seq<Byte>, es: seq<RW>, k: nat)
    requires Settled(w, limit) && |es| == k + 1 && RangeFrozen(w, m, MaskDirBase(dirBase), es[k].remote, es[k].size)
    requires AllReadable(f, |buf|, |ram|, m, MaskDirBase(dirBase), es) && AllFit(|buf|, |ram|, es)
    requires WriteCallsDid(w, m, limit, s, tick, dirBase, f, ram, buf, es[..k])
    ensures WriteCallsDid(w, m, limit, s, tick, dirBase, f, ram, buf, es)
  {
    hide WriteCalls, OneWrite, WriteEach, WalkChunks, WriteAll, Inv, RangeFrozen, Settled, Readable, AllReadable,
         AllProper, MappedBytes, AllMappedBytes, AllWalkChunks, Pieces, Slots, MaskDirBase, Fits, AllFit, HasFrame, Src;
    WriteCallsFold(w, tick, s, dirBase, f, ram, buf, es, k);
    WriteNext(f, ram, buf, m, MaskDirBase(dirBase), es, k);
    var (n1, x1, s1) := WriteCalls(w, tick, s, dirBase, f, ram, buf, es[..k]);
    OneWriteIsWalk(w, m, limit, s1, tick + 5 * Slots(es[..k]), dirBase, f, x1, buf, es[k]);
  }

  lemma {:induction false} WriteCallsAreEach(w: World, m: Mem, limit: nat, s: Tlb, tick: nat, dirBase: nat,
                                            f: Hole, ram: seq<Byte>, buf: seq<Byte>, es: seq<RW>)
    requires Settled(w, limit) && Inv(w, limit, s, tick)
    requires AllFrozen(w, m, MaskDirBase(dirBase), es)
    requires AllReadable(f, |buf|, |ram|, m, MaskDirBase(dirBase), es)
    ensures WriteCallsDid(w, m, limit, s, tick, dirBase, f, ram, buf, es)
    decreases |es|
  {
    ReadableFits(f, |buf|, |ram|, m, MaskDirBase(dirBase), es);
    if es != [] {
      hide Inv, RangeFrozen, Settled, Readable, WriteCallsDid, MaskDirBase, Fits;
      var k := |es| - 1;
      WriteCallsAreEach(w, m, limit, s, tick, dirBase, f, ram, buf, es[..k]);
      NextWriteCall(w, m, limit, s, tick, dirBase, f, ram, buf, es, k);
    }
  }

  lemma WriteCallsDidEach(w: World, m: Mem, limit: nat, s: Tlb, tick: nat, dirBase: nat,
                      f: Hole, ram: seq<Byte>, buf: seq<Byte>, es: seq<RW>)
    requires WriteCallsDid(w, m, limit, s, tick, dirBase, f, ram, buf, es)
    ensures AllFit(|buf|, |ram|, es) && AllReadable(f, |buf|, |ram|, m, MaskDirBase(dirBase), es)
    ensures var (n, x, _) := WriteCalls(w, tick, s, dirBase, f, ram, buf, es);
            n == AllMappedBytes(m, MaskDirBase(dirBase), es) && x == WriteEach(f, ram, buf, m, MaskDirBase(dirBase), es)
  {
    hide WriteCalls, WriteEach, Inv, AllFit, AllReadable, AllMappedBytes;
  }

  /** VMemReadMul on frozen tables returns what one VMemRead per request returns in all, and leaves
      local memory as they do, through any cache, at any time and in any other run of the guest. */
  lemma ReadMulIsCalls(w: World, w2: World, m: Mem, limit: nat, s: Tlb, tick: nat, s2: Tlb, tick2: nat, dirBase: nat,
                       f: Hole, ram: seq<Byte>, buf: seq<Byte>, es: seq<RW>)
    requires Settled(w, limit) && Inv(w, limit, s, tick) && AllFrozen(w, m, MaskDirBase(dirBase), es)
    requires Settled(w2, limit) && Inv(w2, limit, s2, tick2) && AllFrozen(w2, m, MaskDirBase(dirBase), es)
    requires AllReadable(f, |buf|, |ram|, m, MaskDirBase(dirBase), es)
    ensures var cs := FillAll(w, tick, s, dirBase, es).0;
            && AllProper(f, |buf|, |ram|, cs) && AllFit(|buf|, |ram|, es)
            && var (n, b, _) := ReadCalls(w2, tick2, s2, dirBase, f, ram, buf, es);
            ReadAll(f, ram, buf, cs) == (n, b)
  {
    hide *;
    ReadMulIsEach(w, m, limit, s, tick, dirBase, f, ram, buf, es);
    ReadCallsAreEach(w2, m, limit, s2, tick2, dirBase, f, ram, buf, es);
    ReadCallsDidEach(w2, m, limit, s2, tick2, dirBase, f, ram, buf, es);
  }

  /** The same for VMemWriteMul, so later writes win. */
  lemma WriteMulIsCalls(w: World, w2: World, m: Mem, limit: nat, s: Tlb, tick: nat, s2: Tlb, tick2: nat, dirBase: nat,
                        f: Hole, ram: seq<Byte>, buf: seq<Byte>, es: seq<RW>)
    requires Settled(w, limit) && Inv(w, limit, s, tick) && AllFrozen(w, m, MaskDirBase(dirBase), es)
    requires Settled(w2, limit) && Inv(w2, limit, s2, tick2) && AllFrozen(w2, m, MaskDirBase(dirBase), es)
    requires AllReadable(f, |buf|, |ram|, m, MaskDirBase(dirBase), es)
    ensures var cs := FillAll(w, tick, s, dirBase, es).0;
            && AllProper(f, |buf|, |ram|, cs) && AllFit(|buf|, |ram|, es)
            && var (n, ram', _) := WriteCalls(w2, tick2, s2, dirBase, f, ram, buf, es);
            WriteAll(f, ram, buf, cs) == (n, ram')
  {
    hide *;
    WriteMulIsEach(w, m, limit, s, tick, dirBase, f, ram, buf, es);
    WriteCallsAreEach(w2, m, limit, s2, tick2, dirBase, f, ram, buf, es);
    WriteCallsDidEach(w2, m, limit, s2, tick2, dirBase, f, ram, buf, es);
  }
}
