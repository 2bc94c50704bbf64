/** Batched requests against the byte-by-byte specification, and exactly when they meet it. */
module BatchBytes {
  import opened Bits
  import opened GuestMemory
  import opened TlbModel
  import opened TlbRuns
  import opened Splitter
  import opened PhysMem
  import opened VMem
  import opened VMemBytes
  import opened VMemWrites
  import opened Batch

  // ---- Reading ----

  /** The request delivers local byte x: it holds it, and the byte is mapped. */
  predicate Covers(m: Mem, d: nat, e: RW, x: int) {
    InChunk(e, x) && HasFrame(Src(m, d, e.remote, x - e.local))
  }

  predicate CoversLast(m: Mem, d: nat, es: seq<RW>, i: int, x: int) {
    0 <= i < |es| && Covers(m, d, es[i], x) && forall k :: i < k < |es| ==> !Covers(m, d, es[k], x)
  }

  /** Local byte x is the guest byte its own walk leads to. */
  predicate FromGuest(f: Hole, ram: seq<Byte>, b: seq<Byte>, m: Mem, d: nat, e: RW, x: int)
    requires Covers(m, d, e, x) && 0 <= x < |b|
  {
    var y := Remap(f, Src(m, d, e.remote, x - e.local).address);
    y < |ram| && b[x] == ram[y]
  }

  /** Result and local memory after a list of reads: the number of mapped bytes; every local byte
      comes from the last request that delivers it, or else has its old value. */
  ghost predicate AllReadDone(f: Hole, ram: seq<Byte>, buf: seq<Byte>, n: int, b: seq<Byte>, m: Mem, d: nat,
                              es: seq<RW>) {
    && |b| == |buf| && n == AllMappedBytes(m, d, es)
    && (forall i, x :: 0 <= x < |b| && CoversLast(m, d, es, i, x) ==> FromGuest(f, ram, b, m, d, es[i], x))
    && (forall x :: 0 <= x < |b| && (forall i :: 0 <= i < |es| ==> !Covers(m, d, es[i], x)) ==> b[x] == buf[x])
  }

  lemma ReadDoneByte(f: Hole, ram: seq<Byte>, buf: seq<Byte>, n: int, b: seq<Byte>, m: Mem, d: nat, e: RW, x: nat)
    requires ReadDone(f, ram, buf, n, b, m, d, e) && x < |b|
    ensures if Covers(m, d, e, x) then FromGuest(f, ram, b, m, d, e, x) else b[x] == buf[x]
  {
    hide Src, Remap, HasFrame, MappedBytes;
    if InChunk(e, x) { assert ByteRead(f, ram, buf, b, m, d, e, x - e.local); }
  }

  lemma LastInFront(m: Mem, d: nat, es: seq<RW>, k: nat, i: int, x: int)
    requires |es| == k + 1 && !Covers(m, d, es[k], x)
    ensures CoversLast(m, d, es, i, x) <==> CoversLast(m, d, es[..k], i, x)
  {
    hide Covers;
    if CoversLast(m, d, es[..k], i, x) {
      forall j | i < j < |es| ensures !Covers(m, d, es[j], x) {
        if j < k { assert es[..k][j] == es[j]; }
      }
    }
  }

  /** One more request. */
  lemma ReadDoneNext(f: Hole, ram: seq<Byte>, buf: seq<Byte>, n0: int, b0: seq<Byte>, n: int, b: seq<Byte>,
                     m: Mem, d: nat, es: seq<RW>, k: nat)
    requires |es| == k + 1 && AllReadDone(f, ram, buf, n0, b0, m, d, es[..k])
    requires ReadDone(f, ram, b0, n, b, m, d, es[k])
    ensures AllReadDone(f, ram, buf, n0 + n, b, m, d, es)
  {
    hide Covers, FromGuest, ByteRead, MappedBytes;
    forall i, x | 0 <= x < |b| && CoversLast(m, d, es, i, x) ensures FromGuest(f, ram, b, m, d, es[i], x) {
      ReadDoneByte(f, ram, b0, n, b, m, d, es[k], x);
      if !Covers(m, d, es[k], x) {
        LastInFront(m, d, es, k, i, x);
        FromGuestSame(f, ram, b0, b, m, d, es[i], x);
      }
    }
    forall x | 0 <= x < |b| && (forall i :: 0 <= i < |es| ==> !Covers(m, d, es[i], x)) ensures b[x] == buf[x] {
      ReadDoneByte(f, ram, b0, n, b, m, d, es[k], x);
      assert forall i :: 0 <= i < k ==> es[..k][i] == es[i];
    }
  }

  lemma FromGuestSame(f: Hole, ram: seq<Byte>, b: seq<Byte>, b': seq<Byte>, m: Mem, d: nat, e: RW, x: nat)
    requires Covers(m, d, e, x) && x < |b| == |b'| && FromGuest(f, ram, b, m, d, e, x) && b'[x] == b[x]
    ensures FromGuest(f, ram, b', m, d, e, x)
  {
  }

  lemma NothingRead(f: Hole, ram: seq<Byte>, buf: seq<Byte>, m: Mem, d: nat)
    ensures AllReadable(f, |buf|, |ram|, m, d, [])
    ensures AllReadDone(f, ram, buf, 0, ReadEach(f, ram, buf, m, d, []), m, d, [])
  {
    hide Covers;
  }

  lemma {:induction false} EachReadDone(f: Hole, ram: seq<Byte>, buf: seq<Byte>, m: Mem, d: nat, es: seq<RW>)
    requires AllReadable(f, |buf|, |ram|, m, d, es)
    ensures AllReadDone(f, ram, buf, AllMappedBytes(m, d, es), ReadEach(f, ram, buf, m, d, es), m, d, es)
    decreases |es|
  {
    hide *;
    if es == [] {
      NothingRead(f, ram, buf, m, d);
      ReadNone(f, ram, buf, m, d);
      NoneMappedAll(m, d);
    } else {
      var k := |es| - 1;
      ReadNext(f, ram, buf, m, d, es, k);
      EachReadDone(f, ram, buf, m, d, es[..k]);
      var b0 := ReadEach(f, ram, buf, m, d, es[..k]);
      ReadWalkChunks(f, ram, b0, m, d, es[k]);
      var (n, b) := ReadAll(f, ram, b0, WalkChunks(m, d, es[k]));
      ReadDoneNext(f, ram, buf, AllMappedBytes(m, d, es[..k]), b0, n, b, m, d, es, k);
      ReadDoneCount(f, ram, b0, n, b, m, d, es[k]);
    }
  }

  lemma NoneMappedAll(m: Mem, d: nat)
    ensures AllMappedBytes(m, d, []) == 0
  {
  }

  lemma ReadDoneCount(f: Hole, ram: seq<Byte>, buf: seq<Byte>, n: int, b: seq<Byte>, m: Mem, d: nat, e: RW)
    requires ReadDone(f, ram, buf, n, b, m, d, e)
    ensures n == MappedBytes(m, d, e.remote, e.size)
  {
    hide MappedBytes, ByteRead;
  }

  // ---- Writing ----

  /** Byte j of request i is the last of the list to go to guest byte y. */
  ghost predicate GoesLast(f: Hole, m: Mem, d: nat, es: seq<RW>, i: int, j: int, y: int) {
    && 0 <= i < |es| && GoesTo(f, m, d, es[i], j, y) && NoneAfter(f, m, d, es[i], j, y)
    && forall k :: i < k < |es| ==> NeverTo(f, m, d, es[k], y)
  }

  ghost predicate NeverTo(f: Hole, m: Mem, d: nat, e: RW, y: int) {
    forall j :: !GoesTo(f, m, d, e, j, y)
  }

  ghost predicate NoneAfter(f: Hole, m: Mem, d: nat, e: RW, j: int, y: int) {
    forall i :: j < i ==> !GoesTo(f, m, d, e, i, y)
  }

  /** Result and guest RAM after a list of writes: the number of mapped bytes; every guest byte has
      the value of the last byte of the last request that goes to it, or else its old value. */
  ghost predicate AllWriteDone(f: Hole, ram: seq<Byte>, buf: seq<Byte>, n: int, ram': seq<Byte>, m: Mem, d: nat,
                               es: seq<RW>) {
    && |ram'| == |ram| && n == AllMappedBytes(m, d, es)
    && (forall i, j, y :: GoesLast(f, m, d, es, i, j, y) ==> Written(ram', buf, es[i], j, y))
    && (forall y :: 0 <= y < |ram| && (forall i :: 0 <= i < |es| ==> NeverTo(f, m, d, es[i], y)) ==> ram'[y] == ram[y])
  }

  /** Guest byte y has the value of byte j of the request. */
  predicate Written(ram: seq<Byte>, buf: seq<Byte>, e: RW, j: int, y: int) {
    0 <= y < |ram| && 0 <= e.local + j < |buf| && ram[y] == buf[e.local + j]
  }

  lemma WriteDoneWon(f: Hole, ram: seq<Byte>, buf: seq<Byte>, n: int, ram': seq<Byte>, m: Mem, d: nat, e: RW, j: int,
                     y: int)
    requires WriteDone(f, ram, buf, n, ram', m, d, e) && GoesTo(f, m, d, e, j, y) && NoneAfter(f, m, d, e, j, y)
    ensures Written(ram', buf, e, j, y)
  {
    assert 0 <= j < e.size;
    hide GoesTo, MappedBytes;
  }

  lemma WriteDoneKept(f: Hole, ram: seq<Byte>, buf: seq<Byte>, n: int, ram': seq<Byte>, m: Mem, d: nat, e: RW, y: int)
    requires WriteDone(f, ram, buf, n, ram', m, d, e) && NeverTo(f, m, d, e, y) && 0 <= y < |ram|
    ensures |ram'| == |ram| && ram'[y] == ram[y]
  {
    hide GoesTo, MappedBytes;
  }

  lemma WonNext(f: Hole, ram: seq<Byte>, buf: seq<Byte>, n0: int, ram0: seq<Byte>, n: int, ram': seq<Byte>,
                m: Mem, d: nat, es: seq<RW>, k: nat, i: int, j: int, y: int)
    requires |es| == k + 1 && AllWriteDone(f, ram, buf, n0, ram0, m, d, es[..k])
    requires WriteDone(f, ram0, buf, n, ram', m, d, es[k]) && GoesLast(f, m, d, es, i, j, y)
    ensures Written(ram', buf, es[i], j, y)
  {
    hide NeverTo, NoneAfter, GoesTo, WriteDone, AllMappedBytes;
    if i == k {
      WriteDoneWon(f, ram0, buf, n, ram', m, d, es[k], j, y);
    } else {
      assert GoesLast(f, m, d, es[..k], i, j, y);
      WriteDoneKept(f, ram0, buf, n, ram', m, d, es[k], y);
    }
  }

  lemma KeptNext(f: Hole, ram: seq<Byte>, buf: seq<Byte>, n0: int, ram0: seq<Byte>, n: int, ram': seq<Byte>,
                 m: Mem, d: nat, es: seq<RW>, k: nat, y: nat)
    requires |es| == k + 1 && AllWriteDone(f, ram, buf, n0, ram0, m, d, es[..k])
    requires WriteDone(f, ram0, buf, n, ram', m, d, es[k])
    requires y < |ram| && forall i :: 0 <= i < |es| ==> NeverTo(f, m, d, es[i], y)
    ensures |ram'| == |ram| && ram'[y] == ram[y]
  {
    hide NeverTo, GoesLast, Written, WriteDone, AllMappedBytes;
    assert forall i :: 0 <= i < k ==> es[..k][i] == es[i];
    WriteDoneKept(f, ram0, buf, n, ram', m, d, es[k], y);
  }

  lemma WriteDoneNext(f: Hole, ram: seq<Byte>, buf: seq<Byte>, n0: int, ram0: seq<Byte>, n: int, ram': seq<Byte>,
                      m: Mem, d: nat, es: seq<RW>, k: nat)
    requires |es| == k + 1 && AllWriteDone(f, ram, buf, n0, ram0, m, d, es[..k])
    requires WriteDone(f, ram0, buf, n, ram', m, d, es[k])
    ensures AllWriteDone(f, ram, buf, n0 + n, ram', m, d, es)
  {
    hide NeverTo, NoneAfter, GoesTo, Written, WriteDone, MappedBytes;
    WriteDoneCount(f, ram0, buf, n, ram', m, d, es[k]);
    forall i, j, y | GoesLast(f, m, d, es, i, j, y) ensures Written(ram', buf, es[i], j, y) {
      WonNext(f, ram, buf, n0, ram0, n, ram', m, d, es, k, i, j, y);
    }
    forall y | 0 <= y < |ram| && (forall i :: 0 <= i < |es| ==> NeverTo(f, m, d, es[i], y)) ensures ram'[y] == ram[y] {
      KeptNext(f, ram, buf, n0, ram0, n, ram', m, d, es, k, y);
    }
  }

  lemma WriteDoneCount(f: Hole, ram: seq<Byte>, buf: seq<Byte>, n: int, ram': seq<Byte>, m: Mem, d: nat, e: RW)
    requires WriteDone(f, ram, buf, n, ram', m, d, e)
    ensures |ram'| == |ram| && n == MappedBytes(m, d, e.remote, e.size)
  {
    hide MappedBytes, GoesTo;
  }

  lemma NothingWritten(f: Hole, ram: seq<Byte>, buf: seq<Byte>, m: Mem, d: nat)
    ensures AllReadable(f, |buf|, |ram|, m, d, [])
    ensures AllWriteDone(f, ram, buf, 0, WriteEach(f, ram, buf, m, d, []), m, d, [])
  {
    hide GoesTo;
  }

  lemma {:induction false} EachWriteDone(f: Hole, ram: seq<Byte>, buf: seq<Byte>, m: Mem, d: nat, es: seq<RW>)
    requires AllReadable(f, |buf|, |ram|, m, d, es)
    ensures AllWriteDone(f, ram, buf, AllMappedBytes(m, d, es), WriteEach(f, ram, buf, m, d, es), m, d, es)
    decreases |es|
  {
    hide *;
    if es == [] {
      NothingWritten(f, ram, buf, m, d);
      NoneMappedAll(m, d);
    } else {
      var k := |es| - 1;
      WriteNext(f, ram, buf, m, d, es, k);
      EachWriteDone(f, ram, buf, m, d, es[..k]);
      var ram0 := WriteEach(f, ram, buf, m, d, es[..k]);
      WriteWalkChunks(f, ram0, buf, m, d, es[k]);
      var (n, ram') := WriteAll(f, ram0, buf, WalkChunks(m, d, es[k]));
      WriteDoneNext(f, ram, buf, AllMappedBytes(m, d, es[..k]), ram0, n, ram', m, d, es, k);
      WriteDoneCount(f, ram0, buf, n, ram', m, d, es[k]);
    }
  }

  // ---- Exactly when ----

  predicate AllNonempty(es: seq<RW>) {
    forall i :: 0 <= i < |es| ==> es[i].size >= 1
  }

  /** The transfers move at least the mapped bytes, and exactly these, all in range, if and only if
      every request is readable. */
  ghost predicate CountsExactly(f: Hole, bufSize: nat, ramSize: nat, m: Mem, d: nat, es: seq<RW>, cs: seq<RW>) {
    && AllProper(f, bufSize, ramSize, cs)
    && TotalSize(cs) >= AllMappedBytes(m, d, es)
    && (AllInRange(f, ramSize, cs) && TotalSize(cs) == AllMappedBytes(m, d, es)
        <==> AllReadable(f, bufSize, ramSize, m, d, es))
  }

  lemma NoCounts(f: Hole, bufSize: nat, ramSize: nat, m: Mem, d: nat)
    ensures CountsExactly(f, bufSize, ramSize, m, d, [], [])
  {
  }

  lemma RangeOfConcat(f: Hole, ramSize: nat, a: seq<RW>, b: seq<RW>)
    ensures AllInRange(f, ramSize, a + b) <==> AllInRange(f, ramSize, a) && AllInRange(f, ramSize, b)
  {
    hide InRange;
    if AllInRange(f, ramSize, a + b) {
      forall i | 0 <= i < |a| ensures InRange(f, ramSize, a[i]) { assert (a + b)[i] == a[i]; }
      forall i | 0 <= i < |b| ensures InRange(f, ramSize, b[i]) { assert (a + b)[|a| + i] == b[i]; }
    }
  }

  lemma ReadableOfFront(f: Hole, bufSize: nat, ramSize: nat, m: Mem, d: nat, es: seq<RW>, k: nat)
    requires |es| == k + 1
    ensures AllReadable(f, bufSize, ramSize, m, d, es)
            <==> AllReadable(f, bufSize, ramSize, m, d, es[..k]) && Readable(f, bufSize, ramSize, m, d, es[k])
    ensures AllMappedBytes(m, d, es)
         == AllMappedBytes(m, d, es[..k]) + MappedBytes(m, d, es[k].remote, es[k].size)
  {
    hide Readable, MappedBytes;
    if AllReadable(f, bufSize, ramSize, m, d, es[..k]) && Readable(f, bufSize, ramSize, m, d, es[k]) {
      forall i | 0 <= i < |es| ensures Readable(f, bufSize, ramSize, m, d, es[i]) {
        if i < k { assert es[..k][i] == es[i]; }
      }
    }
  }

  /** What is known of the transfers of one request. */
  ghost predicate CountsOne(f: Hole, bufSize: nat, ramSize: nat, m: Mem, d: nat, e: RW, c: seq<RW>) {
    && AllProper(f, bufSize, ramSize, c)
    && TotalSize(c) >= MappedBytes(m, d, e.remote, e.size)
    && (AllInRange(f, ramSize, c) && TotalSize(c) == MappedBytes(m, d, e.remote, e.size)
        <==> Readable(f, bufSize, ramSize, m, d, e))
  }

  lemma FillCounts(w: World, m: Mem, limit: nat, s: Tlb, tick: nat, dirBase: nat, e: RW, f: Hole, bufSize: nat,
                   ramSize: nat)
    requires Settled(w, limit) && Inv(w, limit, s, tick) && Fits(bufSize, ramSize, e) && e.size >= 1
    requires RangeFrozen(w, m, MaskDirBase(dirBase), e.remote, e.size)
    ensures var (c, s') := Fill(w, tick, s, dirBase, e);
            && CountsOne(f, bufSize, ramSize, m, MaskDirBase(dirBase), e, c)
            && Inv(w, limit, s', tick + 5 * |Pieces(e.remote, e.size)|)
  {
    var d := MaskDirBase(dirBase);
    hide Fill, Inv, RangeFrozen, Src, Readable, Pieces, Chunks, AllInRange, AllProper, MappedBytes, TotalSize,
         PieceValues, TailValues, Settled, HasFrame, Fits;
    var vs := FillIsNearWalk(w, m, limit, s, tick, dirBase, e);
    CountExactly(f, bufSize, ramSize, m, d, e, vs);
    ChunksTotal(m, d, e, vs);
  }

  lemma CountsNext(f: Hole, bufSize: nat, ramSize: nat, m: Mem, d: nat, es: seq<RW>, k: nat, cs: seq<RW>, c: seq<RW>)
    requires |es| == k + 1 && CountsExactly(f, bufSize, ramSize, m, d, es[..k], cs)
    requires CountsOne(f, bufSize, ramSize, m, d, es[k], c)
    ensures CountsExactly(f, bufSize, ramSize, m, d, es, cs + c)
  {
    hide Readable, AllReadable, AllInRange, TotalSize, MappedBytes, AllMappedBytes, Proper;
    ReadableOfFront(f, bufSize, ramSize, m, d, es, k);
    RangeOfConcat(f, ramSize, cs, c);
    TotalOfConcat(cs, c);
  }

  /** The transfers of a list through the cache. */
  lemma {:induction false} FillAllCounts(w: World, m: Mem, limit: nat, s: Tlb, tick: nat, dirBase: nat, es: seq<RW>,
                                         f: Hole, bufSize: nat, ramSize: nat)
    requires Settled(w, limit) && Inv(w, limit, s, tick) && AllFit(bufSize, ramSize, es) && AllNonempty(es)
    requires AllFrozen(w, m, MaskDirBase(dirBase), es)
    ensures var (cs, s') := FillAll(w, tick, s, dirBase, es);
            && CountsExactly(f, bufSize, ramSize, m, MaskDirBase(dirBase), es, cs)
            && Inv(w, limit, s', tick + 5 * Slots(es))
    decreases |es|
  {
    var d := MaskDirBase(dirBase);
    hide Fill, Inv, RangeFrozen, Settled, CountsExactly, CountsOne, Pieces, MaskDirBase, Fits;
    if es == [] {
      NoCounts(f, bufSize, ramSize, m, d);
    } else {
      var k := |es| - 1;
      FillAllCounts(w, m, limit, s, tick, dirBase, es[..k], f, bufSize, ramSize);
      var (cs, s1) := FillAll(w, tick, s, dirBase, es[..k]);
      FillCounts(w, m, limit, s1, tick + 5 * Slots(es[..k]), dirBase, es[k], f, bufSize, ramSize);
      CountsNext(f, bufSize, ramSize, m, d, es, k, cs, Fill(w, tick + 5 * Slots(es[..k]), s1, dirBase, es[k]).0);
    }
  }

  lemma CountsMeans(f: Hole, bufSize: nat, ramSize: nat, m: Mem, d: nat, es: seq<RW>, cs: seq<RW>)
    requires CountsExactly(f, bufSize, ramSize, m, d, es, cs)
    ensures AllProper(f, bufSize, ramSize, cs)
    ensures (if AllInRange(f, ramSize, cs) then TotalSize(cs) else -1) == AllMappedBytes(m, d, es)
            <==> AllReadable(f, bufSize, ramSize, m, d, es)
  {
    hide AllInRange, TotalSize, AllMappedBytes, AllReadable, AllProper;
  }

  lemma AllReadDoneCount(f: Hole, ram: seq<Byte>, buf: seq<Byte>, n: int, b: seq<Byte>, m: Mem, d: nat, es: seq<RW>)
    requires AllReadDone(f, ram, buf, n, b, m, d, es)
    ensures n == AllMappedBytes(m, d, es)
  {
    hide Covers, FromGuest, AllMappedBytes;
  }

  lemma AllWriteDoneCount(f: Hole, ram: seq<Byte>, buf: seq<Byte>, n: int, ram': seq<Byte>, m: Mem, d: nat, es: seq<RW>)
    requires AllWriteDone(f, ram, buf, n, ram', m, d, es)
    ensures n == AllMappedBytes(m, d, es)
  {
    hide GoesLast, NeverTo, Written, AllMappedBytes;
  }

  /** VMemReadMul on frozen tables, whatever the cache holds, meets its byte-by-byte specification
      exactly when every request of the list is readable by itself. */
  lemma ReadMulExactly(w: World, m: Mem, limit: nat, s: Tlb, tick: nat, dirBase: nat,
                       f: Hole, ram: seq<Byte>, buf: seq<Byte>, es: seq<RW>)
    requires Settled(w, limit) && Inv(w, limit, s, tick) && AllFit(|buf|, |ram|, es) && AllNonempty(es)
    requires AllFrozen(w, m, MaskDirBase(dirBase), es)
    ensures var cs, d := FillAll(w, tick, s, dirBase, es).0, MaskDirBase(dirBase);
            AllProper(f, |buf|, |ram|, cs) &&
            var (n, b) := ReadAll(f, ram, buf, cs);
            AllReadDone(f, ram, buf, n, b, m, d, es) <==> AllReadable(f, |buf|, |ram|, m, d, es)
  {
    hide *;
    var d, cs := MaskDirBase(dirBase), FillAll(w, tick, s, dirBase, es).0;
    FillAllCounts(w, m, limit, s, tick, dirBase, es, f, |buf|, |ram|);
    CountsMeans(f, |buf|, |ram|, m, d, es, cs);
    ReadAllTotal(f, ram, buf, cs);
    var (n, b) := ReadAll(f, ram, buf, cs);
    if AllReadable(f, |buf|, |ram|, m, d, es) {
      ReadMulIsEach(w, m, limit, s, tick, dirBase, f, ram, buf, es);
      EachReadDone(f, ram, buf, m, d, es);
    } else if AllReadDone(f, ram, buf, n, b, m, d, es) {
      AllReadDoneCount(f, ram, buf, n, b, m, d, es);
    }
  }

  /** The same for VMemWriteMul, aliased frames and overlapping requests included. */
  lemma WriteMulExactly(w: World, m: Mem, limit: nat, s: Tlb, tick: nat, dirBase: nat,
                        f: Hole, ram: seq<Byte>, buf: seq<Byte>, es: seq<RW>)
    requires Settled(w, limit) && Inv(w, limit, s, tick) && AllFit(|buf|, |ram|, es) && AllNonempty(es)
    requires AllFrozen(w, m, MaskDirBase(dirBase), es)
    ensures var cs, d := FillAll(w, tick, s, dirBase, es).0, MaskDirBase(dirBase);
            AllProper(f, |buf|, |ram|, cs) &&
            var (n, ram') := WriteAll(f, ram, buf, cs);
            AllWriteDone(f, ram, buf, n, ram', m, d, es) <==> AllReadable(f, |buf|, |ram|, m, d, es)
  {
    hide *;
    var d, cs := MaskDirBase(dirBase), FillAll(w, tick, s, dirBase, es).0;
    FillAllCounts(w, m, limit, s, tick, dirBase, es, f, |buf|, |ram|);
    CountsMeans(f, |buf|, |ram|, m, d, es, cs);
    WriteAllTotal(f, ram, buf, cs);
    var (n, ram') := WriteAll(f, ram, buf, cs);
    if AllReadable(f, |buf|, |ram|, m, d, es) {
      WriteMulIsEach(w, m, limit, s, tick, dirBase, f, ram, buf, es);
      EachWriteDone(f, ram, buf, m, d, es);
    } else if AllWriteDone(f, ram, buf, n, ram', m, d, es) {
      AllWriteDoneCount(f, ram, buf, n, ram', m, d, es);
    }
  }
}
