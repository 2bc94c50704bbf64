/** Virtual writes against the byte-by-byte specification, and writing followed by reading. */
module VMemWrites {
  import opened Bits
  import opened GuestMemory
  import opened TlbModel
  import opened TlbRuns
  import opened Splitter
  import opened PhysMem
  import opened VMem
  import opened VMemBytes

  /** Byte j of the request is mapped, and it goes to guest byte y. */
  predicate GoesTo(f: Hole, m: Mem, d: nat, e: RW, j: int, y: int) {
    0 <= j < e.size && HasFrame(Src(m, d, e.remote, j)) && Remap(f, Src(m, d, e.remote, j).address) == y
  }

  /** Result and guest RAM after a write: the number of mapped bytes; every guest byte has the
      value of the last request byte that goes to it, or else its old value. */
  ghost predicate WriteDone(f: Hole, ram: seq<Byte>, buf: seq<Byte>, n: int, ram': seq<Byte>, m: Mem, d: nat, e: RW) {
    && |ram'| == |ram| && e.local + e.size <= |buf|
    && n == MappedBytes(m, d, e.remote, e.size)
    && (forall j, y :: GoesTo(f, m, d, e, j, y) && (forall i :: j < i ==> !GoesTo(f, m, d, e, i, y)) ==>
          0 <= y < |ram| && ram'[y] == buf[e.local + j])
    && (forall y :: 0 <= y < |ram| && (forall j :: !GoesTo(f, m, d, e, j, y)) ==> ram'[y] == ram[y])
  }

  /** The request byte behind a target of chunk c. */
  lemma TargetByte(f: Hole, m: Mem, d: nat, e: RW, c: nat, y: nat) returns (j: nat)
    requires e.size >= 1 && HasFrame(Src(m, d, e.remote, 0))
    requires c < |WalkChunks(m, d, e)| && Targets(f, WalkChunks(m, d, e)[c], y)
    ensures GoesTo(f, m, d, e, j, y)
    ensures var t := WalkChunks(m, d, e)[c];
            InChunk(t, e.local + j) && y - Remap(f, t.remote) + t.local == e.local + j
  {
    hide Src, Remap;
    var ps := Pieces(e.remote, e.size);
    var vs := PieceWalks(m, d, e.remote, ps);
    assert ps[..|ps|] == ps && vs[..|ps|] == vs;
    PiecesTile(e.remote, e.size, 0);
    var k := ChunkOrigin(e.local, ps, vs, |ps|, c);
    KeptHasFrame(m, d, e.remote, e.size, vs, k);
    PiecesTile(e.remote, e.size, k);
    hide Pieces, Chunks;
    j := ps[k].off + (y - Remap(f, vs[k]));
    PieceFrame(m, d, e.remote, e.size, k, j);
    ByteInPiece(f, m, d, e, k, j);
  }

  /** The byte that wins a guest byte is in the last chunk that targets it. */
  lemma NoLaterTarget(f: Hole, m: Mem, d: nat, e: RW, c: nat, j: nat, y: nat)
    requires e.size >= 1 && HasFrame(Src(m, d, e.remote, 0))
    requires Ascending(WalkChunks(m, d, e))
    requires c < |WalkChunks(m, d, e)| && InChunk(WalkChunks(m, d, e)[c], e.local + j)
    requires forall i :: j < i ==> !GoesTo(f, m, d, e, i, y)
    ensures TargetsNone(f, WalkChunks(m, d, e)[c + 1..], y)
  {
    hide WalkChunks, GoesTo, Src;
    var cs := WalkChunks(m, d, e);
    var rest := cs[c + 1..];
    forall k | 0 <= k < |rest| ensures !Targets(f, rest[k], y) {
      assert rest[k] == cs[c + 1 + k] && cs[c].local + cs[c].size <= rest[k].local;
      if Targets(f, rest[k], y) { var i := TargetByte(f, m, d, e, c + 1 + k, y); }
    }
  }

  lemma WonByteWritten(f: Hole, ram: seq<Byte>, buf: seq<Byte>, m: Mem, d: nat, e: RW, j: nat, y: nat)
    requires Readable(f, |buf|, |ram|, m, d, e) && GoesTo(f, m, d, e, j, y)
    requires forall i :: j < i ==> !GoesTo(f, m, d, e, i, y)
    ensures AllProper(f, |buf|, |ram|, WalkChunks(m, d, e))
    ensures y < |ram| && WriteAll(f, ram, buf, WalkChunks(m, d, e)).1[y] == buf[e.local + j]
  {
    hide WalkChunks, WriteAll, Src, Remap, AllProper, AllInRange, Ascending, TargetsNone;
    WalkChunksOk(f, |buf|, |ram|, m, d, e);
    var c := MappedByteChunk(f, m, d, e, j);
    NoLaterTarget(f, m, d, e, c, j, y);
    LastWriteWins(f, ram, buf, WalkChunks(m, d, e), c, y);
  }

  lemma OtherBytesKept(f: Hole, ram: seq<Byte>, buf: seq<Byte>, m: Mem, d: nat, e: RW, y: nat)
    requires Readable(f, |buf|, |ram|, m, d, e) && y < |ram| && forall j :: !GoesTo(f, m, d, e, j, y)
    ensures AllProper(f, |buf|, |ram|, WalkChunks(m, d, e))
    ensures WriteAll(f, ram, buf, WalkChunks(m, d, e)).1[y] == ram[y]
  {
    WalkChunksOk(f, |buf|, |ram|, m, d, e);
    hide WalkChunks, WriteAll, Src, Remap, Targets;
    var cs := WalkChunks(m, d, e);
    forall k | 0 <= k < |cs| ensures !Targets(f, cs[k], y) {
      if Targets(f, cs[k], y) { var j := TargetByte(f, m, d, e, k, y); }
    }
    WriteAllFrame(f, ram, buf, cs, y);
  }

  lemma WriteWalkChunks(f: Hole, ram: seq<Byte>, buf: seq<Byte>, m: Mem, d: nat, e: RW)
    requires Readable(f, |buf|, |ram|, m, d, e)
    ensures AllProper(f, |buf|, |ram|, WalkChunks(m, d, e))
    ensures var (n, ram') := WriteAll(f, ram, buf, WalkChunks(m, d, e)); WriteDone(f, ram, buf, n, ram', m, d, e)
  {
    hide Src, HasFrame, WalkChunks, MappedBytes, WriteAll, Remap, AllInRange, AllProper, Ascending;
    WalkChunksOk(f, |buf|, |ram|, m, d, e);
    WalkChunksTotal(m, d, e);
    WriteAllTotal(f, ram, buf, WalkChunks(m, d, e));
    forall j, y | GoesTo(f, m, d, e, j, y) && (forall i :: j < i ==> !GoesTo(f, m, d, e, i, y))
      ensures 0 <= y < |ram| && WriteAll(f, ram, buf, WalkChunks(m, d, e)).1[y] == buf[e.local + j]
    {
      WonByteWritten(f, ram, buf, m, d, e, j, y);
    }
    forall y | 0 <= y < |ram| && (forall j :: !GoesTo(f, m, d, e, j, y))
      ensures WriteAll(f, ram, buf, WalkChunks(m, d, e)).1[y] == ram[y]
    {
      OtherBytesKept(f, ram, buf, m, d, e, y);
    }
  }

  /** What VMemWrite does, in one statement about bytes, aliased frames included. */
  lemma WriteRefinesBytes(w: World, m: Mem, limit: nat, s: Tlb, tick: nat, dirBase: nat,
                          f: Hole, ram: seq<Byte>, buf: seq<Byte>, e: RW)
    requires Settled(w, limit) && Inv(w, limit, s, tick)
    requires RangeFrozen(w, m, MaskDirBase(dirBase), e.remote, e.size)
    requires Readable(f, |buf|, |ram|, m, MaskDirBase(dirBase), e)
    ensures var (cs, s') := Fill(w, tick, s, dirBase, e);
            AllProper(f, |buf|, |ram|, cs) && Inv(w, limit, s', tick + 5 * |Pieces(e.remote, e.size)|) &&
            var (n, ram') := WriteAll(f, ram, buf, cs);
            WriteDone(f, ram, buf, n, ram', m, MaskDirBase(dirBase), e)
  {
    hide Fill, WalkChunks, WriteAll, Inv, RangeFrozen, WriteDone, Src;
    FillIsWalk(w, m, limit, s, tick, dirBase, e);
    WriteWalkChunks(f, ram, buf, m, MaskDirBase(dirBase), e);
  }

  /** VMemWrite meets its specification under exactly the condition under which VMemRead does. */
  lemma WriteExactly(w: World, m: Mem, limit: nat, s: Tlb, tick: nat, dirBase: nat,
                     f: Hole, ram: seq<Byte>, buf: seq<Byte>, e: RW)
    requires Settled(w, limit) && Inv(w, limit, s, tick) && Fits(|buf|, |ram|, e) && e.size >= 1
    requires RangeFrozen(w, m, MaskDirBase(dirBase), e.remote, e.size)
    ensures var cs := Fill(w, tick, s, dirBase, e).0;
            AllProper(f, |buf|, |ram|, cs) &&
            var (n, ram') := WriteAll(f, ram, buf, cs);
            WriteDone(f, ram, buf, n, ram', m, MaskDirBase(dirBase), e)
            <==> Readable(f, |buf|, |ram|, m, MaskDirBase(dirBase), e)
  {
    var d := MaskDirBase(dirBase);
    hide Fill, Chunks, WriteAll, Inv, RangeFrozen, GoesTo, Src, Readable, Pieces, AllInRange, AllProper, MappedBytes,
         TotalSize, PieceValues, TailValues;
    var vs := FillIsNearWalk(w, m, limit, s, tick, dirBase, e);
    CountExactly(f, |buf|, |ram|, m, d, e, vs);
    WriteAllTotal(f, ram, buf, Chunks(e.local, Pieces(e.remote, e.size), vs));
    if Readable(f, |buf|, |ram|, m, d, e) {
      WriteRefinesBytes(w, m, limit, s, tick, dirBase, f, ram, buf, e);
    }
  }

  lemma EmptyWriteExactly(w: World, m: Mem, s: Tlb, tick: nat, dirBase: nat, f: Hole, ram: seq<Byte>, buf: seq<Byte>,
                          e: RW)
    requires Fits(|buf|, |ram|, e) && e.size == 0
    ensures var cs := Fill(w, tick, s, dirBase, e).0;
            AllProper(f, |buf|, |ram|, cs) &&
            var (n, ram') := WriteAll(f, ram, buf, cs);
            WriteDone(f, ram, buf, n, ram', m, MaskDirBase(dirBase), e)
            <==> Remap(f, Translate(w, tick, s, dirBase, Wrap64(e.remote)).0) < |ram|
  {
    EmptyFill(w, tick, s, dirBase, e);
    hide Translate, Fill, Remap, HasFrame, Src;
    var c := RW(e.local, Translate(w, tick, s, dirBase, Wrap64(e.remote)).0, 0);
    ShortIsProper(f, |buf|, |ram|, c);
    EmptyTransfer(f, ram, buf, c);
  }

  // ---- Writing, then reading ----

  /** A guest byte that no request byte goes to has its old value. */
  ghost predicate OnlyTargetsChanged(f: Hole, ram: seq<Byte>, ram': seq<Byte>, m: Mem, d: nat, e: RW) {
    && |ram'| == |ram|
    && forall y :: 0 <= y < |ram| && (forall j :: !GoesTo(f, m, d, e, j, y)) ==> ram'[y] == ram[y]
  }

  lemma WriteDoneFrame(f: Hole, ram: seq<Byte>, buf: seq<Byte>, n: int, ram': seq<Byte>, m: Mem, d: nat, e: RW)
    requires WriteDone(f, ram, buf, n, ram', m, d, e)
    ensures OnlyTargetsChanged(f, ram, ram', m, d, e)
  {
    hide GoesTo, MappedBytes;
  }

  /** All bytes of the request are mapped, to different guest bytes. */
  ghost predicate OneToOne(f: Hole, m: Mem, d: nat, e: RW) {
    && (forall j :: 0 <= j < e.size ==> HasFrame(Src(m, d, e.remote, j)))
    && (forall i, j, y :: GoesTo(f, m, d, e, i, y) && GoesTo(f, m, d, e, j, y) ==> i == j)
  }

  lemma {:induction false} AllMapped(m: Mem, d: nat, remote: nat, n: nat)
    requires forall j :: 0 <= j < n ==> HasFrame(Src(m, d, remote, j))
    ensures MappedBytes(m, d, remote, n) == n
  {
    hide Src, HasFrame;
    if n > 0 { AllMapped(m, d, remote, n - 1); }
  }

  /** A read after a write of the same range, between any two local buffers. */
  lemma ReadBack(f: Hole, ram: seq<Byte>, ram': seq<Byte>, from: seq<Byte>, to: seq<Byte>, b: seq<Byte>,
                 n: int, n': int, m: Mem, d: nat, e: RW, e': RW)
    requires e.remote == e'.remote && e.size == e'.size && OneToOne(f, m, d, e)
    requires WriteDone(f, ram, from, n, ram', m, d, e) && ReadDone(f, ram', to, n', b, m, d, e')
    ensures n == e.size && n' == e.size && e.local + e.size <= |from| && e'.local + e.size <= |to|
    ensures b[e'.local..e'.local + e.size] == from[e.local..e.local + e.size]
  {
    hide Src, MappedBytes, Remap;
    AllMapped(m, d, e.remote, e.size);
    var got, sent := b[e'.local..e'.local + e.size], from[e.local..e.local + e.size];
    forall j | 0 <= j < e.size ensures got[j] == sent[j] {
      var y := Remap(f, Src(m, d, e.remote, j).address);
      assert GoesTo(f, m, d, e, j, y);
      assert ByteRead(f, ram', to, b, m, d, e', j);
    }
  }

  /** The outcome of writing `from` at e and reading it back at e'. */
  ghost predicate CameBack(f: Hole, ram: seq<Byte>, from: seq<Byte>, to: seq<Byte>, cs: seq<RW>, cs': seq<RW>,
                           m: Mem, d: nat, e: RW, e': RW)
  {
    && AllProper(f, |from|, |ram|, cs) && AllProper(f, |to|, |ram|, cs')
    && e.local + e.size <= |from| && e'.local + e.size <= |to|
    && var (n, ram') := WriteAll(f, ram, from, cs);
    var (n', b) := ReadAll(f, ram', to, cs');
    && n == e.size && n' == e.size
    && b[e'.local..e'.local + e.size] == from[e.local..e.local + e.size]
    && OnlyTargetsChanged(f, ram, ram', m, d, e)
  }

  lemma WalkRoundTrip(f: Hole, ram: seq<Byte>, from: seq<Byte>, to: seq<Byte>, m: Mem, d: nat, e: RW, e': RW)
    requires e.remote == e'.remote && e.size == e'.size
    requires Readable(f, |from|, |ram|, m, d, e) && Readable(f, |to|, |ram|, m, d, e') && OneToOne(f, m, d, e)
    ensures CameBack(f, ram, from, to, WalkChunks(m, d, e), WalkChunks(m, d, e'), m, d, e, e')
  {
    hide *;
    WriteWalkChunks(f, ram, from, m, d, e);
    var (n, ram') := WriteAll(f, ram, from, WalkChunks(m, d, e));
    ReadWalkChunks(f, ram', to, m, d, e');
    var (n', b) := ReadAll(f, ram', to, WalkChunks(m, d, e'));
    ReadBack(f, ram, ram', from, to, b, n, n', m, d, e, e');
    WriteDoneFrame(f, ram, from, n, ram', m, d, e);
    CameBackIf(f, ram, from, to, WalkChunks(m, d, e), WalkChunks(m, d, e'), m, d, e, e');
  }

  lemma CameBackIf(f: Hole, ram: seq<Byte>, from: seq<Byte>, to: seq<Byte>, cs: seq<RW>, cs': seq<RW>,
                   m: Mem, d: nat, e: RW, e': RW)
    requires AllProper(f, |from|, |ram|, cs) && AllProper(f, |to|, |ram|, cs')
    requires var (n, ram') := WriteAll(f, ram, from, cs);
             var (n', b) := ReadAll(f, ram', to, cs');
             && OnlyTargetsChanged(f, ram, ram', m, d, e) && n == e.size && n' == e.size
             && e.local + e.size <= |from| && e'.local + e.size <= |to|
             && b[e'.local..e'.local + e.size] == from[e.local..e.local + e.size]
    ensures CameBack(f, ram, from, to, cs, cs', m, d, e, e')
  {
    hide WriteAll, ReadAll, OnlyTargetsChanged, AllProper;
  }

  /** VMemWrite, and at any time through any cache VMemRead of the same range into any buffer: the
      written bytes come back, both calls report the full size, and no other guest byte has changed. */
  lemma RoundTrip(w: World, m: Mem, limit: nat, s: Tlb, tick: nat, s2: Tlb, later: nat, dirBase: nat,
                  f: Hole, ram: seq<Byte>, from: seq<Byte>, to: seq<Byte>, e: RW, e': RW)
    requires Settled(w, limit) && Inv(w, limit, s, tick) && Inv(w, limit, s2, later)
    requires RangeFrozen(w, m, MaskDirBase(dirBase), e.remote, e.size)
    requires e.remote == e'.remote && e.size == e'.size
    requires Readable(f, |from|, |ram|, m, MaskDirBase(dirBase), e) && Fits(|to|, |ram|, e')
    requires OneToOne(f, m, MaskDirBase(dirBase), e)
    ensures var cs, cs' := Fill(w, tick, s, dirBase, e).0, Fill(w, later, s2, dirBase, e').0;
            CameBack(f, ram, from, to, cs, cs', m, MaskDirBase(dirBase), e, e')
  {
    var d := MaskDirBase(dirBase);
    assert Readable(f, |to|, |ram|, m, d, e') && HasFrame(Src(m, d, e.remote, 0)) && e.size >= 1;
    hide *;
    FillIsWalk(w, m, limit, s, tick, dirBase, e);
    FillIsWalk(w, m, limit, s2, later, dirBase, e');
    WalkRoundTrip(f, ram, from, to, m, d, e, e');
  }
}
