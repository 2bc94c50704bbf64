/** Virtual reads and writes against a byte-by-byte specification: each byte of the range is
    translated on its own by the uncached walk. */
module VMemBytes {
  import opened Bits
  import opened GuestMemory
  import opened PageWalk
  import opened TlbModel
  import opened TlbRuns
  import opened Splitter
  import opened PhysMem
  import opened VMem

  /** Where byte `j` of the range lies, by the walk of its own address. */
  function Src(m: Mem, d: nat, remote: nat, j: nat): Outcome {
    Walk(m, d, Wrap64(remote + j))
  }

  /** The address has a translation to a page other than page 0. */
  predicate HasFrame(o: Outcome) {
    o.Phys? && PageOf(o.address) != 0
  }

  // ---- Inside one piece ----

  lemma WrapInPage(x: nat, i: nat)
    requires OffsetOf(Wrap64(x)) + i < 0x1000
    ensures Wrap64(x + i) == Wrap64(x) + i
  {
    var q := x / TWO_64;
    var r := Wrap64(x);
    assert r / 0x1000 < 0x10_0000_0000_0000;
    assert r + i == PageOf(r) + (OffsetOf(r) + i);
    assert x + i == q * 0x1_0000_0000_0000_0000 + (r + i);
  }

  lemma SamePageParts(a: nat, i: nat)
    requires OffsetOf(a) + i < 0x1000
    ensures PageOf(a + i) == PageOf(a) && OffsetOf(a + i) == OffsetOf(a) + i
  {
    assert a + i == PageOf(a) + (OffsetOf(a) + i);
  }

  /** Neighbours in a page translate to neighbours in a page, or both fault. */
  lemma WalkInPage(m: Mem, d: nat, a: nat, i: nat)
    requires OffsetOf(a) + i < 0x1000
    ensures match Walk(m, d, a)
            case Fault => Walk(m, d, a + i).Fault?
            case Phys(p) => Walk(m, d, a + i) == Phys(p + i) && OffsetOf(p) == OffsetOf(a) && OffsetOf(p) + i < 0x1000
  {
    hide WalkAcross;
    SamePageParts(a, i);
    WalkOfPage([m, m, m, m], d, a);
    WalkOfPage([m, m, m, m], d, a + i);
    var page := WalkAcross([m, m, m, m], d, PageOf(a));
    if page.Phys? { OffsetOfSum(page.address, OffsetOf(a)); }
  }

  /** A byte of piece k lies where the start of the piece lies, moved by its distance. */
  lemma PieceByte(m: Mem, d: nat, remote: nat, len: nat, k: nat, j: nat)
    requires len >= 1 && k < |Pieces(remote, len)| && Holds(Pieces(remote, len)[k], j)
    ensures var off := Pieces(remote, len)[k].off;
            && off <= j
            && match Src(m, d, remote, off)
               case Fault => Src(m, d, remote, j).Fault?
               case Phys(p) =>
                 && Src(m, d, remote, j) == Phys(p + (j - off)) && OffsetOf(p) + (j - off) < 0x1000
                 && (k > 0 ==> p % 0x1000 == 0)
  {
    hide Walk, Wrap64, Pieces;
    PiecesTile(remote, len, k);
    var off := Pieces(remote, len)[k].off;
    WrapInPage(remote + off, j - off);
    WalkInPage(m, d, Wrap64(remote + off), j - off);
  }

  lemma PieceFrame(m: Mem, d: nat, remote: nat, len: nat, k: nat, j: nat)
    requires len >= 1 && k < |Pieces(remote, len)| && Holds(Pieces(remote, len)[k], j)
    ensures var o := Src(m, d, remote, Pieces(remote, len)[k].off);
            && (HasFrame(Src(m, d, remote, j)) <==> HasFrame(o))
            && (k > 0 ==> (HasFrame(o) <==> o.Value() != 0))
  {
    hide Src, Pieces;
    PieceByte(m, d, remote, len, k, j);
    var off := Pieces(remote, len)[k].off;
    var o := Src(m, d, remote, off);
    if o.Phys? { SamePageParts(o.address, j - off); }
  }

  // ---- The compacted list ----

  /** Every piece has the value of the uncached walk at its start. */
  predicate PieceValues(m: Mem, d: nat, remote: nat, ps: seq<Piece>, vs: seq<nat>) {
    |vs| == |ps| && forall k :: 0 <= k < |ps| ==> vs[k] == Src(m, d, remote, ps[k].off).Value()
  }

  /** The same for every piece but the first. */
  predicate TailValues(m: Mem, d: nat, remote: nat, ps: seq<Piece>, vs: seq<nat>) {
    |vs| == |ps| && forall k :: 1 <= k < |ps| ==> vs[k] == Src(m, d, remote, ps[k].off).Value()
  }

  /** Each chunk is a kept piece. */
  lemma {:induction false} ChunkOrigin(local: nat, ps: seq<Piece>, vs: seq<nat>, n: nat, i: nat) returns (k: nat)
    requires |ps| == |vs| && 1 <= n <= |ps| && ps[0].off == 0
    requires i < |Chunks(local, ps[..n], vs[..n])|
    ensures k < n && IsKept(vs, k)
    ensures Chunks(local, ps[..n], vs[..n])[i] == RW(local + ps[k].off, vs[k], ps[k].size)
    ensures i > 0 ==> k > 0
    decreases n
  {
    if n == 1 {
      k := 0;
    } else {
      assert vs[..n - 1] + [vs[n - 1]] == vs[..n];
      ChunksNext(local, ps, n - 1, vs[..n - 1], vs[n - 1]);
      if i < |Chunks(local, ps[..n - 1], vs[..n - 1])| {
        k := ChunkOrigin(local, ps, vs, n - 1, i);
      } else {
        k := n - 1;
      }
    }
  }

  predicate Ordered(ps: seq<Piece>) {
    forall i, k :: 0 <= i < k < |ps| ==> ps[i].off + ps[i].size <= ps[k].off
  }

  lemma {:induction false} PiecesOrdered(remote: nat, len: nat, i: nat, k: nat)
    requires len >= 1 && i < k < |Pieces(remote, len)|
    ensures Pieces(remote, len)[i].off + Pieces(remote, len)[i].size <= Pieces(remote, len)[k].off
    decreases k
  {
    PiecesTile(remote, len, k);
    if i < k - 1 {
      PiecesTile(remote, len, k - 1);
      PiecesOrdered(remote, len, i, k - 1);
    }
  }

  lemma {:induction false} ChunksAscending(local: nat, ps: seq<Piece>, vs: seq<nat>, n: nat)
    requires |ps| == |vs| && 1 <= n <= |ps| && ps[0].off == 0 && Ordered(ps)
    ensures Ascending(Chunks(local, ps[..n], vs[..n]))
    decreases n
  {
    if n > 1 {
      var front := Chunks(local, ps[..n - 1], vs[..n - 1]);
      ChunksAscending(local, ps, vs, n - 1);
      assert vs[..n - 1] + [vs[n - 1]] == vs[..n];
      ChunksNext(local, ps, n - 1, vs[..n - 1], vs[n - 1]);
      forall i | 0 <= i < |front| ensures front[i].local + front[i].size <= local + ps[n - 1].off {
        var k := ChunkOrigin(local, ps, vs, n - 1, i);
      }
    }
  }

  // ---- Reading ----

  /** The bytes that are to be moved are in range: before the last byte of guest RAM. */
  ghost predicate BytesInRange(f: Hole, ramSize: nat, m: Mem, d: nat, remote: nat, len: nat) {
    forall j :: 0 <= j < len && HasFrame(Src(m, d, remote, j)) ==>
      Remap(f, Src(m, d, remote, j).address) + 1 < ramSize
  }

  lemma ChunkInRange(f: Hole, ramSize: nat, m: Mem, d: nat, e: RW, k: nat)
    requires 1 <= e.size && Min(e.size, 0x1000) <= ramSize < TWO_64 && k < |Pieces(e.remote, e.size)|
    requires BytesInRange(f, ramSize, m, d, e.remote, e.size)
    requires HasFrame(Src(m, d, e.remote, Pieces(e.remote, e.size)[k].off))
    ensures var p := Pieces(e.remote, e.size)[k];
            InRange(f, ramSize, RW(e.local + p.off, Src(m, d, e.remote, p.off).address, p.size))
  {
    var p := Pieces(e.remote, e.size)[k];
    PiecesTile(e.remote, e.size, k);
    var last := p.off + p.size - 1;
    PieceByte(m, d, e.remote, e.size, k, last);
    PieceFrame(m, d, e.remote, e.size, k, last);
    hide Src, Pieces;
    var a := Src(m, d, e.remote, p.off).address;
    RemapLinear(f, a, p.size - 1);
    AcceptsExactly(ramSize, Remap(f, a), p.size);
  }

  /** What a request splits into when every piece gets its walk. */
  function WalkChunks(m: Mem, d: nat, e: RW): seq<RW> {
    var ps := Pieces(e.remote, e.size);
    Chunks(e.local, ps, PieceWalks(m, d, e.remote, ps))
  }

  function PieceWalks(m: Mem, d: nat, remote: nat, ps: seq<Piece>): (vs: seq<nat>)
    ensures |vs| == |ps|
    ensures PieceValues(m, d, remote, ps, vs)
  {
    seq(|ps|, k requires 0 <= k < |ps| => Src(m, d, remote, ps[k].off).Value())
  }

  /** The first page is mapped, and what is mapped is in range. */
  ghost predicate Readable(f: Hole, bufSize: nat, ramSize: nat, m: Mem, d: nat, e: RW) {
    && Fits(bufSize, ramSize, e) && e.size >= 1
    && HasFrame(Src(m, d, e.remote, 0))
    && BytesInRange(f, ramSize, m, d, e.remote, e.size)
  }

  lemma KeptHasFrame(m: Mem, d: nat, remote: nat, len: nat, vs: seq<nat>, k: nat)
    requires len >= 1 && k < |Pieces(remote, len)| && (k > 0 || HasFrame(Src(m, d, remote, 0)))
    requires TailValues(m, d, remote, Pieces(remote, len), vs)
    ensures IsKept(vs, k) <==> HasFrame(Src(m, d, remote, Pieces(remote, len)[k].off))
  {
    PiecesTile(remote, len, k);
    PieceFrame(m, d, remote, len, k, Pieces(remote, len)[k].off);
    hide Src;
  }

  lemma SplitAscending(e: RW, vs: seq<nat>)
    requires e.size >= 1 && |vs| == |Pieces(e.remote, e.size)|
    ensures Ascending(Chunks(e.local, Pieces(e.remote, e.size), vs))
  {
    var ps := Pieces(e.remote, e.size);
    forall i, k | 0 <= i < k < |ps| ensures ps[i].off + ps[i].size <= ps[k].off {
      PiecesOrdered(e.remote, e.size, i, k);
    }
    assert ps[..|ps|] == ps && vs[..|ps|] == vs;
    ChunksAscending(e.local, ps, vs, |ps|);
  }

  lemma WalkChunksOk(f: Hole, bufSize: nat, ramSize: nat, m: Mem, d: nat, e: RW)
    requires Readable(f, bufSize, ramSize, m, d, e)
    ensures AllProper(f, bufSize, ramSize, WalkChunks(m, d, e))
    ensures AllInRange(f, ramSize, WalkChunks(m, d, e))
    ensures Ascending(WalkChunks(m, d, e))
  {
    hide Src;
    var ps := Pieces(e.remote, e.size);
    var vs := PieceWalks(m, d, e.remote, ps);
    var n := |ps|;
    assert ps[..n] == ps && vs[..n] == vs;
    ChunksProper(f, e, vs, bufSize, ramSize);
    SplitAscending(e, vs);
    forall i | 0 <= i < |WalkChunks(m, d, e)| ensures InRange(f, ramSize, WalkChunks(m, d, e)[i]) {
      var k := ChunkOrigin(e.local, ps, vs, n, i);
      KeptHasFrame(m, d, e.remote, e.size, vs, k);
      ChunkInRange(f, ramSize, m, d, e, k);
    }
  }

  /** Byte j after the read: the guest byte its own walk leads to, or what was there before. */
  predicate ByteRead(f: Hole, ram: seq<Byte>, buf: seq<Byte>, b: seq<Byte>, m: Mem, d: nat, e: RW, j: nat)
    requires |b| == |buf| && e.local + j < |buf|
  {
    var o := Src(m, d, e.remote, j);
    if HasFrame(o) then Remap(f, o.address) < |ram| && b[e.local + j] == ram[Remap(f, o.address)]
    else b[e.local + j] == buf[e.local + j]
  }

  lemma ByteInPiece(f: Hole, m: Mem, d: nat, e: RW, k: nat, j: nat)
    requires e.size >= 1 && k < |Pieces(e.remote, e.size)| && Holds(Pieces(e.remote, e.size)[k], j)
    requires HasFrame(Src(m, d, e.remote, j))
    ensures var p := Pieces(e.remote, e.size)[k];
            && HasFrame(Src(m, d, e.remote, p.off))
            && Remap(f, Src(m, d, e.remote, j).address) == Remap(f, Src(m, d, e.remote, p.off).address) + (j - p.off)
  {
    PieceFrame(m, d, e.remote, e.size, k, j);
    PieceByte(m, d, e.remote, e.size, k, j);
    hide Src, Pieces, Remap;
    var p := Pieces(e.remote, e.size)[k];
    RemapLinear(f, Src(m, d, e.remote, p.off).address, j - p.off);
  }

  /** The transfer that moves byte j, and that it moves it to or from the right place. */
  lemma MappedByteChunk(f: Hole, m: Mem, d: nat, e: RW, j: nat) returns (c: nat)
    requires e.size >= 1 && HasFrame(Src(m, d, e.remote, 0))
    requires j < e.size && HasFrame(Src(m, d, e.remote, j))
    ensures c < |WalkChunks(m, d, e)|
    ensures var t := WalkChunks(m, d, e)[c];
            && InChunk(t, e.local + j)
            && Remap(f, t.remote) + (e.local + j - t.local) == Remap(f, Src(m, d, e.remote, j).address)
  {
    hide Src, Remap;
    var ps := Pieces(e.remote, e.size);
    var vs := PieceWalks(m, d, e.remote, ps);
    var k := PieceOf(e.remote, e.size, j);
    OnePieceHolds(e.remote, e.size, j);
    ByteInPiece(f, m, d, e, k, j);
    KeptHasFrame(m, d, e.remote, e.size, vs, k);
    PiecesTile(e.remote, e.size, 0);
    ChunksAreKeptPieces(e.local, ps, vs);
    hide Pieces, PieceOf, KeptCount, Chunks;
    c := KeptCount(vs, k);
  }

  lemma MappedByteRead(f: Hole, ram: seq<Byte>, buf: seq<Byte>, m: Mem, d: nat, e: RW, j: nat)
    requires Readable(f, |buf|, |ram|, m, d, e) && j < e.size && HasFrame(Src(m, d, e.remote, j))
    ensures AllProper(f, |buf|, |ram|, WalkChunks(m, d, e))
    ensures ByteRead(f, ram, buf, ReadAll(f, ram, buf, WalkChunks(m, d, e)).1, m, d, e, j)
  {
    hide Src, Remap, WalkChunks, ReadAll;
    WalkChunksOk(f, |buf|, |ram|, m, d, e);
    var c := MappedByteChunk(f, m, d, e, j);
    ReadAllBytes(f, ram, buf, WalkChunks(m, d, e), c, e.local + j);
  }

  lemma UnmappedByteKept(f: Hole, ram: seq<Byte>, buf: seq<Byte>, m: Mem, d: nat, e: RW, x: nat)
    requires Readable(f, |buf|, |ram|, m, d, e) && x < |buf|
    requires x < e.local || e.local + e.size <= x || !HasFrame(Src(m, d, e.remote, x - e.local))
    ensures AllProper(f, |buf|, |ram|, WalkChunks(m, d, e))
    ensures ReadAll(f, ram, buf, WalkChunks(m, d, e)).1[x] == buf[x]
  {
    hide Src;
    WalkChunksOk(f, |buf|, |ram|, m, d, e);
    var ps := Pieces(e.remote, e.size);
    var vs := PieceWalks(m, d, e.remote, ps);
    var cs := WalkChunks(m, d, e);
    forall i | 0 <= i < |cs| ensures !InChunk(cs[i], x) {
      assert ps[..|ps|] == ps && vs[..|ps|] == vs;
      var k := ChunkOrigin(e.local, ps, vs, |ps|, i);
      KeptHasFrame(m, d, e.remote, e.size, vs, k);
      PiecesTile(e.remote, e.size, k);
      if InChunk(cs[i], x) {
        PieceFrame(m, d, e.remote, e.size, k, x - e.local);
      }
    }
    ReadAllFrame(f, ram, buf, cs, x);
  }

  // ---- The count returned ----

  /** How many of the first n bytes are mapped. */
  function MappedBytes(m: Mem, d: nat, remote: nat, n: nat): nat {
    if n == 0 then 0
    else MappedBytes(m, d, remote, n - 1) + if HasFrame(Src(m, d, remote, n - 1)) then 1 else 0
  }

  lemma {:induction false} MappedRun(m: Mem, d: nat, remote: nat, n: nat, size: nat, mapped: bool)
    requires forall j :: n <= j < n + size ==> HasFrame(Src(m, d, remote, j)) == mapped
    ensures MappedBytes(m, d, remote, n + size) == MappedBytes(m, d, remote, n) + if mapped then size else 0
    decreases size
  {
    hide Src, HasFrame;
    if size > 0 { MappedRun(m, d, remote, n, size - 1, mapped); }
  }

  lemma {:induction false} TotalOfConcat(a: seq<RW>, b: seq<RW>)
    ensures TotalSize(a + b) == TotalSize(a) + TotalSize(b)
    decreases |a|
  {
    if a == [] {
      assert a + b == b;
    } else {
      assert (a + b)[1..] == a[1..] + b;
      TotalOfConcat(a[1..], b);
    }
  }

  lemma PieceMapped(m: Mem, d: nat, e: RW, k: nat)
    requires e.size >= 1 && k < |Pieces(e.remote, e.size)|
    ensures var p := Pieces(e.remote, e.size)[k];
            MappedBytes(m, d, e.remote, p.off + p.size)
              == MappedBytes(m, d, e.remote, p.off) + if HasFrame(Src(m, d, e.remote, p.off)) then p.size else 0
  {
    hide Src, Pieces, HasFrame;
    var p := Pieces(e.remote, e.size)[k];
    forall j | p.off <= j < p.off + p.size
      ensures HasFrame(Src(m, d, e.remote, j)) == HasFrame(Src(m, d, e.remote, p.off))
    {
      PieceFrame(m, d, e.remote, e.size, k, j);
    }
    MappedRun(m, d, e.remote, p.off, p.size, HasFrame(Src(m, d, e.remote, p.off)));
  }

  /** Bytes moved although they are not mapped: the first piece is transferred in any case. */
  function Stray(m: Mem, d: nat, e: RW): nat {
    if HasFrame(Src(m, d, e.remote, 0)) then 0 else FirstSize(e.remote, e.size)
  }

  lemma {:induction false} TotalIsMapped(m: Mem, d: nat, e: RW, vs: seq<nat>, n: nat)
    requires e.size >= 1 && 1 <= n <= |Pieces(e.remote, e.size)|
    requires TailValues(m, d, e.remote, Pieces(e.remote, e.size), vs)
    ensures var ps := Pieces(e.remote, e.size);
            TotalSize(Chunks(e.local, ps[..n], vs[..n]))
              == MappedBytes(m, d, e.remote, ps[n - 1].off + ps[n - 1].size) + Stray(m, d, e)
    decreases n
  {
    hide Src, HasFrame, MappedBytes, Chunks;
    var ps := Pieces(e.remote, e.size);
    PiecesTile(e.remote, e.size, n - 1);
    PieceMapped(m, d, e, n - 1);
    if n == 1 {
      ChunksFirst(e.local, ps, vs[0]);
      assert vs[..1] == [vs[0]];
      NoneMapped(m, d, e.remote);
    } else {
      KeptHasFrame(m, d, e.remote, e.size, vs, n - 1);
      hide Pieces;
      TotalIsMapped(m, d, e, vs, n - 1);
      assert vs[..n - 1] + [vs[n - 1]] == vs[..n];
      ChunksNext(e.local, ps, n - 1, vs[..n - 1], vs[n - 1]);
      TotalOfConcat(Chunks(e.local, ps[..n - 1], vs[..n - 1]),
                    if vs[n - 1] != 0 then [RW(e.local + ps[n - 1].off, vs[n - 1], ps[n - 1].size)] else []);
    }
  }

  lemma NoneMapped(m: Mem, d: nat, remote: nat)
    ensures MappedBytes(m, d, remote, 0) == 0
  {
  }

  /** The transfers move the mapped bytes, and the first page even if it is not mapped. */
  lemma ChunksTotal(m: Mem, d: nat, e: RW, vs: seq<nat>)
    requires e.size >= 1 && TailValues(m, d, e.remote, Pieces(e.remote, e.size), vs)
    ensures TotalSize(Chunks(e.local, Pieces(e.remote, e.size), vs))
         == MappedBytes(m, d, e.remote, e.size) + Stray(m, d, e)
  {
    hide Src, HasFrame, MappedBytes, Chunks;
    var ps := Pieces(e.remote, e.size);
    TotalIsMapped(m, d, e, vs, |ps|);
    PiecesTile(e.remote, e.size, |ps| - 1);
    assert ps[..|ps|] == ps && vs[..|ps|] == vs;
  }

  lemma WalkChunksTotal(m: Mem, d: nat, e: RW)
    requires e.size >= 1 && HasFrame(Src(m, d, e.remote, 0))
    ensures TotalSize(WalkChunks(m, d, e)) == MappedBytes(m, d, e.remote, e.size)
  {
    hide Src, HasFrame, MappedBytes, Chunks;
    ChunksTotal(m, d, e, PieceWalks(m, d, e.remote, Pieces(e.remote, e.size)));
  }

  // ---- Through the cache ----

  /** The table entries on the path of every address of the range stay what they are in `m`. */
  ghost predicate RangeFrozen(w: World, m: Mem, d: nat, remote: nat, len: nat) {
    forall j :: 0 <= j < len ==> FrozenAt(w, m, d, remote, j)
  }

  ghost predicate FrozenAt(w: World, m: Mem, d: nat, remote: nat, j: nat) {
    Frozen(w, m, d, Wrap64(remote + j))
  }

  /** What the cache delivers on a frozen path: the walk, except that an unaligned address may
      get something on page 0 in place of a fault. */
  predicate NearWalk(v: nat, o: Outcome, a: nat) {
    PageOf(v) == PageOf(o.Value()) && (o.Phys? || OffsetOf(a) == 0 ==> v == o.Value())
  }

  predicate NearWalks(m: Mem, d: nat, remote: nat, ps: seq<Piece>, vs: seq<nat>) {
    && |vs| == |ps|
    && forall k :: 0 <= k < |ps| ==> NearWalk(vs[k], Src(m, d, remote, ps[k].off), Wrap64(remote + ps[k].off))
  }

  lemma {:induction false} TranslateAllWalks(w: World, m: Mem, limit: nat, s: Tlb, tick: nat, dirBase: nat,
                                             remote: nat, ps: seq<Piece>)
    requires Settled(w, limit) && Inv(w, limit, s, tick)
    requires forall k :: 0 <= k < |ps| ==> FrozenAt(w, m, MaskDirBase(dirBase), remote, ps[k].off)
    ensures var (vs, s') := TranslateAll(w, tick, s, dirBase, remote, ps);
            NearWalks(m, MaskDirBase(dirBase), remote, ps, vs) && Inv(w, limit, s', tick + 5 * |ps|)
    decreases |ps|
  {
    hide Translate, Walk, Inv, Frozen, NearWalk;
    if ps != [] {
      var n := |ps| - 1;
      TranslateAllWalks(w, m, limit, s, tick, dirBase, remote, ps[..n]);
      var s1 := TranslateAll(w, tick, s, dirBase, remote, ps[..n]).1;
      assert FrozenAt(w, m, MaskDirBase(dirBase), remote, ps[n].off);
      TranslateWalk(w, m, limit, s1, tick + 5 * n, dirBase, Wrap64(remote + ps[n].off));
    }
  }

  lemma TranslateWalk(w: World, m: Mem, limit: nat, s: Tlb, tick: nat, dirBase: nat, a: nat)
    requires Settled(w, limit) && Inv(w, limit, s, tick) && Frozen(w, m, MaskDirBase(dirBase), a)
    ensures var (v, s') := Translate(w, tick, s, dirBase, a);
            NearWalk(v, Walk(m, MaskDirBase(dirBase), a), a) && Inv(w, limit, s', tick + 5)
  {
    hide Translate, Walk, Inv, Frozen;
    CacheTransparency(w, m, limit, s, tick, dirBase, a);
    var _ := TranslateOk(w, limit, s, tick, dirBase, a);
    InvLater(w, limit, Translate(w, tick, s, dirBase, a).1, tick + 4, tick + 5);
  }

  /** Whatever the cache holds, the split through it uses the uncached walk for every piece, save
      perhaps the first if its page is not mapped: that one then gets something on page 0. */
  lemma FillIsNearWalk(w: World, m: Mem, limit: nat, s: Tlb, tick: nat, dirBase: nat, e: RW) returns (vs: seq<nat>)
    requires Settled(w, limit) && Inv(w, limit, s, tick) && e.size >= 1
    requires RangeFrozen(w, m, MaskDirBase(dirBase), e.remote, e.size)
    ensures var d, ps := MaskDirBase(dirBase), Pieces(e.remote, e.size);
            var (cs, s') := Fill(w, tick, s, dirBase, e);
            && |vs| == |ps| && TailValues(m, d, e.remote, ps, vs) && cs == Chunks(e.local, ps, vs)
            && (if HasFrame(Src(m, d, e.remote, 0)) then PieceValues(m, d, e.remote, ps, vs) else PageOf(vs[0]) == 0)
            && Inv(w, limit, s', tick + 5 * |ps|)
  {
    hide *;
    var d, ps := MaskDirBase(dirBase), Pieces(e.remote, e.size);
    vs := TranslateAll(w, tick, s, dirBase, e.remote, ps).0;
    PiecesFrozen(w, m, d, e.remote, e.size);
    TranslateAllWalks(w, m, limit, s, tick, dirBase, e.remote, ps);
    NearIsWalk(m, d, e.remote, e.size, vs);
    FillIs(w, tick, s, dirBase, e);
  }

  lemma FillIs(w: World, tick: nat, s: Tlb, dirBase: nat, e: RW)
    ensures var ps := Pieces(e.remote, e.size);
            var (vs, s') := TranslateAll(w, tick, s, dirBase, e.remote, ps);
            Fill(w, tick, s, dirBase, e) == (Chunks(e.local, ps, vs), s')
  {
    hide TranslateAll, Chunks, Pieces;
  }

  lemma PiecesFrozen(w: World, m: Mem, d: nat, remote: nat, len: nat)
    requires len >= 1 && RangeFrozen(w, m, d, remote, len)
    ensures forall k :: 0 <= k < |Pieces(remote, len)| ==> FrozenAt(w, m, d, remote, Pieces(remote, len)[k].off)
  {
    hide FrozenAt, Pieces;
    forall k | 0 <= k < |Pieces(remote, len)| ensures FrozenAt(w, m, d, remote, Pieces(remote, len)[k].off) {
      PiecesTile(remote, len, k);
    }
  }

  lemma NearIsWalk(m: Mem, d: nat, remote: nat, len: nat, vs: seq<nat>)
    requires len >= 1 && NearWalks(m, d, remote, Pieces(remote, len), vs)
    ensures var ps := Pieces(remote, len);
            && |vs| == |ps| && TailValues(m, d, remote, ps, vs)
            && (if HasFrame(Src(m, d, remote, 0)) then PieceValues(m, d, remote, ps, vs) else PageOf(vs[0]) == 0)
  {
    hide Src, Pieces;
    var ps := Pieces(remote, len);
    forall k | 0 <= k < |ps|
      ensures k == 0 ==> ps[k].off == 0
      ensures k > 0 ==> OffsetOf(Wrap64(remote + ps[k].off)) == 0
    {
      PiecesTile(remote, len, k);
    }
    assert NearWalk(vs[0], Src(m, d, remote, ps[0].off), Wrap64(remote + ps[0].off));
  }

  /** With the paths of the range frozen and its first page mapped, the split through the cache
      is the split by uncached walks. */
  lemma FillIsWalk(w: World, m: Mem, limit: nat, s: Tlb, tick: nat, dirBase: nat, e: RW)
    requires Settled(w, limit) && Inv(w, limit, s, tick) && e.size >= 1
    requires RangeFrozen(w, m, MaskDirBase(dirBase), e.remote, e.size)
    requires HasFrame(Src(m, MaskDirBase(dirBase), e.remote, 0))
    ensures var (cs, s') := Fill(w, tick, s, dirBase, e);
            cs == WalkChunks(m, MaskDirBase(dirBase), e) &&
            Inv(w, limit, s', tick + 5 * |Pieces(e.remote, e.size)|)
  {
    hide Fill, Walk, Inv, Frozen, Chunks, Pieces;
    var vs := FillIsNearWalk(w, m, limit, s, tick, dirBase, e);
    assert vs == PieceWalks(m, MaskDirBase(dirBase), e.remote, Pieces(e.remote, e.size));
  }

  /** Result and local memory after a read: the number of mapped bytes, every mapped byte from
      where its own uncached walk leads, and nothing else in local memory changed. */
  ghost predicate ReadDone(f: Hole, ram: seq<Byte>, buf: seq<Byte>, n: int, b: seq<Byte>, m: Mem, d: nat, e: RW) {
    && |b| == |buf| && e.local + e.size <= |buf|
    && n == MappedBytes(m, d, e.remote, e.size)
    && (forall j :: 0 <= j < e.size ==> ByteRead(f, ram, buf, b, m, d, e, j))
    && (forall x :: 0 <= x < |buf| && !(e.local <= x < e.local + e.size) ==> b[x] == buf[x])
  }

  lemma ReadWalkChunks(f: Hole, ram: seq<Byte>, buf: seq<Byte>, m: Mem, d: nat, e: RW)
    requires Readable(f, |buf|, |ram|, m, d, e)
    ensures AllProper(f, |buf|, |ram|, WalkChunks(m, d, e))
    ensures var (n, b) := ReadAll(f, ram, buf, WalkChunks(m, d, e)); ReadDone(f, ram, buf, n, b, m, d, e)
  {
    hide Src, HasFrame, WalkChunks, MappedBytes, ReadAll, Remap;
    WalkChunksOk(f, |buf|, |ram|, m, d, e);
    WalkChunksTotal(m, d, e);
    ReadAllTotal(f, ram, buf, WalkChunks(m, d, e));
    forall j | 0 <= j < e.size
      ensures ByteRead(f, ram, buf, ReadAll(f, ram, buf, WalkChunks(m, d, e)).1, m, d, e, j)
    {
      if HasFrame(Src(m, d, e.remote, j)) {
        MappedByteRead(f, ram, buf, m, d, e, j);
      } else {
        UnmappedByteKept(f, ram, buf, m, d, e, e.local + j);
      }
    }
    forall x | 0 <= x < |buf| && !(e.local <= x < e.local + e.size)
      ensures ReadAll(f, ram, buf, WalkChunks(m, d, e)).1[x] == buf[x]
    {
      UnmappedByteKept(f, ram, buf, m, d, e, x);
    }
  }

  /** What VMemRead does, in one statement about bytes, on frozen tables with the first page
      mapped and whatever the cache holds. */
  lemma ReadRefinesBytes(w: World, m: Mem, limit: nat, s: Tlb, tick: nat, dirBase: nat,
                         f: Hole, ram: seq<Byte>, buf: seq<Byte>, e: RW)
    requires Settled(w, limit) && Inv(w, limit, s, tick)
    requires RangeFrozen(w, m, MaskDirBase(dirBase), e.remote, e.size)
    requires Readable(f, |buf|, |ram|, m, MaskDirBase(dirBase), e)
    ensures var (cs, s') := Fill(w, tick, s, dirBase, e);
            AllProper(f, |buf|, |ram|, cs) && Inv(w, limit, s', tick + 5 * |Pieces(e.remote, e.size)|) &&
            var (n, b) := ReadAll(f, ram, buf, cs);
            ReadDone(f, ram, buf, n, b, m, MaskDirBase(dirBase), e)
  {
    hide Fill, WalkChunks, ReadAll, Inv, RangeFrozen, ReadDone, Src;
    FillIsWalk(w, m, limit, s, tick, dirBase, e);
    ReadWalkChunks(f, ram, buf, m, MaskDirBase(dirBase), e);
  }

  // ---- Exactly when this holds ----

  /** A mapped byte out of range puts the transfer that holds it out of range. */
  lemma OutOfRangeChunk(f: Hole, bufSize: nat, ramSize: nat, m: Mem, d: nat, e: RW)
    requires Fits(bufSize, ramSize, e) && e.size >= 1 && HasFrame(Src(m, d, e.remote, 0))
    requires !BytesInRange(f, ramSize, m, d, e.remote, e.size)
    ensures AllProper(f, bufSize, ramSize, WalkChunks(m, d, e))
    ensures !AllInRange(f, ramSize, WalkChunks(m, d, e))
  {
    ChunksProper(f, e, PieceWalks(m, d, e.remote, Pieces(e.remote, e.size)), bufSize, ramSize);
    var j :| 0 <= j < e.size && HasFrame(Src(m, d, e.remote, j))
             && Remap(f, Src(m, d, e.remote, j).address) + 1 >= ramSize;
    hide Src, Remap, Pieces, Chunks;
    var c := MappedByteChunk(f, m, d, e, j);
    hide WalkChunks;
    var t := WalkChunks(m, d, e)[c];
    AcceptsExactly(ramSize, Remap(f, t.remote), t.size);
  }

  /** With the first page unmapped the transfers still include it, so what they report is never
      the number of mapped bytes. */
  lemma StrayBytesCounted(f: Hole, bufSize: nat, ramSize: nat, m: Mem, d: nat, e: RW, vs: seq<nat>)
    requires Fits(bufSize, ramSize, e) && e.size >= 1 && !HasFrame(Src(m, d, e.remote, 0))
    requires TailValues(m, d, e.remote, Pieces(e.remote, e.size), vs)
    ensures AllProper(f, bufSize, ramSize, Chunks(e.local, Pieces(e.remote, e.size), vs))
    ensures TotalSize(Chunks(e.local, Pieces(e.remote, e.size), vs)) > MappedBytes(m, d, e.remote, e.size)
  {
    hide Src, HasFrame, MappedBytes, Chunks, Pieces;
    ChunksProper(f, e, vs, bufSize, ramSize);
    ChunksTotal(m, d, e, vs);
  }

  /** The transfers of a request move exactly its mapped bytes if and only if its first page is
      mapped and every mapped byte is in range. */
  lemma CountExactly(f: Hole, bufSize: nat, ramSize: nat, m: Mem, d: nat, e: RW, vs: seq<nat>)
    requires Fits(bufSize, ramSize, e) && e.size >= 1
    requires TailValues(m, d, e.remote, Pieces(e.remote, e.size), vs)
    requires HasFrame(Src(m, d, e.remote, 0)) ==> PieceValues(m, d, e.remote, Pieces(e.remote, e.size), vs)
    ensures var cs := Chunks(e.local, Pieces(e.remote, e.size), vs);
            && AllProper(f, bufSize, ramSize, cs)
            && (AllInRange(f, ramSize, cs) && TotalSize(cs) == MappedBytes(m, d, e.remote, e.size)
                <==> Readable(f, bufSize, ramSize, m, d, e))
  {
    hide Src, HasFrame, MappedBytes, Chunks, Pieces, BytesInRange, AllInRange, AllProper, TotalSize;
    if HasFrame(Src(m, d, e.remote, 0)) {
      assert vs == PieceWalks(m, d, e.remote, Pieces(e.remote, e.size));
      WalkChunksTotal(m, d, e);
      if BytesInRange(f, ramSize, m, d, e.remote, e.size) {
        WalkChunksOk(f, bufSize, ramSize, m, d, e);
      } else {
        OutOfRangeChunk(f, bufSize, ramSize, m, d, e);
      }
    } else {
      StrayBytesCounted(f, bufSize, ramSize, m, d, e, vs);
    }
  }

  /** VMemRead meets its byte-by-byte specification exactly when the first page of the range is
      mapped and no mapped byte lies at or past the last byte of guest RAM. */
  lemma ReadExactly(w: World, m: Mem, limit: nat, s: Tlb, tick: nat, dirBase: nat,
                    f: Hole, ram: seq<Byte>, buf: seq<Byte>, e: RW)
    requires Settled(w, limit) && Inv(w, limit, s, tick) && Fits(|buf|, |ram|, e) && e.size >= 1
    requires RangeFrozen(w, m, MaskDirBase(dirBase), e.remote, e.size)
    ensures var cs := Fill(w, tick, s, dirBase, e).0;
            AllProper(f, |buf|, |ram|, cs) &&
            var (n, b) := ReadAll(f, ram, buf, cs);
            ReadDone(f, ram, buf, n, b, m, MaskDirBase(dirBase), e)
            <==> Readable(f, |buf|, |ram|, m, MaskDirBase(dirBase), e)
  {
    var d := MaskDirBase(dirBase);
    hide Fill, Chunks, ReadAll, Inv, RangeFrozen, ByteRead, Src, Readable, Pieces, AllInRange, AllProper, MappedBytes,
         TotalSize, PieceValues, TailValues;
    var vs := FillIsNearWalk(w, m, limit, s, tick, dirBase, e);
    CountExactly(f, |buf|, |ram|, m, d, e, vs);
    ReadAllTotal(f, ram, buf, Chunks(e.local, Pieces(e.remote, e.size), vs));
    if Readable(f, |buf|, |ram|, m, d, e) {
      ReadRefinesBytes(w, m, limit, s, tick, dirBase, f, ram, buf, e);
    }
  }

  /** An empty request is one empty transfer. */
  lemma EmptyFill(w: World, tick: nat, s: Tlb, dirBase: nat, e: RW)
    requires e.size == 0
    ensures var (v, s') := Translate(w, tick, s, dirBase, Wrap64(e.remote));
            Fill(w, tick, s, dirBase, e) == ([RW(e.local, v, 0)], s')
  {
    hide Translate;
    var ps := Pieces(e.remote, e.size);
    assert ps == [Piece(0, 0)] && ps[..1] == ps;
    TranslateFirst(w, tick, s, dirBase, e.remote, ps);
    ChunksFirst(e.local, ps, Translate(w, tick, s, dirBase, Wrap64(e.remote)).0);
  }

  /** An empty read meets the specification exactly when its translation is in range. */
  lemma EmptyReadExactly(w: World, m: Mem, s: Tlb, tick: nat, dirBase: nat, f: Hole, ram: seq<Byte>, buf: seq<Byte>,
                         e: RW)
    requires Fits(|buf|, |ram|, e) && e.size == 0
    ensures var cs := Fill(w, tick, s, dirBase, e).0;
            AllProper(f, |buf|, |ram|, cs) &&
            var (n, b) := ReadAll(f, ram, buf, cs);
            ReadDone(f, ram, buf, n, b, m, MaskDirBase(dirBase), e)
            <==> Remap(f, Translate(w, tick, s, dirBase, Wrap64(e.remote)).0) < |ram|
  {
    EmptyFill(w, tick, s, dirBase, e);
    hide Translate, Fill, Remap;
    var c := RW(e.local, Translate(w, tick, s, dirBase, Wrap64(e.remote)).0, 0);
    ShortIsProper(f, |buf|, |ram|, c);
    EmptyTransfer(f, ram, buf, c);
  }

  lemma EmptyChunk(f: Hole, ram: seq<Byte>, buf: seq<Byte>, c: RW)
    requires Proper(f, |buf|, |ram|, c) && c.size == 0 && InRange(f, |ram|, c)
    ensures ReadChunk(f, ram, buf, c) == buf && WriteChunk(f, ram, buf, c) == ram
  {
    hide Remap, InRange;
  }

  lemma EmptyInRange(f: Hole, ramSize: nat, c: RW)
    requires c.size == 0 && ramSize < TWO_64
    ensures InRange(f, ramSize, c) <==> Remap(f, c.remote) < ramSize
  {
    hide Remap;
  }

  lemma EmptyTransfer(f: Hole, ram: seq<Byte>, buf: seq<Byte>, c: RW)
    requires Proper(f, |buf|, |ram|, c) && c.size == 0
    ensures AllProper(f, |buf|, |ram|, [c])
    ensures ReadAll(f, ram, buf, [c]) == (if Remap(f, c.remote) < |ram| then 0 else -1, buf)
    ensures WriteAll(f, ram, buf, [c]) == (if Remap(f, c.remote) < |ram| then 0 else -1, ram)
  {
    EmptyInRange(f, |ram|, c);
    hide Remap, InRange, Proper, ReadChunk, WriteChunk;
    if InRange(f, |ram|, c) {
      EmptyChunk(f, ram, buf, c);
      ReadHead(f, ram, buf, [c]);
      WriteHead(f, ram, buf, [c]);
    }
    ReadNothing(f, ram, buf, 0);
    WriteNothing(f, ram, buf, 0);
  }

  lemma {:induction false} SamePathItself(m: Mem, level: nat, entry: nat, a: nat)
    requires level < 4
    ensures SamePath(m, m, level, entry, a)
    decreases 4 - level
  {
    var next := After(level, a, ReadU64(m, entry));
    if next.Next? { SamePathItself(m, level + 1, next.entry, a); }
  }

  /** A guest whose memory stands still is frozen everywhere. */
  lemma StillGuestFrozen(w: World, m: Mem, d: nat, remote: nat, len: nat)
    requires forall t: nat :: w.mem(t) == m
    ensures RangeFrozen(w, m, d, remote, len)
  {
    forall j | 0 <= j < len ensures FrozenAt(w, m, d, remote, j) {
      SamePathItself(m, 0, RootEntry(d, Wrap64(remote + j)), Wrap64(remote + j));
    }
  }

  /** The same from the start: on a guest that stands still, after any run of translations,
      flushes and cache-time changes, VMemRead meets its specification exactly under that
      condition. */
  lemma StillGuestRead(w: World, m: Mem, limit: nat, pageCache: bool, ms: nat, events: seq<Event>, tick: nat,
                       dirBase: nat,
                       f: Hole, ram: seq<Byte>, buf: seq<Byte>, e: RW)
    requires Settled(w, limit) && ms * Clock.NANOS_PER_MS <= limit && Legal(events, limit) && EndTick(events) <= tick
    requires forall t: nat :: w.mem(t) == m
    requires Fits(|buf|, |ram|, e) && e.size >= 1
    ensures var cs := Fill(w, tick, Run(w, Initial(pageCache, ms), events), dirBase, e).0;
            AllProper(f, |buf|, |ram|, cs) &&
            var (n, b) := ReadAll(f, ram, buf, cs);
            ReadDone(f, ram, buf, n, b, m, MaskDirBase(dirBase), e)
            <==> Readable(f, |buf|, |ram|, m, MaskDirBase(dirBase), e)
  {
    var s0: Tlb := Initial(pageCache, ms);
    hide *;
    StillGuestFrozen(w, m, MaskDirBase(dirBase), e.remote, e.size);
    ReachableInv(w, limit, pageCache, ms, events, tick);
    ReadExactly(w, m, limit, Run(w, s0, events), tick, dirBase, f, ram, buf, e);
  }

  /** Bytes of an unmapped first page are not left alone: unless the whole call fails they come
      from a place on physical page 0. */
  lemma UnmappedFirstPage(w: World, m: Mem, limit: nat, s: Tlb, tick: nat, dirBase: nat,
                          f: Hole, ram: seq<Byte>, buf: seq<Byte>, e: RW) returns (v: nat)
    requires Settled(w, limit) && Inv(w, limit, s, tick) && Fits(|buf|, |ram|, e) && e.size >= 1
    requires RangeFrozen(w, m, MaskDirBase(dirBase), e.remote, e.size)
    requires !HasFrame(Src(m, MaskDirBase(dirBase), e.remote, 0))
    ensures PageOf(v) == 0
    ensures var cs := Fill(w, tick, s, dirBase, e).0;
            AllProper(f, |buf|, |ram|, cs) &&
            var (n, b) := ReadAll(f, ram, buf, cs);
            n == -1 ||
            (n == MappedBytes(m, MaskDirBase(dirBase), e.remote, e.size) + FirstSize(e.remote, e.size) &&
             forall x :: Delivered(f, ram, b, RW(e.local, v, FirstSize(e.remote, e.size)), x))
  {
    var d, ps := MaskDirBase(dirBase), Pieces(e.remote, e.size);
    hide Fill, ReadAll, Inv, RangeFrozen, Src, HasFrame, AllInRange, AllProper, MappedBytes, TotalSize, KeptTail,
         TailPieces, PieceValues, TailValues, Remap;
    var vs := FillIsNearWalk(w, m, limit, s, tick, dirBase, e);
    v := vs[0];
    var cs := Chunks(e.local, ps, vs);
    assert cs[0] == RW(e.local, v, FirstSize(e.remote, e.size));
    ChunksProper(f, e, vs, |buf|, |ram|);
    ChunksTotal(m, d, e, vs);
    ReadAllTotal(f, ram, buf, cs);
    if AllInRange(f, |ram|, cs) {
      SplitAscending(e, vs);
      forall x ensures Delivered(f, ram, ReadAll(f, ram, buf, cs).1, cs[0], x) {
        if InChunk(cs[0], x) { ReadAllBytes(f, ram, buf, cs, 0, x); }
      }
    }
  }
}
