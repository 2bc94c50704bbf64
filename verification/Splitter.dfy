/** Cutting a virtual range at page boundaries and translating each piece: what the compacted
    list of transfers holds, and how long it can get. */
module Splitter {
  import opened Bits
  import opened GuestMemory
  import opened TlbModel

  /** One transfer: `size` bytes between local address `local` and `remote`. */
  datatype RW = RW(local: nat, remote: nat, size: nat)

  /** A part of the range: its offset from the start, and its length. */
  datatype Piece = Piece(off: nat, size: nat)

  function Min(a: nat, b: nat): nat {
    if a < b then a else b
  }

  /** Bytes of the range in its first page. */
  function FirstSize(remote: nat, len: nat): nat {
    Min(0x1000 - OffsetOf(remote), len)
  }

  function TailPieces(cur: nat, len: nat): seq<Piece>
    decreases len - cur
  {
    if cur >= len then []
    else [Piece(cur, Min(0x1000, len - cur))] + TailPieces(cur + 0x1000, len)
  }

  function Pieces(remote: nat, len: nat): (ps: seq<Piece>)
    ensures |ps| >= 1
  {
    [Piece(0, FirstSize(remote, len))] + TailPieces(FirstSize(remote, len), len)
  }

  /** Pieces after the first: those with a translation, in order. */
  function KeptTail(local: nat, ps: seq<Piece>, vs: seq<nat>): seq<RW>
    requires |ps| == |vs|
    decreases |ps|
  {
    if ps == [] then []
    else
      var n := |ps| - 1;
      KeptTail(local, ps[..n], vs[..n]) +
      if vs[n] != 0 then [RW(local + ps[n].off, vs[n], ps[n].size)] else []
  }

  /** The compacted list, given the translation of every piece: the first piece is kept whatever
      its translation is. */
  function Chunks(local: nat, ps: seq<Piece>, vs: seq<nat>): seq<RW>
    requires |ps| == |vs| && |ps| >= 1
  {
    [RW(local, vs[0], ps[0].size)] + KeptTail(local, ps[1..], vs[1..])
  }

  /** Translating the pieces one after the other, five ticks each. */
  function TranslateAll(w: World, tick: nat, s: Tlb, dirBase: nat, remote: nat, ps: seq<Piece>): (r: (seq<nat>, Tlb))
    ensures |r.0| == |ps|
    decreases |ps|
  {
    if ps == [] then ([], s)
    else
      var n := |ps| - 1;
      var (vs, s1) := TranslateAll(w, tick, s, dirBase, remote, ps[..n]);
      var (v, s2) := Translate(w, tick + 5 * n, s1, dirBase, Wrap64(remote + ps[n].off));
      (vs + [v], s2)
  }

  /** FillRWInfo. */
  function Fill(w: World, tick: nat, s: Tlb, dirBase: nat, e: RW): (seq<RW>, Tlb) {
    var ps := Pieces(e.remote, e.size);
    var (vs, s') := TranslateAll(w, tick, s, dirBase, e.remote, ps);
    (Chunks(e.local, ps, vs), s')
  }

  /** Slots FillRWInfo may write, dropped pieces included. */
  function Slots(es: seq<RW>): nat
    decreases |es|
  {
    if es == [] then 0
    else Slots(es[..|es| - 1]) + |Pieces(es[|es| - 1].remote, es[|es| - 1].size)|
  }

  /** FillRWInfoMul. */
  function FillAll(w: World, tick: nat, s: Tlb, dirBase: nat, es: seq<RW>): (seq<RW>, Tlb)
    decreases |es|
  {
    if es == [] then ([], s)
    else
      var n := |es| - 1;
      var (cs, s1) := FillAll(w, tick, s, dirBase, es[..n]);
      var (c, s2) := Fill(w, tick + 5 * Slots(es[..n]), s1, dirBase, es[n]);
      (cs + c, s2)
  }

  // ---- The pieces tile the range ----

  /** Piece k lies between its neighbours and inside one page. */
  predicate PieceFits(remote: nat, len: nat, ps: seq<Piece>, k: nat)
    requires k < |ps|
  {
    var p := ps[k];
    && p.off == (if k == 0 then 0 else ps[k - 1].off + ps[k - 1].size)
    && 1 <= p.size && p.off + p.size <= len
    && OffsetOf(Wrap64(remote + p.off)) + p.size <= 0x1000
    && (k > 0 ==> OffsetOf(Wrap64(remote + p.off)) == 0)
    && (k == |ps| - 1 ==> p.off + p.size == len)
  }

  lemma {:induction false} TailPieceAt(cur: nat, len: nat, k: nat)
    requires k < |TailPieces(cur, len)|
    ensures cur + 0x1000 * k < len
    ensures TailPieces(cur, len)[k] == Piece(cur + 0x1000 * k, Min(0x1000, len - cur - 0x1000 * k))
    decreases k
  {
    if k > 0 { TailPieceAt(cur + 0x1000, len, k - 1); }
  }

  lemma {:induction false} TailLength(cur: nat, len: nat)
    ensures |TailPieces(cur, len)| == if cur >= len then 0 else (len - cur - 1) / 0x1000 + 1
    decreases len - cur
  {
    if cur < len {
      TailLength(cur + 0x1000, len);
      if cur + 0x1000 < len {
        HalfOfScaled((len - cur - 0x1001) / 0x1000 + 1, 0x1000, (len - cur - 0x1001) % 0x1000);
      }
    }
  }

  lemma PieceAt(remote: nat, len: nat, k: nat)
    requires 0 < k < |Pieces(remote, len)|
    ensures var first := FirstSize(remote, len);
            && first == 0x1000 - OffsetOf(remote)
            && first + 0x1000 * (k - 1) < len
            && Pieces(remote, len)[k] == Piece(first + 0x1000 * (k - 1), Min(0x1000, len - first - 0x1000 * (k - 1)))
  {
    TailPieceAt(FirstSize(remote, len), len, k - 1);
  }

  lemma PageStartOffset(remote: nat, k: nat)
    ensures OffsetOf(remote + (0x1000 - OffsetOf(remote)) + 0x1000 * k) == 0
  {
    assert remote + (0x1000 - OffsetOf(remote)) + 0x1000 * k == (remote / 0x1000 + 1 + k) * 0x1000;
  }

  /** The pieces of a nonempty range cover it once, in order, and none crosses a page. The range
      may wrap around the address space. */
  lemma PiecesTile(remote: nat, len: nat, k: nat)
    requires len >= 1 && k < |Pieces(remote, len)|
    ensures PieceFits(remote, len, Pieces(remote, len), k)
  {
    var ps := Pieces(remote, len);
    var first := FirstSize(remote, len);
    WrapKeepsOffset(remote + ps[k].off);
    TailLength(first, len);
    if k > 0 {
      PieceAt(remote, len, k);
      if k > 1 { PieceAt(remote, len, k - 1); }
      PageStartOffset(remote, k - 1);
    }
  }

  /** The piece that holds byte `j`. */
  function PieceOf(remote: nat, len: nat, j: nat): nat {
    if j < FirstSize(remote, len) then 0 else 1 + (j - FirstSize(remote, len)) / 0x1000
  }

  predicate Holds(p: Piece, j: nat) {
    p.off <= j < p.off + p.size
  }

  /** Every byte of the range is in exactly one piece. */
  lemma OnePieceHolds(remote: nat, len: nat, j: nat)
    requires j < len
    ensures PieceOf(remote, len, j) < |Pieces(remote, len)|
    ensures forall k :: 0 <= k < |Pieces(remote, len)| ==>
              (Holds(Pieces(remote, len)[k], j) <==> k == PieceOf(remote, len, j))
  {
    var ps := Pieces(remote, len);
    var first := FirstSize(remote, len);
    TailLength(first, len);
    forall k | 0 <= k < |ps| ensures Holds(ps[k], j) <==> k == PieceOf(remote, len, j) {
      if k > 0 { PieceAt(remote, len, k); }
    }
  }

  // ---- The compacted list is the kept pieces, in order ----

  predicate IsKept(vs: seq<nat>, k: nat)
    requires k < |vs|
  {
    k == 0 || vs[k] != 0
  }

  /** Kept pieces among the first k. */
  function KeptCount(vs: seq<nat>, k: nat): (n: nat)
    requires k <= |vs|
    ensures n <= k && (k >= 1 ==> n >= 1)
  {
    if k == 0 then 0 else KeptCount(vs, k - 1) + if IsKept(vs, k - 1) then 1 else 0
  }

  lemma {:induction false} KeptTailAt(local: nat, ps: seq<Piece>, vs: seq<nat>, n: nat)
    requires |ps| == |vs| && 1 <= n <= |ps|
    ensures |KeptTail(local, ps[1..n], vs[1..n])| == KeptCount(vs, n) - 1
    ensures forall k :: 1 <= k < n && vs[k] != 0 ==>
              KeptCount(vs, k) < KeptCount(vs, n) &&
              KeptTail(local, ps[1..n], vs[1..n])[KeptCount(vs, k) - 1] == RW(local + ps[k].off, vs[k], ps[k].size)
    decreases n
  {
    if n > 1 {
      KeptTailAt(local, ps, vs, n - 1);
      assert ps[1..n][..n - 2] == ps[1..n - 1] && vs[1..n][..n - 2] == vs[1..n - 1];
      assert ps[1..n][n - 2] == ps[n - 1] && vs[1..n][n - 2] == vs[n - 1];
    }
  }

  /** Piece k is in the list exactly when it is the first or has a translation, and then it is
      at the position given by the kept pieces before it. */
  lemma ChunksAreKeptPieces(local: nat, ps: seq<Piece>, vs: seq<nat>)
    requires |ps| == |vs| && |ps| >= 1 && ps[0].off == 0
    ensures |Chunks(local, ps, vs)| == KeptCount(vs, |vs|)
    ensures forall k :: 0 <= k < |ps| && IsKept(vs, k) ==>
              KeptCount(vs, k) < |Chunks(local, ps, vs)| &&
              Chunks(local, ps, vs)[KeptCount(vs, k)] == RW(local + ps[k].off, vs[k], ps[k].size)
  {
    KeptTailAt(local, ps, vs, |ps|);
    assert ps[1..|ps|] == ps[1..] && vs[1..|ps|] == vs[1..];
  }

  // ---- Capacity ----

  lemma PiecesLength(remote: nat, len: nat)
    ensures |Pieces(remote, len)| == if len == 0 then 1 else (OffsetOf(remote) + len - 1) / 0x1000 + 1
  {
    TailLength(FirstSize(remote, len), len);
  }

  /** The stack or heap array of VMemRead and VMemWrite is large enough for every piece, even if
      all of them are kept. */
  lemma SingleCapacity(remote: nat, size: nat)
    requires size >= 1
    ensures |Pieces(remote, size)| <= (size - 1) / 0x1000 + 2
  {
    PiecesLength(remote, size);
  }
}
