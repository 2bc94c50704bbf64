/** CalculateDataCount: the array size computed before splitting, in `int` arithmetic. */
module DataCount {
  import opened Bits
  import opened Splitter

  /** Conversion to a 32-bit `int`. */
  function ToInt32(x: int): int {
    var m := x % 0x1_0000_0000;
    if m < 0x8000_0000 then m else m - 0x1_0000_0000
  }

  /** What one entry adds, in unsigned 64-bit arithmetic. */
  function DataTerm(e: RW): U64 {
    Wrap64(1 + Wrap64(e.remote + e.size - 1) / 0x1000 - e.remote / 0x1000)
  }

  function CountData(es: seq<RW>): int
    decreases |es|
  {
    if es == [] then 0
    else
      var n := |es| - 1;
      ToInt32(Wrap64(CountData(es[..n]) + DataTerm(es[n])))
  }

  /** An entry of size 0 at the start of a page. */
  predicate EmptyAligned(e: RW) {
    e.size == 0 && OffsetOf(e.remote) == 0
  }

  function EmptyCount(es: seq<RW>): nat
    decreases |es|
  {
    if es == [] then 0
    else EmptyCount(es[..|es| - 1]) + if EmptyAligned(es[|es| - 1]) then 1 else 0
  }

  predicate AreWords(es: seq<RW>) {
    forall i :: 0 <= i < |es| ==> es[i].remote < TWO_64 && es[i].size < TWO_64
  }

  method CalculateDataCount(info: array<RW>, count: nat) returns (ret: int)
    requires count <= info.Length
    ensures ret == CountData(info[..count])
  {
    ret := 0;
    for i := 0 to count
      invariant ret == CountData(info[..i])
    {
      assert info[..i + 1][..i] == info[..i];
      ret := ToInt32(Wrap64(ret + DataTerm(info[i])));
    }
  }

  lemma QuotientDifference(remote: nat, n: nat)
    ensures (remote + n) / 0x1000 - remote / 0x1000 == (OffsetOf(remote) + n) / 0x1000
  {
    var q := remote / 0x1000;
    var r := OffsetOf(remote) + n;
    HalfOfScaled(q + r / 0x1000, 0x1000, r % 0x1000);
  }

  /** Slots an entry really needs, less one if it is empty and aligned. */
  function Counted(e: RW): nat {
    |Pieces(e.remote, e.size)| - if EmptyAligned(e) then 1 else 0
  }

  /** Each term is right modulo 2^32, whether or not the range wraps around the address space. */
  lemma TermCounts(e: RW)
    requires e.remote < TWO_64 && e.size < TWO_64
    ensures exists k: int :: DataTerm(e) == Counted(e) + k * 0x1_0000_0000
  {
    PiecesLength(e.remote, e.size);
    hide Pieces;
    var x := e.remote + e.size - 1;
    if x < 0 {
      assert DataTerm(e) == Counted(e) + 0x10_0000 * 0x1_0000_0000;
    } else if x < TWO_64 {
      PlainTerm(e);
      assert DataTerm(e) == Counted(e) + 0 * 0x1_0000_0000;
    } else {
      QuotientDifference(e.remote, e.size - 1);
      WrappedTerm(e);
    }
  }

  lemma PlainTerm(e: RW)
    requires e.remote < TWO_64 && 0 <= e.remote + e.size - 1 < TWO_64
    requires |Pieces(e.remote, e.size)| == if e.size == 0 then 1 else (OffsetOf(e.remote) + e.size - 1) / 0x1000 + 1
    ensures DataTerm(e) == Counted(e)
  {
    hide Pieces;
    if e.size > 0 { QuotientDifference(e.remote, e.size - 1); }
  }

  lemma WrappedTerm(e: RW)
    requires e.remote < TWO_64 && 0 < e.size < TWO_64 && e.remote + e.size - 1 >= TWO_64
    requires (e.remote + e.size - 1) / 0x1000 - e.remote / 0x1000 == Counted(e) - 1
    ensures exists k: int :: DataTerm(e) == Counted(e) + k * 0x1_0000_0000
  {
    var x := e.remote + e.size - 1;
    assert Wrap64(x) == x - TWO_64;
    assert (x - TWO_64) / 0x1000 == x / 0x1000 - 0x10_0000_0000_0000;
    var t := Counted(e) - 0x10_0000_0000_0000;
    assert DataTerm(e) == Wrap64(t);
    if t >= 0 {
      assert DataTerm(e) == Counted(e) + (-0x10_0000) * 0x1_0000_0000;
    } else {
      assert DataTerm(e) == Counted(e) + 0xfff0_0000 * 0x1_0000_0000;
    }
  }

  lemma Int32OfCongruent(y: int, z: int, k: int)
    requires z == y + k * 0x1_0000_0000
    ensures ToInt32(Wrap64(z)) == ToInt32(y)
  {
    var j := z / TWO_64;
    assert Wrap64(z) == y + (k - j * 0x1_0000_0000) * 0x1_0000_0000;
    SameRemainder(Wrap64(z), y, k - j * 0x1_0000_0000);
  }

  lemma SameRemainder(x: int, y: int, k: int)
    requires x == y + k * 0x1_0000_0000
    ensures x % 0x1_0000_0000 == y % 0x1_0000_0000
  {
  }

  lemma Int32Shifts(x: int) returns (k: int)
    ensures ToInt32(x) == x + k * 0x1_0000_0000
  {
    k := -(x / 0x1_0000_0000) - if x % 0x1_0000_0000 < 0x8000_0000 then 0 else 1;
  }

  lemma {:induction false} CountsFit(es: seq<RW>)
    ensures EmptyCount(es) <= Slots(es)
    decreases |es|
  {
    if es != [] { CountsFit(es[..|es| - 1]); }
  }

  lemma NextCount(es: seq<RW>, n: nat)
    requires |es| == n + 1 && AreWords(es) && CountData(es[..n]) == ToInt32(Slots(es[..n]) - EmptyCount(es[..n]))
    ensures CountData(es) == ToInt32(Slots(es) - EmptyCount(es))
  {
    TermCounts(es[n]);
    var k: int :| DataTerm(es[n]) == Counted(es[n]) + k * 0x1_0000_0000;
    hide DataTerm, ToInt32, Wrap64;
    var front := Slots(es[..n]) - EmptyCount(es[..n]);
    var j := Int32Shifts(front);
    Int32OfCongruent(front + Counted(es[n]), ToInt32(front) + DataTerm(es[n]), j + k);
  }

  lemma {:induction false} CountValue(es: seq<RW>)
    requires AreWords(es)
    ensures CountData(es) == ToInt32(Slots(es) - EmptyCount(es))
    decreases |es|
  {
    if es != [] {
      var n := |es| - 1;
      CountValue(es[..n]);
      hide CountData, Slots, EmptyCount, ToInt32;
      NextCount(es, n);
    }
  }

  lemma Int32Range(x: nat)
    ensures ToInt32(x) <= x && ToInt32(x) < 0x8000_0000
    ensures x < 0x8000_0000 ==> ToInt32(x) == x
  {
  }

  /** The computed size is the number of slots the split can write, less one for every entry of
      size 0 at a page start, converted to an `int`. So it is enough for every pattern of unmapped
      pages exactly when there is no such entry and the number fits an `int`. */
  lemma CountIsSlots(es: seq<RW>)
    requires AreWords(es)
    ensures CountData(es) == ToInt32(Slots(es) - EmptyCount(es))
    ensures Slots(es) < 0x8000_0000 ==> CountData(es) == Slots(es) - EmptyCount(es)
    ensures CountData(es) < 0x8000_0000
    ensures CountData(es) >= Slots(es)
            <==> Slots(es) < 0x8000_0000 && forall i :: 0 <= i < |es| ==> !EmptyAligned(es[i])
  {
    hide *;
    CountsFit(es);
    NoneEmpty(es);
    CountValue(es);
    Int32Range(Slots(es) - EmptyCount(es));
  }

  lemma {:induction false} NoneEmpty(es: seq<RW>)
    ensures EmptyCount(es) == 0 <==> forall i :: 0 <= i < |es| ==> !EmptyAligned(es[i])
    decreases |es|
  {
    hide EmptyAligned;
    if es != [] {
      var n := |es| - 1;
      NoneEmpty(es[..n]);
      assert forall i :: 0 <= i < n ==> es[..n][i] == es[i];
    }
  }
}
