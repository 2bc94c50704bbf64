/** A batch against the same requests as calls of their own, without any assumption on the page
    tables: both start from the same cache at the same tick. They differ only through a refused
    transfer, which ends the whole batch but only one of the calls. */
module BatchCalls {
  import opened Bits
  import opened GuestMemory
  import opened TlbModel
  import opened Splitter
  import opened PhysMem
  import opened VMem
  import opened VMemBytes
  import opened Batch
  import opened BatchBytes

  // ---- Lists of transfers ----

  function Flatten(cls: seq<seq<RW>>): seq<RW>
    decreases |cls|
  {
    if cls == [] then [] else Flatten(cls[..|cls| - 1]) + cls[|cls| - 1]
  }

  /** The transfers made: those before the first refused one. */
  function Performed(f: Hole, ramSize: nat, cs: seq<RW>): (r: seq<RW>)
    ensures |r| <= |cs|
    decreases |cs|
  {
    if cs == [] || !InRange(f, ramSize, cs[0]) then [] else [cs[0]] + Performed(f, ramSize, cs[1..])
  }

  /** The transfers made when each list is a call of its own. */
  function EachPerformed(f: Hole, ramSize: nat, cls: seq<seq<RW>>): seq<RW>
    decreases |cls|
  {
    if cls == [] then []
    else EachPerformed(f, ramSize, cls[..|cls| - 1]) + Performed(f, ramSize, cls[|cls| - 1])
  }

  /** The first transfer of the list is made. */
  predicate Starts(f: Hole, ramSize: nat, cs: seq<RW>) {
    cs != [] && InRange(f, ramSize, cs[0])
  }

  /** No list with a refused transfer is followed by one whose first transfer is accepted. */
  predicate NoneLost(f: Hole, ramSize: nat, cls: seq<seq<RW>>) {
    forall i, j :: 0 <= i < j < |cls| && !AllInRange(f, ramSize, cls[i]) ==> !Starts(f, ramSize, cls[j])
  }

  lemma {:induction false} PerformedOf(f: Hole, ramSize: nat, cs: seq<RW>)
    ensures AllInRange(f, ramSize, cs) ==> Performed(f, ramSize, cs) == cs
    ensures Performed(f, ramSize, cs) == [] <==> !Starts(f, ramSize, cs)
    decreases |cs|
  {
    hide InRange;
    if Starts(f, ramSize, cs) {
      RangeOfTail(f, ramSize, cs);
      PerformedOf(f, ramSize, cs[1..]);
    }
  }

  lemma {:induction false} PerformedConcat(f: Hole, ramSize: nat, a: seq<RW>, b: seq<RW>)
    ensures Performed(f, ramSize, a + b)
         == if AllInRange(f, ramSize, a) then a + Performed(f, ramSize, b) else Performed(f, ramSize, a)
    decreases |a|
  {
    hide InRange;
    if a == [] {
      assert a + b == b;
    } else if InRange(f, ramSize, a[0]) {
      assert (a + b)[1..] == a[1..] + b;
      RangeOfTail(f, ramSize, a);
      PerformedConcat(f, ramSize, a[1..], b);
    }
  }

  lemma NoneLostNext(f: Hole, ramSize: nat, cls: seq<seq<RW>>, k: nat)
    requires |cls| == k + 1
    ensures NoneLost(f, ramSize, cls)
            <==> NoneLost(f, ramSize, cls[..k]) && (AllInLists(f, ramSize, cls[..k]) || !Starts(f, ramSize, cls[k]))
  {
    hide AllInRange, Starts;
    if NoneLost(f, ramSize, cls[..k]) && (AllInLists(f, ramSize, cls[..k]) || !Starts(f, ramSize, cls[k])) {
      forall i, j | 0 <= i < j < |cls| && !AllInRange(f, ramSize, cls[i]) ensures !Starts(f, ramSize, cls[j]) {
        assert cls[..k][i] == cls[i];
        if j < k { assert cls[..k][j] == cls[j]; }
      }
    }
  }

  predicate AllInLists(f: Hole, ramSize: nat, cls: seq<seq<RW>>) {
    forall i :: 0 <= i < |cls| ==> AllInRange(f, ramSize, cls[i])
  }

  lemma {:induction false} FlattenInRange(f: Hole, ramSize: nat, cls: seq<seq<RW>>)
    ensures AllInRange(f, ramSize, Flatten(cls)) <==> AllInLists(f, ramSize, cls)
    ensures AllInLists(f, ramSize, cls) ==> NoneLost(f, ramSize, cls) && EachPerformed(f, ramSize, cls) == Flatten(cls)
    decreases |cls|
  {
    if cls != [] {
      var k := |cls| - 1;
      FlattenInRange(f, ramSize, cls[..k]);
      RangeOfConcat(f, ramSize, Flatten(cls[..k]), cls[k]);
      PerformedOf(f, ramSize, cls[k]);
      hide AllInRange, Starts, Performed;
      if AllInLists(f, ramSize, cls[..k]) && AllInRange(f, ramSize, cls[k]) {
        forall i | 0 <= i < |cls| ensures AllInRange(f, ramSize, cls[i]) {
          if i < k { assert cls[..k][i] == cls[i]; }
        }
      }
    }
  }

  /** The batch makes a prefix of the transfers that the calls make, and all of them exactly if no
      refused list is followed by one that starts. */
  lemma {:induction false} PerformedExactly(f: Hole, ramSize: nat, cls: seq<seq<RW>>)
    ensures Performed(f, ramSize, Flatten(cls)) <= EachPerformed(f, ramSize, cls)
    ensures Performed(f, ramSize, Flatten(cls)) == EachPerformed(f, ramSize, cls) <==> NoneLost(f, ramSize, cls)
    decreases |cls|
  {
    if cls != [] {
      var k := |cls| - 1;
      PerformedExactly(f, ramSize, cls[..k]);
      PerformedConcat(f, ramSize, Flatten(cls[..k]), cls[k]);
      PerformedOf(f, ramSize, cls[k]);
      FlattenInRange(f, ramSize, cls[..k]);
      NoneLostNext(f, ramSize, cls, k);
      hide AllInRange, Starts, Performed, NoneLost, AllInLists;
    }
  }

  // ---- What the transfers made do ----

  lemma {:induction false} WriteIsPerformed(f: Hole, ram: seq<Byte>, buf: seq<Byte>, cs: seq<RW>)
    requires AllProper(f, |buf|, |ram|, cs)
    ensures AllProper(f, |buf|, |ram|, Performed(f, |ram|, cs))
    ensures WriteAll(f, ram, buf, cs).1 == WriteAll(f, ram, buf, Performed(f, |ram|, cs)).1
    decreases |cs|
  {
    hide InRange, Proper, WriteChunk;
    if cs != [] && InRange(f, |ram|, cs[0]) {
      WriteIsPerformed(f, WriteChunk(f, ram, buf, cs[0]), buf, cs[1..]);
      assert Performed(f, |ram|, cs)[1..] == Performed(f, |ram|, cs[1..]);
    }
  }

  lemma {:induction false} ReadIsPerformed(f: Hole, ram: seq<Byte>, buf: seq<Byte>, cs: seq<RW>)
    requires AllProper(f, |buf|, |ram|, cs)
    ensures AllProper(f, |buf|, |ram|, Performed(f, |ram|, cs))
    ensures ReadAll(f, ram, buf, cs).1 == ReadAll(f, ram, buf, Performed(f, |ram|, cs)).1
    decreases |cs|
  {
    hide InRange, Proper, ReadChunk;
    if cs != [] && InRange(f, |ram|, cs[0]) {
      ReadIsPerformed(f, ram, ReadChunk(f, ram, buf, cs[0]), cs[1..]);
      assert Performed(f, |ram|, cs)[1..] == Performed(f, |ram|, cs[1..]);
    }
  }

  lemma {:induction false} PerformedInRange(f: Hole, ramSize: nat, cs: seq<RW>)
    ensures AllInRange(f, ramSize, Performed(f, ramSize, cs))
    decreases |cs|
  {
    hide InRange;
    if Starts(f, ramSize, cs) { PerformedInRange(f, ramSize, cs[1..]); }
  }

  lemma {:induction false} EachInRange(f: Hole, ramSize: nat, cls: seq<seq<RW>>)
    ensures AllInRange(f, ramSize, EachPerformed(f, ramSize, cls))
    decreases |cls|
  {
    if cls != [] {
      var k := |cls| - 1;
      EachInRange(f, ramSize, cls[..k]);
      PerformedInRange(f, ramSize, cls[k]);
      RangeOfConcat(f, ramSize, EachPerformed(f, ramSize, cls[..k]), Performed(f, ramSize, cls[k]));
      hide AllInRange, Performed;
    }
  }

  // ---- Requests ----

  /** The transfers of each request, translated one request after the other. */
  function Splits(w: World, tick: nat, s: Tlb, dirBase: nat, es: seq<RW>): (r: seq<seq<RW>>)
    ensures |r| == |es|
    decreases |es|
  {
    if es == [] then []
    else
      var k := |es| - 1;
      Splits(w, tick, s, dirBase, es[..k])
      + [Fill(w, tick + 5 * Slots(es[..k]), FillAll(w, tick, s, dirBase, es[..k]).1, dirBase, es[k]).0]
  }

  lemma {:induction false} FlattenSplits(w: World, tick: nat, s: Tlb, dirBase: nat, es: seq<RW>)
    ensures Flatten(Splits(w, tick, s, dirBase, es)) == FillAll(w, tick, s, dirBase, es).0
    decreases |es|
  {
    hide Fill, Slots;
    if es != [] {
      var k := |es| - 1;
      FlattenSplits(w, tick, s, dirBase, es[..k]);
      assert Splits(w, tick, s, dirBase, es)[..k] == Splits(w, tick, s, dirBase, es[..k]);
    }
  }

  lemma OneWriteIs(w: World, tick: nat, s: Tlb, dirBase: nat, f: Hole, ram: seq<Byte>, buf: seq<Byte>, e: RW)
    requires Fits(|buf|, |ram|, e)
    ensures var (cs, s') := Fill(w, tick, s, dirBase, e);
            AllProper(f, |buf|, |ram|, cs) &&
            OneWrite(w, tick, s, dirBase, f, ram, buf, e)
              == (WriteAll(f, ram, buf, cs).0, WriteAll(f, ram, buf, cs).1, s')
  {
    FillProper(w, tick, s, dirBase, e, f, |buf|, |ram|);
    hide Fill, WriteAll, AllProper;
  }

  lemma OneReadIs(w: World, tick: nat, s: Tlb, dirBase: nat, f: Hole, ram: seq<Byte>, buf: seq<Byte>, e: RW)
    requires Fits(|buf|, |ram|, e)
    ensures var (cs, s') := Fill(w, tick, s, dirBase, e);
            AllProper(f, |buf|, |ram|, cs) &&
            OneRead(w, tick, s, dirBase, f, ram, buf, e)
              == (ReadAll(f, ram, buf, cs).0, ReadAll(f, ram, buf, cs).1, s')
  {
    FillProper(w, tick, s, dirBase, e, f, |buf|, |ram|);
    hide Fill, ReadAll, AllProper;
  }

  /** The calls leave the cache as the batch does, make the transfers of EachPerformed, and if none is
      refused add up to all of them. */
  ghost predicate WriteCallsAre(w: World, tick: nat, s: Tlb, dirBase: nat, f: Hole, ram: seq<Byte>, buf: seq<Byte>,
                                es: seq<RW>, done: seq<RW>)
  {
    && AllFit(|buf|, |ram|, es) && AllProper(f, |buf|, |ram|, done)
    && var (n, ram', s') := WriteCalls(w, tick, s, dirBase, f, ram, buf, es);
    && s' == FillAll(w, tick, s, dirBase, es).1 && ram' == WriteAll(f, ram, buf, done).1
    && (AllInLists(f, |ram|, Splits(w, tick, s, dirBase, es)) ==> n == TotalSize(done))
  }

  ghost predicate ReadCallsAre(w: World, tick: nat, s: Tlb, dirBase: nat, f: Hole, ram: seq<Byte>, buf: seq<Byte>,
                               es: seq<RW>, done: seq<RW>)
  {
    && AllFit(|buf|, |ram|, es) && AllProper(f, |buf|, |ram|, done)
    && var (n, b, s') := ReadCalls(w, tick, s, dirBase, f, ram, buf, es);
    && s' == FillAll(w, tick, s, dirBase, es).1 && b == ReadAll(f, ram, buf, done).1
    && (AllInLists(f, |ram|, Splits(w, tick, s, dirBase, es)) ==> n == TotalSize(done))
  }

  /** One more list: transfers made, and the bytes they count. */
  lemma WriteListNext(f: Hole, ram: seq<Byte>, buf: seq<Byte>, done: seq<RW>, c: seq<RW>)
    requires AllProper(f, |buf|, |ram|, done) && AllInRange(f, |ram|, done) && AllProper(f, |buf|, |ram|, c)
    ensures var done' := done + Performed(f, |ram|, c);
            && AllProper(f, |buf|, |ram|, done')
            && WriteAll(f, ram, buf, done').1 == WriteAll(f, WriteAll(f, ram, buf, done).1, buf, c).1
            && (AllInRange(f, |ram|, c) ==>
                  TotalSize(done') == TotalSize(done) + WriteAll(f, WriteAll(f, ram, buf, done).1, buf, c).0)
  {
    var ram1 := WriteAll(f, ram, buf, done).1;
    WriteIsPerformed(f, ram1, buf, c);
    WriteAllTotal(f, ram1, buf, c);
    PerformedOf(f, |ram|, c);
    hide AllProper, AllInRange, WriteAll, TotalSize, Performed;
    WriteConcat(f, ram, buf, done, Performed(f, |ram|, c));
    TotalOfConcat(done, Performed(f, |ram|, c));
  }

  lemma ReadListNext(f: Hole, ram: seq<Byte>, buf: seq<Byte>, done: seq<RW>, c: seq<RW>)
    requires AllProper(f, |buf|, |ram|, done) && AllInRange(f, |ram|, done) && AllProper(f, |buf|, |ram|, c)
    ensures var done' := done + Performed(f, |ram|, c);
            && AllProper(f, |buf|, |ram|, done')
            && ReadAll(f, ram, buf, done').1 == ReadAll(f, ram, ReadAll(f, ram, buf, done).1, c).1
            && (AllInRange(f, |ram|, c) ==>
                  TotalSize(done') == TotalSize(done) + ReadAll(f, ram, ReadAll(f, ram, buf, done).1, c).0)
  {
    var buf1 := ReadAll(f, ram, buf, done).1;
    ReadIsPerformed(f, ram, buf1, c);
    ReadAllTotal(f, ram, buf1, c);
    PerformedOf(f, |ram|, c);
    hide AllProper, AllInRange, ReadAll, TotalSize, Performed;
    ReadConcat(f, ram, buf, done, Performed(f, |ram|, c));
    TotalOfConcat(done, Performed(f, |ram|, c));
  }

  lemma SplitsNext(w: World, tick: nat, s: Tlb, dirBase: nat, es: seq<RW>, k: nat, f: Hole, ramSize: nat)
    requires |es| == k + 1
    ensures var cls, front := Splits(w, tick, s, dirBase, es), Splits(w, tick, s, dirBase, es[..k]);
            var (c, s2) := Fill(w, tick + 5 * Slots(es[..k]), FillAll(w, tick, s, dirBase, es[..k]).1, dirBase, es[k]);
            && cls == front + [c] && FillAll(w, tick, s, dirBase, es).1 == s2
            && EachPerformed(f, ramSize, cls) == EachPerformed(f, ramSize, front) + Performed(f, ramSize, c)
            && (AllInLists(f, ramSize, cls) ==> AllInLists(f, ramSize, front) && AllInRange(f, ramSize, c))
  {
    hide Fill, Slots, Performed, AllInRange;
    var cls, front := Splits(w, tick, s, dirBase, es), Splits(w, tick, s, dirBase, es[..k]);
    assert cls[..k] == front;
    if AllInLists(f, ramSize, cls) {
      forall i | 0 <= i < |front| ensures AllInRange(f, ramSize, front[i]) { assert cls[i] == front[i]; }
      assert AllInRange(f, ramSize, cls[k]);
    }
  }

  lemma WriteCallsNext(w: World, tick: nat, s: Tlb, dirBase: nat, f: Hole, ram: seq<Byte>, buf: seq<Byte>,
                 es: seq<RW>, k: nat, done: seq<RW>, done': seq<RW>)
    requires |es| == k + 1 && AllFit(|buf|, |ram|, es)
    requires done == EachPerformed(f, |ram|, Splits(w, tick, s, dirBase, es[..k]))
    requires done' == EachPerformed(f, |ram|, Splits(w, tick, s, dirBase, es))
    requires WriteCallsAre(w, tick, s, dirBase, f, ram, buf, es[..k], done)
    ensures WriteCallsAre(w, tick, s, dirBase, f, ram, buf, es, done')
  {
    hide Fits, AllFit, OneWrite, Fill, Slots, Splits, FillAll, WriteCalls, AllProper, WriteAll, AllInRange, TotalSize,
         EachPerformed, Performed, AllInLists, Pieces, InRange, Remap, Min;
    WriteCallsFold(w, tick, s, dirBase, f, ram, buf, es, k);
    SplitsNext(w, tick, s, dirBase, es, k, f, |ram|);
    var (n1, ram1, s1) := WriteCalls(w, tick, s, dirBase, f, ram, buf, es[..k]);
    var now := tick + 5 * Slots(es[..k]);
    OneWriteIs(w, now, s1, dirBase, f, ram1, buf, es[k]);
    EachInRange(f, |ram|, Splits(w, tick, s, dirBase, es[..k]));
    WriteListNext(f, ram, buf, done, Fill(w, now, s1, dirBase, es[k]).0);
  }

  lemma WriteCallsNone(w: World, tick: nat, s: Tlb, dirBase: nat, f: Hole, ram: seq<Byte>, buf: seq<Byte>)
    ensures WriteCallsAre(w, tick, s, dirBase, f, ram, buf, [],
                          EachPerformed(f, |ram|, Splits(w, tick, s, dirBase, [])))
  {
    WriteNothing(f, ram, buf, 0);
  }

  lemma {:induction false} WriteCallsMake(w: World, tick: nat, s: Tlb, dirBase: nat, f: Hole, ram: seq<Byte>,
                                          buf: seq<Byte>,
                                          es: seq<RW>)
    requires AllFit(|buf|, |ram|, es)
    ensures WriteCallsAre(w, tick, s, dirBase, f, ram, buf, es,
                        EachPerformed(f, |ram|, Splits(w, tick, s, dirBase, es)))
    decreases |es|
  {
    hide EachPerformed, Splits, Fits, WriteCallsAre;
    if es == [] {
      WriteCallsNone(w, tick, s, dirBase, f, ram, buf);
    } else {
      var k := |es| - 1;
      WriteCallsMake(w, tick, s, dirBase, f, ram, buf, es[..k]);
      WriteCallsNext(w, tick, s, dirBase, f, ram, buf, es, k,
                   EachPerformed(f, |ram|, Splits(w, tick, s, dirBase, es[..k])),
                   EachPerformed(f, |ram|, Splits(w, tick, s, dirBase, es)));
    }
  }

  lemma ReadCallsNext(w: World, tick: nat, s: Tlb, dirBase: nat, f: Hole, ram: seq<Byte>, buf: seq<Byte>,
                 es: seq<RW>, k: nat, done: seq<RW>, done': seq<RW>)
    requires |es| == k + 1 && AllFit(|buf|, |ram|, es)
    requires done == EachPerformed(f, |ram|, Splits(w, tick, s, dirBase, es[..k]))
    requires done' == EachPerformed(f, |ram|, Splits(w, tick, s, dirBase, es))
    requires ReadCallsAre(w, tick, s, dirBase, f, ram, buf, es[..k], done)
    ensures ReadCallsAre(w, tick, s, dirBase, f, ram, buf, es, done')
  {
    hide Fits, AllFit, OneRead, Fill, Slots, Splits, FillAll, ReadCalls, AllProper, ReadAll, AllInRange, TotalSize,
         EachPerformed, Performed, AllInLists, Pieces, InRange, Remap, Min;
    ReadCallsFold(w, tick, s, dirBase, f, ram, buf, es, k);
    SplitsNext(w, tick, s, dirBase, es, k, f, |ram|);
    var (n1, b1, s1) := ReadCalls(w, tick, s, dirBase, f, ram, buf, es[..k]);
    var now := tick + 5 * Slots(es[..k]);
    OneReadIs(w, now, s1, dirBase, f, ram, b1, es[k]);
    EachInRange(f, |ram|, Splits(w, tick, s, dirBase, es[..k]));
    ReadListNext(f, ram, buf, done, Fill(w, now, s1, dirBase, es[k]).0);
  }

  lemma ReadCallsNone(w: World, tick: nat, s: Tlb, dirBase: nat, f: Hole, ram: seq<Byte>, buf: seq<Byte>)
    ensures ReadCallsAre(w, tick, s, dirBase, f, ram, buf, [], EachPerformed(f, |ram|, Splits(w, tick, s, dirBase, [])))
  {
    ReadNothing(f, ram, buf, 0);
  }

  lemma {:induction false} ReadCallsMake(w: World, tick: nat, s: Tlb, dirBase: nat, f: Hole, ram: seq<Byte>,
                                         buf: seq<Byte>,
                                         es: seq<RW>)
    requires AllFit(|buf|, |ram|, es)
    ensures ReadCallsAre(w, tick, s, dirBase, f, ram, buf, es,
                        EachPerformed(f, |ram|, Splits(w, tick, s, dirBase, es)))
    decreases |es|
  {
    hide EachPerformed, Splits, Fits, ReadCallsAre;
    if es == [] {
      ReadCallsNone(w, tick, s, dirBase, f, ram, buf);
    } else {
      var k := |es| - 1;
      ReadCallsMake(w, tick, s, dirBase, f, ram, buf, es[..k]);
      ReadCallsNext(w, tick, s, dirBase, f, ram, buf, es, k,
                   EachPerformed(f, |ram|, Splits(w, tick, s, dirBase, es[..k])),
                   EachPerformed(f, |ram|, Splits(w, tick, s, dirBase, es)));
    }
  }

  /** Whatever the tables and the cache: a batch of writes leaves the cache as the calls do; the calls
      make the transfers of the batch and perhaps more, and the same ones exactly if no refused
      request is followed by one whose first transfer is accepted. */
  lemma WriteTransfersExactly(w: World, tick: nat, s: Tlb, dirBase: nat, f: Hole, ram: seq<Byte>, buf: seq<Byte>,
                              es: seq<RW>)
    requires AllFit(|buf|, |ram|, es)
    ensures var (cs, s1) := FillAll(w, tick, s, dirBase, es);
            var cls := Splits(w, tick, s, dirBase, es);
            var batch, calls := Performed(f, |ram|, cs), EachPerformed(f, |ram|, cls);
            var (_, ram2, s2) := WriteCalls(w, tick, s, dirBase, f, ram, buf, es);
            && AllProper(f, |buf|, |ram|, cs) && AllProper(f, |buf|, |ram|, batch) && AllProper(f, |buf|, |ram|, calls)
            && WriteAll(f, ram, buf, cs).1 == WriteAll(f, ram, buf, batch).1
            && ram2 == WriteAll(f, ram, buf, calls).1 && s2 == s1
            && batch <= calls && (batch == calls <==> NoneLost(f, |ram|, cls))
  {
    FillAllProper(w, tick, s, dirBase, es, f, |buf|, |ram|);
    hide AllFit, FillAll, Splits, AllProper, WriteAll, WriteCalls, Performed, EachPerformed, NoneLost, AllInLists;
    FlattenSplits(w, tick, s, dirBase, es);
    PerformedExactly(f, |ram|, Splits(w, tick, s, dirBase, es));
    WriteIsPerformed(f, ram, buf, FillAll(w, tick, s, dirBase, es).0);
    WriteCallsMake(w, tick, s, dirBase, f, ram, buf, es);
  }

  lemma ReadTransfersExactly(w: World, tick: nat, s: Tlb, dirBase: nat, f: Hole, ram: seq<Byte>, buf: seq<Byte>,
                             es: seq<RW>)
    requires AllFit(|buf|, |ram|, es)
    ensures var (cs, s1) := FillAll(w, tick, s, dirBase, es);
            var cls := Splits(w, tick, s, dirBase, es);
            var batch, calls := Performed(f, |ram|, cs), EachPerformed(f, |ram|, cls);
            var (_, b2, s2) := ReadCalls(w, tick, s, dirBase, f, ram, buf, es);
            && AllProper(f, |buf|, |ram|, cs) && AllProper(f, |buf|, |ram|, batch) && AllProper(f, |buf|, |ram|, calls)
            && ReadAll(f, ram, buf, cs).1 == ReadAll(f, ram, buf, batch).1
            && b2 == ReadAll(f, ram, buf, calls).1 && s2 == s1
            && batch <= calls && (batch == calls <==> NoneLost(f, |ram|, cls))
  {
    FillAllProper(w, tick, s, dirBase, es, f, |buf|, |ram|);
    hide AllFit, FillAll, Splits, AllProper, ReadAll, ReadCalls, Performed, EachPerformed, NoneLost, AllInLists;
    FlattenSplits(w, tick, s, dirBase, es);
    PerformedExactly(f, |ram|, Splits(w, tick, s, dirBase, es));
    ReadIsPerformed(f, ram, buf, FillAll(w, tick, s, dirBase, es).0);
    ReadCallsMake(w, tick, s, dirBase, f, ram, buf, es);
  }

  /** So with every transfer in range a batch is its calls: result, memory and cache. */
  lemma WriteMulIsCallsHere(w: World, tick: nat, s: Tlb, dirBase: nat, f: Hole, ram: seq<Byte>, buf: seq<Byte>,
                            es: seq<RW>)
    requires AllFit(|buf|, |ram|, es) && AllInRange(f, |ram|, FillAll(w, tick, s, dirBase, es).0)
    ensures var (cs, s1) := FillAll(w, tick, s, dirBase, es);
            AllProper(f, |buf|, |ram|, cs) &&
            var (n, ram') := WriteAll(f, ram, buf, cs);
            WriteCalls(w, tick, s, dirBase, f, ram, buf, es) == (n, ram', s1)
  {
    var cls := Splits(w, tick, s, dirBase, es);
    FillAllProper(w, tick, s, dirBase, es, f, |buf|, |ram|);
    hide AllFit, FillAll, Splits, AllProper, AllInRange, WriteAll, WriteCalls, Performed, EachPerformed, NoneLost,
         AllInLists, TotalSize;
    FlattenSplits(w, tick, s, dirBase, es);
    FlattenInRange(f, |ram|, cls);
    WriteCallsMake(w, tick, s, dirBase, f, ram, buf, es);
    WriteAllTotal(f, ram, buf, Flatten(cls));
  }

  lemma ReadMulIsCallsHere(w: World, tick: nat, s: Tlb, dirBase: nat, f: Hole, ram: seq<Byte>, buf: seq<Byte>,
                           es: seq<RW>)
    requires AllFit(|buf|, |ram|, es) && AllInRange(f, |ram|, FillAll(w, tick, s, dirBase, es).0)
    ensures var (cs, s1) := FillAll(w, tick, s, dirBase, es);
            AllProper(f, |buf|, |ram|, cs) &&
            var (n, b) := ReadAll(f, ram, buf, cs);
            ReadCalls(w, tick, s, dirBase, f, ram, buf, es) == (n, b, s1)
  {
    var cls := Splits(w, tick, s, dirBase, es);
    FillAllProper(w, tick, s, dirBase, es, f, |buf|, |ram|);
    hide AllFit, FillAll, Splits, AllProper, AllInRange, ReadAll, ReadCalls, Performed, EachPerformed, NoneLost,
         AllInLists, TotalSize;
    FlattenSplits(w, tick, s, dirBase, es);
    FlattenInRange(f, |ram|, cls);
    ReadCallsMake(w, tick, s, dirBase, f, ram, buf, es);
    ReadAllTotal(f, ram, buf, Flatten(cls));
  }

  /** A value lost: of two one-byte writes the first goes to a device above RAM and is refused. As a
      batch neither byte arrives; as calls of their own the second does. */
  lemma LostWrite()
    ensures var f, ram, buf: seq<Byte> := Q35, [0, 0], [1, 1];
            var device, memory := RW(0, 0xfee0_0000, 1), RW(1, 0, 1);
            && AllProper(f, 2, 2, [device, memory]) && AllProper(f, 2, 2, [device]) && AllProper(f, 2, 2, [memory])
            && WriteAll(f, ram, buf, [device, memory]) == (-1, [0, 0])
            && WriteAll(f, ram, buf, [device]) == (-1, [0, 0])
            && WriteAll(f, ram, buf, [memory]) == (1, [1, 0])
  {
    var memory := RW(1, 0, 1);
    assert InRange(Q35, 2, memory);
    assert WriteChunk(Q35, [0, 0], [1, 1], memory) == [1, 0];
    WriteHead(Q35, [0, 0], [1, 1], [memory]);
    WriteNothing(Q35, [1, 0], [1, 1], 0);
  }
}
