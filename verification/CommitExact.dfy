/** Exactly when a commit equals its writes one by one, without any assumption on the page tables.
    The commit ignores a refused transfer and drops the queue, so what was queued later is lost. */
module CommitExact {
  import opened Bits
  import opened GuestMemory
  import opened TlbModel
  import opened Splitter
  import opened PhysMem
  import opened VMem
  import opened VMemBytes
  import opened Batch
  import opened BatchCalls
  import opened WriteList

  /** The queued values as requests from their own storage. */
  function Requests(queue: seq<Request>): (es: seq<RW>)
    ensures |es| == |queue|
  {
    seq(|queue|, i requires 0 <= i < |queue| => RW(0, queue[i].address, |queue[i].value|))
  }

  /** Each value has a list of transfers of its own that are proper for it. */
  ghost predicate Served(f: Hole, ramSize: nat, queue: seq<Request>, cls: seq<seq<RW>>) {
    |cls| == |queue| && forall i :: 0 <= i < |queue| ==> AllProper(f, |queue[i].value|, ramSize, cls[i])
  }

  lemma ServedFront(f: Hole, ramSize: nat, queue: seq<Request>, cls: seq<seq<RW>>, n: nat)
    requires Served(f, ramSize, queue, cls) && n <= |queue|
    ensures Served(f, ramSize, queue[..n], cls[..n])
  {
    hide AllProper;
  }

  /** Guest RAM after the values one by one, each with its list of transfers. */
  ghost function CallLists(f: Hole, ram: seq<Byte>, queue: seq<Request>, cls: seq<seq<RW>>): (r: seq<Byte>)
    requires Served(f, |ram|, queue, cls)
    ensures |r| == |ram|
    decreases |queue|
  {
    if queue == [] then ram
    else
      var n := |queue| - 1;
      WriteAll(f, CallLists(f, ram, queue[..n], cls[..n]), queue[n].value, cls[n]).1
  }

  /** The same until a transfer is refused, and nothing of the later values. */
  ghost function CommitLists(f: Hole, ram: seq<Byte>, queue: seq<Request>, cls: seq<seq<RW>>): (r: seq<Byte>)
    requires Served(f, |ram|, queue, cls)
    ensures |r| == |ram|
    decreases |queue|
  {
    if queue == [] then ram
    else
      var n := |queue| - 1;
      var front := CommitLists(f, ram, queue[..n], cls[..n]);
      if AllInLists(f, |ram|, cls[..n]) then WriteAll(f, front, queue[n].value, cls[n]).1 else front
  }

  // ---- The commit in terms of the lists ----

  /** A request from another place in local memory has the same transfers, moved. */
  lemma FillElsewhere(w: World, tick: nat, s: Tlb, dirBase: nat, address: nat, size: nat, k: nat)
    ensures var (cs, s') := Fill(w, tick, s, dirBase, RW(0, address, size));
            Fill(w, tick, s, dirBase, RW(k, address, size)) == (Rebased(cs, k), s')
  {
    hide TranslateAll;
    var ps := Pieces(address, size);
    var vs := TranslateAll(w, tick, s, dirBase, address, ps).0;
    hide Pieces;
    RebasedTail(0, k, ps[1..], vs[1..]);
    assert Chunks(k, ps, vs) == Rebased(Chunks(0, ps, vs), k);
  }

  /** Requests that differ only in where they are in local memory. */
  predicate SameRemote(es: seq<RW>, es0: seq<RW>) {
    |es| == |es0| && forall i :: 0 <= i < |es| ==> es0[i] == RW(0, es[i].remote, es[i].size)
  }

  lemma {:induction false} FillAllElsewhere(w: World, tick: nat, s: Tlb, dirBase: nat, es: seq<RW>, es0: seq<RW>)
    requires SameRemote(es, es0)
    ensures FillAll(w, tick, s, dirBase, es).1 == FillAll(w, tick, s, dirBase, es0).1 && Slots(es) == Slots(es0)
    decreases |es|
  {
    hide Fill, Pieces;
    if es != [] {
      var k := |es| - 1;
      FillAllElsewhere(w, tick, s, dirBase, es[..k], es0[..k]);
      FillElsewhere(w, tick + 5 * Slots(es[..k]), FillAll(w, tick, s, dirBase, es[..k]).1, dirBase,
                    es[k].remote, es[k].size, es[k].local);
    }
  }

  lemma RebasedInRange(f: Hole, ramSize: nat, cs: seq<RW>, k: nat)
    ensures AllInRange(f, ramSize, Rebased(cs, k)) <==> AllInRange(f, ramSize, cs)
  {
    hide Remap;
    forall i | 0 <= i < |cs| ensures InRange(f, ramSize, Rebased(cs, k)[i]) <==> InRange(f, ramSize, cs[i]) {
    }
    hide InRange;
  }

  /** The transfers `cs` of a batch from local memory are the lists of the values in effect. */
  ghost predicate ListsAgree(f: Hole, ram: seq<Byte>, host: seq<Byte>, cs: seq<RW>, queue: seq<Request>,
                             cls: seq<seq<RW>>) {
    && AllProper(f, |host|, |ram|, cs) && Served(f, |ram|, queue, cls)
    && (AllInRange(f, |ram|, cs) <==> AllInLists(f, |ram|, cls))
    && WriteAll(f, ram, host, cs).1 == CommitLists(f, ram, queue, cls)
  }

  /** One list more, in range so far or not. */
  lemma WriteAfter(f: Hole, ram: seq<Byte>, host: seq<Byte>, a: seq<RW>, k: nat, value: seq<Byte>, c: seq<RW>)
    requires AllProper(f, |host|, |ram|, a) && AllProper(f, |value|, |ram|, c)
    requires k + |value| <= |host| && host[k..k + |value|] == value
    ensures AllProper(f, |host|, |ram|, a + Rebased(c, k))
    ensures var ram1 := WriteAll(f, ram, host, a).1;
            WriteAll(f, ram, host, a + Rebased(c, k)).1
              == if AllInRange(f, |ram|, a) then WriteAll(f, ram1, value, c).1 else ram1
    ensures AllInRange(f, |ram|, a + Rebased(c, k)) <==> AllInRange(f, |ram|, a) && AllInRange(f, |ram|, c)
  {
    var ram1 := WriteAll(f, ram, host, a).1;
    WriteFromSlice(f, ram1, host, k, value, c);
    ProperConcat(f, |host|, |ram|, a, Rebased(c, k));
    hide Rebased, AllProper, AllInRange, WriteAll, Performed;
    if AllInRange(f, |ram|, a) {
      WriteConcat(f, ram, host, a, Rebased(c, k));
    } else {
      WriteIsPerformed(f, ram, host, a + Rebased(c, k));
      WriteIsPerformed(f, ram, host, a);
      PerformedConcat(f, |ram|, a, Rebased(c, k));
    }
    BatchBytes.RangeOfConcat(f, |ram|, a, Rebased(c, k));
    RebasedInRange(f, |ram|, c, k);
  }

  lemma ProperConcat(f: Hole, bufSize: nat, ramSize: nat, a: seq<RW>, b: seq<RW>)
    requires AllProper(f, bufSize, ramSize, a) && AllProper(f, bufSize, ramSize, b)
    ensures AllProper(f, bufSize, ramSize, a + b)
  {
    hide Proper;
  }

  lemma ServedNext(f: Hole, ramSize: nat, queue: seq<Request>, cls: seq<seq<RW>>, r: Request, c: seq<RW>)
    requires Served(f, ramSize, queue, cls) && AllProper(f, |r.value|, ramSize, c)
    ensures Served(f, ramSize, queue + [r], cls + [c])
    ensures AllInLists(f, ramSize, cls + [c]) <==> AllInLists(f, ramSize, cls) && AllInRange(f, ramSize, c)
  {
    hide AllProper, AllInRange;
    var cls' := cls + [c];
    if AllInLists(f, ramSize, cls') {
      forall i | 0 <= i < |cls| ensures AllInRange(f, ramSize, cls[i]) { assert cls'[i] == cls[i]; }
      assert cls'[|cls|] == c;
    }
  }

  lemma CommitListsNext(f: Hole, ram: seq<Byte>, queue: seq<Request>, cls: seq<seq<RW>>, r: Request, c: seq<RW>)
    requires Served(f, |ram|, queue, cls) && AllProper(f, |r.value|, |ram|, c)
    ensures Served(f, |ram|, queue + [r], cls + [c])
    ensures var front := CommitLists(f, ram, queue, cls);
            CommitLists(f, ram, queue + [r], cls + [c])
              == if AllInLists(f, |ram|, cls) then WriteAll(f, front, r.value, c).1 else front
    ensures CallLists(f, ram, queue + [r], cls + [c]) == WriteAll(f, CallLists(f, ram, queue, cls), r.value, c).1
  {
    ServedNext(f, |ram|, queue, cls, r, c);
    hide Served, AllProper, WriteAll, AllInLists;
    assert (queue + [r])[..|queue|] == queue && (cls + [c])[..|cls|] == cls;
  }

  lemma ListsAgreeNext(f: Hole, ram: seq<Byte>, host: seq<Byte>, cs: seq<RW>, queue: seq<Request>, cls: seq<seq<RW>>,
                       k: nat, r: Request, c: seq<RW>)
    requires ListsAgree(f, ram, host, cs, queue, cls) && AllProper(f, |r.value|, |ram|, c)
    requires k + |r.value| <= |host| && host[k..k + |r.value|] == r.value
    ensures ListsAgree(f, ram, host, cs + Rebased(c, k), queue + [r], cls + [c])
  {
    hide Rebased, AllProper, AllInRange, WriteAll, Served, AllInLists, CommitLists;
    WriteAfter(f, ram, host, cs, k, r.value, c);
    ServedNext(f, |ram|, queue, cls, r, c);
    CommitListsNext(f, ram, queue, cls, r, c);
  }

  lemma SameRemoteLast(es: seq<RW>, es0: seq<RW>, k: nat)
    requires |es| == k + 1 && SameRemote(es, es0)
    ensures |es0| == k + 1 && SameRemote(es[..k], es0[..k])
    ensures es[k] == RW(es[k].local, es[k].remote, es[k].size) && es0[k] == RW(0, es[k].remote, es[k].size)
  {
  }

  /** The last request of a batch, split by itself. */
  lemma LastSplit(w: World, tick: nat, s: Tlb, dirBase: nat, f: Hole, ramSize: nat, es: seq<RW>, es0: seq<RW>, k: nat)
      returns (c: seq<RW>)
    requires |es| == k + 1 && SameRemote(es, es0) && Fits(es[k].size, ramSize, es0[k])
    ensures AllProper(f, es[k].size, ramSize, c)
    ensures FillAll(w, tick, s, dirBase, es).0 == FillAll(w, tick, s, dirBase, es[..k]).0 + Rebased(c, es[k].local)
    ensures Splits(w, tick, s, dirBase, es0) == Splits(w, tick, s, dirBase, es0[..k]) + [c]
  {
    hide *;
    SameRemoteLast(es, es0, k);
    FillAllElsewhere(w, tick, s, dirBase, es[..k], es0[..k]);
    var now, s1 := tick + 5 * Slots(es[..k]), FillAll(w, tick, s, dirBase, es[..k]).1;
    c := Fill(w, now, s1, dirBase, es0[k]).0;
    FillAllLast(w, tick, s, dirBase, es, k);
    SplitsNext(w, tick, s, dirBase, es0, k, f, ramSize);
    FillElsewhere(w, now, s1, dirBase, es[k].remote, es[k].size, es[k].local);
    FillProper(w, now, s1, dirBase, es0[k], f, es[k].size, ramSize);
  }

  lemma FillAllLast(w: World, tick: nat, s: Tlb, dirBase: nat, es: seq<RW>, k: nat)
    requires |es| == k + 1
    ensures FillAll(w, tick, s, dirBase, es).0
         == FillAll(w, tick, s, dirBase, es[..k]).0
            + Fill(w, tick + 5 * Slots(es[..k]), FillAll(w, tick, s, dirBase, es[..k]).1, dirBase, es[k]).0
  {
    hide Fill, Slots;
  }

  lemma NothingQueued(w: World, tick: nat, s: Tlb, dirBase: nat, f: Hole, ram: seq<Byte>, host: seq<Byte>)
    ensures ListsAgree(f, ram, host, FillAll(w, tick, s, dirBase, []).0, [], Splits(w, tick, s, dirBase, []))
  {
    WriteNothing(f, ram, host, 0);
  }

  lemma ShortFront(ramSize: nat, queue: seq<Request>, k: nat)
    requires AllShort(ramSize, queue) && k <= |queue|
    ensures AllShort(ramSize, queue[..k])
  {
    forall i | 0 <= i < k ensures IsShort(ramSize, queue[..k][i]) {
      assert queue[..k][i] == queue[i];
    }
  }

  lemma LastInHost(es: seq<RW>, host: seq<Byte>, queue: seq<Request>, ramSize: nat, k: nat)
    requires InHost(es, host, queue) && AllShort(ramSize, queue) && |es| == k + 1
    ensures SameRemote(es, Requests(queue)) && Fits(es[k].size, ramSize, Requests(queue)[k])
    ensures InHost(es[..k], host, queue[..k]) && Requests(queue)[..k] == Requests(queue[..k])
    ensures es[k].remote == queue[k].address && es[k].size == |queue[k].value|
    ensures es[k].local + es[k].size <= |host| && host[es[k].local..es[k].local + es[k].size] == queue[k].value
  {
    assert IsShort(ramSize, queue[k]);
  }

  lemma HostCount(es: seq<RW>, host: seq<Byte>, queue: seq<Request>)
    requires InHost(es, host, queue)
    ensures |es| == |queue| && (es == [] ==> queue == [] && Requests(queue) == [])
  {
  }

  lemma {:induction false} BatchByLists(w: World, tick: nat, s: Tlb, dirBase: nat, f: Hole, ram: seq<Byte>,
                                        host: seq<Byte>,
                                        es: seq<RW>, queue: seq<Request>)
    requires InHost(es, host, queue) && AllShort(|ram|, queue)
    ensures ListsAgree(f, ram, host, FillAll(w, tick, s, dirBase, es).0, queue,
                       Splits(w, tick, s, dirBase, Requests(queue)))
    decreases |es|
  {
    hide *;
    HostCount(es, host, queue);
    if es == [] {
      NothingQueued(w, tick, s, dirBase, f, ram, host);
    } else {
      var k := |es| - 1;
      LastInHost(es, host, queue, |ram|, k);
      ShortFront(|ram|, queue, k);
      BatchByLists(w, tick, s, dirBase, f, ram, host, es[..k], queue[..k]);
      var c := LastSplit(w, tick, s, dirBase, f, |ram|, es, Requests(queue), k);
      ListsAgreeNext(f, ram, host, FillAll(w, tick, s, dirBase, es[..k]).0, queue[..k],
                     Splits(w, tick, s, dirBase, Requests(queue[..k])), es[k].local, queue[k], c);
      assert queue[..k] + [queue[k]] == queue;
    }
  }

  // ---- The calls in terms of the lists ----

  ghost predicate CallsAreLists(w: World, tick: nat, s: Tlb, dirBase: nat, f: Hole, ram: seq<Byte>, es0: seq<RW>,
                                queue: seq<Request>)
  {
    && AllShort(|ram|, queue) && Served(f, |ram|, queue, Splits(w, tick, s, dirBase, es0))
    && CallPieces(queue) == Slots(es0)
    && CallEach(w, tick, s, dirBase, f, ram, queue)
         == (CallLists(f, ram, queue, Splits(w, tick, s, dirBase, es0)), FillAll(w, tick, s, dirBase, es0).1)
  }

  lemma CallEachNext(w: World, tick: nat, s: Tlb, dirBase: nat, f: Hole, ram: seq<Byte>, queue: seq<Request>, k: nat)
    requires |queue| == k + 1 && AllShort(|ram|, queue)
    ensures CallPieces(queue) == CallPieces(queue[..k]) + |Pieces(queue[k].address, |queue[k].value|)|
    ensures var (ram1, s1) := CallEach(w, tick, s, dirBase, f, ram, queue[..k]);
            CallEach(w, tick, s, dirBase, f, ram, queue)
              == OneCall(w, tick + 5 * CallPieces(queue[..k]), s1, dirBase, f, ram1, queue[k])
  {
    hide OneCall, Pieces;
  }

  lemma CallsNext(w: World, tick: nat, s: Tlb, dirBase: nat, f: Hole, ram: seq<Byte>, es0: seq<RW>, queue: seq<Request>,
                  k: nat)
    requires |es0| == |queue| == k + 1 && es0[k] == RW(0, queue[k].address, |queue[k].value|)
    requires AllShort(|ram|, queue) && CallsAreLists(w, tick, s, dirBase, f, ram, es0[..k], queue[..k])
    ensures CallsAreLists(w, tick, s, dirBase, f, ram, es0, queue)
  {
    hide *;
    ShortLast(|ram|, queue, k);
    CallsMean(w, tick, s, dirBase, f, ram, es0[..k], queue[..k]);
    var cls := Splits(w, tick, s, dirBase, es0[..k]);
    var (ram1, s1) := CallEach(w, tick, s, dirBase, f, ram, queue[..k]);
    var now := tick + 5 * CallPieces(queue[..k]);
    assert queue[..k] + [queue[k]] == queue;
    CallEachNext(w, tick, s, dirBase, f, ram, queue, k);
    SlotsNext(es0, k);
    SplitsNext(w, tick, s, dirBase, es0, k, f, |ram|);
    OneCallSplit(w, now, s1, dirBase, f, ram1, queue[k]);
    CommitListsNext(f, ram, queue[..k], cls, queue[k], Fill(w, now, s1, dirBase, es0[k]).0);
    CallsIf(w, tick, s, dirBase, f, ram, es0, queue);
  }

  lemma ShortLast(ramSize: nat, queue: seq<Request>, k: nat)
    requires AllShort(ramSize, queue) && k < |queue|
    ensures Min(|queue[k].value|, 0x1000) <= ramSize < TWO_64
  {
    assert IsShort(ramSize, queue[k]);
  }

  lemma CallsMean(w: World, tick: nat, s: Tlb, dirBase: nat, f: Hole, ram: seq<Byte>, es0: seq<RW>, queue: seq<Request>)
    requires CallsAreLists(w, tick, s, dirBase, f, ram, es0, queue)
    ensures AllShort(|ram|, queue) && Served(f, |ram|, queue, Splits(w, tick, s, dirBase, es0))
    ensures CallPieces(queue) == Slots(es0)
    ensures CallEach(w, tick, s, dirBase, f, ram, queue)
         == (CallLists(f, ram, queue, Splits(w, tick, s, dirBase, es0)), FillAll(w, tick, s, dirBase, es0).1)
  {
    hide AllShort, Served, Splits, CallPieces, Slots, CallEach, CallLists, FillAll;
  }

  lemma CallsIf(w: World, tick: nat, s: Tlb, dirBase: nat, f: Hole, ram: seq<Byte>, es0: seq<RW>, queue: seq<Request>)
    requires AllShort(|ram|, queue) && Served(f, |ram|, queue, Splits(w, tick, s, dirBase, es0))
    requires CallPieces(queue) == Slots(es0)
    requires CallEach(w, tick, s, dirBase, f, ram, queue)
          == (CallLists(f, ram, queue, Splits(w, tick, s, dirBase, es0)), FillAll(w, tick, s, dirBase, es0).1)
    ensures CallsAreLists(w, tick, s, dirBase, f, ram, es0, queue)
  {
    hide AllShort, Served, Splits, CallPieces, Slots, CallEach, CallLists, FillAll;
  }

  lemma OneCallSplit(w: World, tick: nat, s: Tlb, dirBase: nat, f: Hole, ram: seq<Byte>, r: Request)
    requires Min(|r.value|, 0x1000) <= |ram| < TWO_64
    ensures var (c, s') := Fill(w, tick, s, dirBase, RW(0, r.address, |r.value|));
            AllProper(f, |r.value|, |ram|, c) &&
            OneCall(w, tick, s, dirBase, f, ram, r) == (WriteAll(f, ram, r.value, c).1, s')
  {
    hide Fill, WriteAll, AllProper, OneWrite, OneCall;
    OneCallIs(w, tick, s, dirBase, f, ram, r);
    OneWriteIs(w, tick, s, dirBase, f, ram, r.value, RW(0, r.address, |r.value|));
  }

  lemma SlotsNext(es: seq<RW>, k: nat)
    requires |es| == k + 1
    ensures Slots(es) == Slots(es[..k]) + |Pieces(es[k].remote, es[k].size)|
  {
    hide Pieces;
  }

  lemma NoCalls(w: World, tick: nat, s: Tlb, dirBase: nat, f: Hole, ram: seq<Byte>)
    ensures CallsAreLists(w, tick, s, dirBase, f, ram, [], [])
  {
  }

  lemma {:induction false} CallsByLists(w: World, tick: nat, s: Tlb, dirBase: nat, f: Hole, ram: seq<Byte>,
                                        es0: seq<RW>,
                                        queue: seq<Request>)
    requires es0 == Requests(queue) && AllShort(|ram|, queue)
    ensures CallsAreLists(w, tick, s, dirBase, f, ram, es0, queue)
    decreases |queue|
  {
    hide CallsAreLists;
    if queue == [] {
      NoCalls(w, tick, s, dirBase, f, ram);
    } else {
      var k := |queue| - 1;
      ShortFront(|ram|, queue, k);
      CallsByLists(w, tick, s, dirBase, f, ram, es0[..k], queue[..k]);
      CallsNext(w, tick, s, dirBase, f, ram, es0, queue, k);
    }
  }

  // ---- When both are the same ----

  /** After a refused transfer no nonempty value has its first transfer accepted. Only addresses and
      lengths matter, not the values. */
  predicate NothingLost(f: Hole, ramSize: nat, queue: seq<Request>, cls: seq<seq<RW>>)
    requires |cls| == |queue|
  {
    forall j :: 0 <= j < |queue| ==> !Lost(f, ramSize, queue, cls, j)
  }

  predicate Lost(f: Hole, ramSize: nat, queue: seq<Request>, cls: seq<seq<RW>>, j: nat)
    requires |cls| == |queue| && j < |queue|
  {
    !AllInLists(f, ramSize, cls[..j]) && Counts(f, ramSize, queue[j], cls[j])
  }

  /** The value by itself would change memory. */
  predicate Counts(f: Hole, ramSize: nat, r: Request, c: seq<RW>) {
    r.value != [] && Starts(f, ramSize, c)
  }

  /** Lists as the split makes them: empty transfers for an empty value, and a nonempty first one for
      any other. */
  predicate Shaped(queue: seq<Request>, cls: seq<seq<RW>>) {
    |cls| == |queue| && forall i :: 0 <= i < |queue| ==> ShapedFor(queue[i], cls[i])
  }

  predicate ShapedFor(r: Request, c: seq<RW>) {
    && (r.value == [] ==> forall i :: 0 <= i < |c| ==> c[i].size == 0)
    && (r.value != [] ==> c != [] && c[0].size >= 1)
  }

  lemma {:induction false} EmptyTransfers(f: Hole, ram: seq<Byte>, buf: seq<Byte>, cs: seq<RW>)
    requires AllProper(f, |buf|, |ram|, cs) && forall i :: 0 <= i < |cs| ==> cs[i].size == 0
    ensures WriteAll(f, ram, buf, cs).1 == ram
    decreases |cs|
  {
    if cs != [] && InRange(f, |ram|, cs[0]) {
      hide InRange, Proper, WriteChunk;
      WriteHead(f, ram, buf, cs);
      EmptyChunk(f, ram, buf, cs[0]);
      EmptyTransfers(f, ram, buf, cs[1..]);
    }
  }

  lemma NoEffect(f: Hole, ram: seq<Byte>, r: Request, c: seq<RW>)
    requires AllProper(f, |r.value|, |ram|, c) && ShapedFor(r, c) && !Counts(f, |ram|, r, c)
    ensures WriteAll(f, ram, r.value, c).1 == ram
  {
    hide InRange, Proper, WriteChunk;
    if r.value == [] { EmptyTransfers(f, ram, r.value, c); }
  }

  lemma ShapedFront(queue: seq<Request>, cls: seq<seq<RW>>, n: nat)
    requires Shaped(queue, cls) && n <= |queue|
    ensures Shaped(queue[..n], cls[..n])
  {
    hide ShapedFor;
  }

  lemma LostInFront(f: Hole, ramSize: nat, queue: seq<Request>, cls: seq<seq<RW>>, n: nat, j: nat)
    requires |cls| == |queue| && j < n <= |queue|
    ensures Lost(f, ramSize, queue[..n], cls[..n], j) <==> Lost(f, ramSize, queue, cls, j)
  {
    assert cls[..n][..j] == cls[..j];
  }

  /** With nothing lost the two agree, for all values. */
  lemma {:induction false} KeepsAll(f: Hole, ram: seq<Byte>, queue: seq<Request>, cls: seq<seq<RW>>)
    requires Served(f, |ram|, queue, cls) && Shaped(queue, cls) && NothingLost(f, |ram|, queue, cls)
    ensures CommitLists(f, ram, queue, cls) == CallLists(f, ram, queue, cls)
    decreases |queue|
  {
    if queue != [] {
      var n := |queue| - 1;
      ServedFront(f, |ram|, queue, cls, n);
      ShapedFront(queue, cls, n);
      hide WriteAll, AllProper, AllInLists, Counts, ShapedFor;
      forall j | 0 <= j < n ensures !Lost(f, |ram|, queue[..n], cls[..n], j) {
        LostInFront(f, |ram|, queue, cls, n, j);
      }
      KeepsAll(f, ram, queue[..n], cls[..n]);
      assert !Lost(f, |ram|, queue, cls, n);
      if !AllInLists(f, |ram|, cls[..n]) {
        NoEffect(f, CallLists(f, ram, queue[..n], cls[..n]), queue[n], cls[n]);
      }
    }
  }

  // The other half: zeros everywhere, and ones in the last value that would be lost.

  function Const(n: nat, x: Byte): (b: seq<Byte>)
    ensures |b| == n && forall i :: 0 <= i < n ==> b[i] == x
  {
    seq(n, _ => x)
  }

  predicate AllAre(b: seq<Byte>, x: Byte) {
    forall i :: 0 <= i < |b| ==> b[i] == x
  }

  lemma OneKeeps(f: Hole, ram: seq<Byte>, buf: seq<Byte>, c: RW, x: Byte, y: nat)
    requires Proper(f, |buf|, |ram|, c) && InRange(f, |ram|, c) && AllAre(buf, x) && y < |ram| && ram[y] == x
    ensures WriteChunk(f, ram, buf, c)[y] == x
  {
    hide InRange, Remap;
    var r := Remap(f, c.remote);
    if r <= y < r + c.size { assert buf[c.local..c.local + c.size][y - r] == buf[c.local + (y - r)]; }
  }

  /** A byte that already has the value everywhere in the source keeps it. */
  lemma {:induction false} ByteStays(f: Hole, ram: seq<Byte>, buf: seq<Byte>, cs: seq<RW>, x: Byte, y: nat)
    requires AllProper(f, |buf|, |ram|, cs) && AllAre(buf, x) && y < |ram| && ram[y] == x
    ensures WriteAll(f, ram, buf, cs).1[y] == x
    decreases |cs|
  {
    if cs != [] && InRange(f, |ram|, cs[0]) {
      hide InRange, Proper, WriteChunk, AllAre;
      WriteHead(f, ram, buf, cs);
      OneKeeps(f, ram, buf, cs[0], x, y);
      ByteStays(f, WriteChunk(f, ram, buf, cs[0]), buf, cs[1..], x, y);
    }
  }

  lemma AllStay(f: Hole, ram: seq<Byte>, buf: seq<Byte>, cs: seq<RW>, x: Byte)
    requires AllProper(f, |buf|, |ram|, cs) && AllAre(buf, x) && AllAre(ram, x)
    ensures AllAre(WriteAll(f, ram, buf, cs).1, x)
  {
    hide WriteAll, AllProper;
    forall y | 0 <= y < |ram| ensures WriteAll(f, ram, buf, cs).1[y] == x { ByteStays(f, ram, buf, cs, x, y); }
  }

  /** The first byte of a nonempty list that starts arrives. */
  lemma FirstArrives(f: Hole, ram: seq<Byte>, buf: seq<Byte>, cs: seq<RW>, x: Byte)
    requires AllProper(f, |buf|, |ram|, cs) && AllAre(buf, x) && Starts(f, |ram|, cs) && cs[0].size >= 1
    ensures var y := Remap(f, cs[0].remote); y < |ram| && WriteAll(f, ram, buf, cs).1[y] == x
  {
    var c := cs[0];
    var y := Remap(f, c.remote);
    assert Proper(f, |buf|, |ram|, c);
    assert Targets(f, c, y);
    assert c.local < |buf| && buf[c.local] == x;
    hide Remap, InRange, WriteAll, WriteChunk, Proper, Targets, AllAre;
    WriteHead(f, ram, buf, cs);
    WriteChunkByte(f, ram, buf, c, y);
    ByteStays(f, WriteChunk(f, ram, buf, c), buf, cs[1..], x, y);
  }

  /** The same addresses and lengths. */
  predicate SameShape(q: seq<Request>, queue: seq<Request>) {
    |q| == |queue| && forall i :: 0 <= i < |q| ==> q[i].address == queue[i].address && |q[i].value| == |queue[i].value|
  }

  /** The queue with ones as value j and zeros as every other. */
  function Marked(queue: seq<Request>, j: nat): (q: seq<Request>)
    ensures SameShape(q, queue)
    ensures forall i :: 0 <= i < |q| ==> AllAre(q[i].value, if i == j then 1 else 0)
  {
    seq(|queue|, i requires 0 <= i < |queue| =>
          Request(queue[i].address, Const(|queue[i].value|, if i == j then 1 else 0)))
  }

  lemma {:induction false} LastLost(f: Hole, ramSize: nat, queue: seq<Request>, cls: seq<seq<RW>>,
                                    n: nat) returns (j: nat)
    requires |cls| == |queue| && n <= |queue| && exists k :: 0 <= k < n && Lost(f, ramSize, queue, cls, k)
    ensures j < n && Lost(f, ramSize, queue, cls, j)
    ensures forall k :: j < k < n ==> !Lost(f, ramSize, queue, cls, k)
    decreases n
  {
    hide Lost;
    if Lost(f, ramSize, queue, cls, n - 1) {
      j := n - 1;
    } else {
      j := LastLost(f, ramSize, queue, cls, n - 1);
    }
  }

  lemma RefusedStays(f: Hole, ramSize: nat, cls: seq<seq<RW>>, i: nat, k: nat)
    requires i <= k <= |cls| && !AllInLists(f, ramSize, cls[..i])
    ensures !AllInLists(f, ramSize, cls[..k])
  {
    hide AllInRange;
    var x :| 0 <= x < i && !AllInRange(f, ramSize, cls[..i][x]);
    assert cls[..k][x] == cls[..i][x];
  }

  /** The commit of the marked queue leaves zeros. */
  lemma {:induction false} CommitLeavesZeros(f: Hole, ram: seq<Byte>, q: seq<Request>, cls: seq<seq<RW>>, j: nat,
                                             n: nat)
    requires Served(f, |ram|, q, cls) && AllAre(ram, 0) && n <= |q| && j < |q| && !AllInLists(f, |ram|, cls[..j])
    requires forall i :: 0 <= i < |q| && i != j ==> AllAre(q[i].value, 0)
    ensures Served(f, |ram|, q[..n], cls[..n]) && AllAre(CommitLists(f, ram, q[..n], cls[..n]), 0)
    decreases n
  {
    ServedFront(f, |ram|, q, cls, n);
    hide WriteAll, AllProper, AllInLists, AllAre;
    if n > 0 {
      CommitLeavesZeros(f, ram, q, cls, j, n - 1);
      assert q[..n][..n - 1] == q[..n - 1] && cls[..n][..n - 1] == cls[..n - 1];
      if n - 1 != j {
        AllStay(f, CommitLists(f, ram, q[..n - 1], cls[..n - 1]), q[n - 1].value, cls[n - 1], 0);
      }
    }
  }

  /** The calls leave a one where value j starts. */
  lemma {:induction false} CallsLeaveOne(f: Hole, ram: seq<Byte>, q: seq<Request>, cls: seq<seq<RW>>, j: nat, n: nat)
    requires Served(f, |ram|, q, cls) && Shaped(q, cls) && j < n <= |q| && AllAre(q[j].value, 1)
    requires Counts(f, |ram|, q[j], cls[j])
    requires forall k :: j < k < |q| ==> !Counts(f, |ram|, q[k], cls[k])
    ensures Served(f, |ram|, q[..n], cls[..n])
    ensures var y := Remap(f, cls[j][0].remote); y < |ram| && CallLists(f, ram, q[..n], cls[..n])[y] == 1
    decreases n
  {
    assert ShapedFor(q[n - 1], cls[n - 1]);
    assert n - 1 == j ==> Starts(f, |ram|, cls[j]) && cls[j][0].size >= 1;
    ServedFront(f, |ram|, q, cls, n);
    ServedFront(f, |ram|, q, cls, n - 1);
    hide WriteAll, AllProper, AllAre, Counts, Remap, ShapedFor, Starts;
    assert q[..n][..n - 1] == q[..n - 1] && cls[..n][..n - 1] == cls[..n - 1];
    var front := CallLists(f, ram, q[..n - 1], cls[..n - 1]);
    if n - 1 == j {
      FirstArrives(f, front, q[j].value, cls[j], 1);
    } else {
      CallsLeaveOne(f, ram, q, cls, j, n - 1);
      NoEffect(f, front, q[n - 1], cls[n - 1]);
    }
  }

  lemma MarkedShape(f: Hole, ramSize: nat, queue: seq<Request>, q: seq<Request>, cls: seq<seq<RW>>)
    requires Served(f, ramSize, queue, cls) && Shaped(queue, cls) && SameShape(q, queue)
    ensures Served(f, ramSize, q, cls) && Shaped(q, cls)
    ensures forall k :: 0 <= k < |q| ==> (Counts(f, ramSize, q[k], cls[k]) <==> Counts(f, ramSize, queue[k], cls[k]))
  {
    hide Proper, Starts;
    forall k | 0 <= k < |q|
      ensures AllProper(f, |q[k].value|, ramSize, cls[k]) && ShapedFor(q[k], cls[k])
      ensures Counts(f, ramSize, q[k], cls[k]) <==> Counts(f, ramSize, queue[k], cls[k])
    {
      assert AllProper(f, |queue[k].value|, ramSize, cls[k]) && ShapedFor(queue[k], cls[k]);
    }
  }

  /** With something lost there are values of the same lengths, and contents of RAM, for which the two
      differ. */
  lemma LosesSome(f: Hole, ramSize: nat, queue: seq<Request>, cls: seq<seq<RW>>) returns (ram: seq<Byte>,
                  q: seq<Request>)
    requires Served(f, ramSize, queue, cls) && Shaped(queue, cls) && !NothingLost(f, ramSize, queue, cls)
    ensures |ram| == ramSize && SameShape(q, queue) && Served(f, ramSize, q, cls)
    ensures CommitLists(f, ram, q, cls) != CallLists(f, ram, q, cls)
  {
    var n := |queue|;
    var j := LastLost(f, ramSize, queue, cls, n);
    assert Counts(f, ramSize, queue[j], cls[j]) && !AllInLists(f, ramSize, cls[..j]);
    forall k | j < k < n ensures !Counts(f, ramSize, queue[k], cls[k]) {
      RefusedStays(f, ramSize, cls, j, k);
      assert !Lost(f, ramSize, queue, cls, k);
    }
    ram, q := Const(ramSize, 0), Marked(queue, j);
    MarkedShape(f, ramSize, queue, q, cls);
    assert AllAre(ram, 0) && q[..n] == q && cls[..n] == cls;
    hide Served, Shaped, AllInLists, Counts, Lost, NothingLost, CommitLists, CallLists, SameShape;
    CommitLeavesZeros(f, ram, q, cls, j, n);
    CallsLeaveOne(f, ram, q, cls, j, n);
    hide Remap;
    var y := Remap(f, cls[j][0].remote);
    assert CommitLists(f, ram, q, cls)[y] == 0;
  }

  // ---- Commit and calls ----

  lemma FillShaped(w: World, tick: nat, s: Tlb, dirBase: nat, r: Request, ramSize: nat)
    requires Min(|r.value|, 0x1000) <= ramSize < TWO_64
    ensures ShapedFor(r, Fill(w, tick, s, dirBase, RW(0, r.address, |r.value|)).0)
  {
    hide TranslateAll, Translate;
    var e := RW(0, r.address, |r.value|);
    var vs := TranslateAll(w, tick, s, dirBase, e.remote, Pieces(e.remote, e.size)).0;
    ChunksProper(Q35, e, vs, |r.value|, ramSize);
  }

  lemma ShapedNext(queue: seq<Request>, cls: seq<seq<RW>>, r: Request, c: seq<RW>)
    requires Shaped(queue, cls) && ShapedFor(r, c)
    ensures Shaped(queue + [r], cls + [c])
  {
    hide ShapedFor;
  }

  lemma {:induction false} SplitsShaped(w: World, tick: nat, s: Tlb, dirBase: nat, queue: seq<Request>, ramSize: nat)
    requires AllShort(ramSize, queue)
    ensures Shaped(queue, Splits(w, tick, s, dirBase, Requests(queue)))
    decreases |queue|
  {
    if queue != [] {
      var k := |queue| - 1;
      ShortFront(ramSize, queue, k);
      ShortLast(ramSize, queue, k);
      var es0 := Requests(queue);
      assert es0[k] == RW(0, queue[k].address, |queue[k].value|);
      assert es0[..k] == Requests(queue[..k]) && queue[..k] + [queue[k]] == queue;
      hide *;
      SplitsShaped(w, tick, s, dirBase, queue[..k], ramSize);
      SplitsNext(w, tick, s, dirBase, es0, k, Q35, ramSize);
      var now, s1 := tick + 5 * Slots(es0[..k]), FillAll(w, tick, s, dirBase, es0[..k]).1;
      FillShaped(w, now, s1, dirBase, queue[k], ramSize);
      ShapedNext(queue[..k], Splits(w, tick, s, dirBase, es0[..k]), queue[k], Fill(w, now, s1, dirBase, es0[k]).0);
    }
  }

  lemma SameRequests(q: seq<Request>, queue: seq<Request>, ramSize: nat)
    requires SameShape(q, queue)
    ensures Requests(q) == Requests(queue) && (AllShort(ramSize, queue) ==> AllShort(ramSize, q))
  {
    if AllShort(ramSize, queue) {
      forall i | 0 <= i < |q| ensures IsShort(ramSize, q[i]) {
        assert IsShort(ramSize, queue[i]);
      }
    }
  }

  /** A queue as it is committed: the slices and the buffer they tile, and local memory with the
      buffer's storage at `bufmem`. */
  datatype Commitment = Commitment(list: seq<RW>, buffer: seq<Byte>, queue: seq<Request>, host: seq<Byte>, bufmem: nat)

  ghost predicate Stored(c: Commitment) {
    && Tiles(c.list, c.buffer, c.queue)
    && c.bufmem + |c.buffer| <= |c.host| && c.host[c.bufmem..c.bufmem + |c.buffer|] == c.buffer
  }

  /** Commit leaves guest RAM as one VMemWrite per value does, from the same cache and tick. */
  ghost predicate SameRam(w: World, tick: nat, s: Tlb, dirBase: nat, f: Hole, ram: seq<Byte>, c: Commitment) {
    var cs := FillAll(w, tick, s, dirBase, Rebased(c.list, c.bufmem)).0;
    AllProper(f, |c.host|, |ram|, cs) && AllShort(|ram|, c.queue)
    && WriteAll(f, ram, c.host, cs).1 == CallEach(w, tick, s, dirBase, f, ram, c.queue).0
  }

  /** Both in terms of the lists of the values. */
  lemma SameRamByLists(w: World, tick: nat, s: Tlb, dirBase: nat, f: Hole, ram: seq<Byte>, c: Commitment,
                       cls: seq<seq<RW>>)
    requires Stored(c) && AllShort(|ram|, c.queue) && cls == Splits(w, tick, s, dirBase, Requests(c.queue))
    ensures Served(f, |ram|, c.queue, cls)
    ensures SameRam(w, tick, s, dirBase, f, ram, c)
            <==> CommitLists(f, ram, c.queue, cls) == CallLists(f, ram, c.queue, cls)
  {
    TilesInHost(c.list, c.buffer, c.queue, c.host, c.bufmem);
    hide Tiles, InHost, AllShort, Served, FillAll, Splits, Rebased, WriteAll, CallEach, CommitLists, CallLists,
         AllProper, AllInRange, AllInLists, Requests, CallPieces, Slots;
    BatchByLists(w, tick, s, dirBase, f, ram, c.host, Rebased(c.list, c.bufmem), c.queue);
    CallsByLists(w, tick, s, dirBase, f, ram, Requests(c.queue), c.queue);
  }

  /** What writing the values into an empty queue stores. */
  lemma {:induction false} StoreAll(queue: seq<Request>) returns (list: seq<RW>, buffer: seq<Byte>)
    ensures Tiles(list, buffer, queue)
    decreases |queue|
  {
    if queue == [] {
      list, buffer := [], [];
    } else {
      var k := |queue| - 1;
      var list0, buffer0 := StoreAll(queue[..k]);
      PushTiles(list0, buffer0, queue[..k], queue[k]);
      assert queue[..k] + [queue[k]] == queue;
      list := list0 + [RW(|buffer0|, queue[k].address, |queue[k].value|)];
      buffer := buffer0 + queue[k].value;
      hide Tiles;
    }
  }

  /** Whatever the page tables and the cache, committing equals the writes one by one, for all values of
      given addresses and lengths and all contents of RAM, exactly if after a refused transfer no
      nonempty value has its first transfer accepted. */
  lemma CommitExactly(w: World, tick: nat, s: Tlb, dirBase: nat, f: Hole, ramSize: nat, queue: seq<Request>)
    requires AllShort(ramSize, queue)
    ensures (forall ram: seq<Byte>, c: Commitment :: |ram| == ramSize && Stored(c) && SameShape(c.queue, queue) ==>
               SameRam(w, tick, s, dirBase, f, ram, c))
            <==> NothingLost(f, ramSize, queue, Splits(w, tick, s, dirBase, Requests(queue)))
  {
    var cls := Splits(w, tick, s, dirBase, Requests(queue));
    SplitsShaped(w, tick, s, dirBase, queue, ramSize);
    hide *;
    if NothingLost(f, ramSize, queue, cls) {
      forall ram: seq<Byte>, c: Commitment | |ram| == ramSize && Stored(c) && SameShape(c.queue, queue)
        ensures SameRam(w, tick, s, dirBase, f, ram, c)
      {
        SameRequests(c.queue, queue, ramSize);
        SameRamByLists(w, tick, s, dirBase, f, ram, c, cls);
        SplitsShaped(w, tick, s, dirBase, c.queue, ramSize);
        SameLoss(f, ramSize, queue, c.queue, cls);
        KeepsAll(f, ram, c.queue, cls);
      }
    } else {
      var ram, c := CommitLoses(w, tick, s, dirBase, f, ramSize, queue);
    }
  }

  lemma SameLoss(f: Hole, ramSize: nat, queue: seq<Request>, q: seq<Request>, cls: seq<seq<RW>>)
    requires SameShape(q, queue) && |cls| == |queue| && NothingLost(f, ramSize, queue, cls)
    ensures NothingLost(f, ramSize, q, cls)
  {
    hide AllInLists, Starts;
    forall j | 0 <= j < |q| ensures !Lost(f, ramSize, q, cls, j) {
      assert !Lost(f, ramSize, queue, cls, j);
    }
  }

  /** Contents of RAM and a stored queue for which a value is lost. */
  lemma CommitLoses(w: World, tick: nat, s: Tlb, dirBase: nat, f: Hole, ramSize: nat, queue: seq<Request>)
      returns (ram: seq<Byte>, c: Commitment)
    requires AllShort(ramSize, queue)
    requires !NothingLost(f, ramSize, queue, Splits(w, tick, s, dirBase, Requests(queue)))
    ensures |ram| == ramSize && Stored(c) && SameShape(c.queue, queue) && !SameRam(w, tick, s, dirBase, f, ram, c)
  {
    var cls := Splits(w, tick, s, dirBase, Requests(queue));
    hide *;
    SplitsShaped(w, tick, s, dirBase, queue, ramSize);
    QueueServed(w, tick, s, dirBase, f, ramSize, queue);
    var q;
    ram, q := LosesSome(f, ramSize, queue, cls);
    var list, buffer := StoreAll(q);
    c := Commitment(list, buffer, q, buffer, 0);
    StoredAlone(c);
    SameRequests(q, queue, ramSize);
    SameRamByLists(w, tick, s, dirBase, f, ram, c, cls);
  }

  lemma StoredAlone(c: Commitment)
    requires Tiles(c.list, c.buffer, c.queue) && c.host == c.buffer && c.bufmem == 0
    ensures Stored(c)
  {
    hide Tiles;
    assert c.host[0..0 + |c.buffer|] == c.buffer;
  }

  lemma QueueServed(w: World, tick: nat, s: Tlb, dirBase: nat, f: Hole, ramSize: nat, queue: seq<Request>)
    requires AllShort(ramSize, queue)
    ensures Served(f, ramSize, queue, Splits(w, tick, s, dirBase, Requests(queue)))
  {
    hide *;
    var ram := Const(ramSize, 0);
    CallsByLists(w, tick, s, dirBase, f, ram, Requests(queue), queue);
    CallsMean(w, tick, s, dirBase, f, ram, Requests(queue), queue);
  }
}
