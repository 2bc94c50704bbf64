/** Transfers through process_vm_readv and process_vm_writev, which take at most __IOV_MAX
    segments a call. A call's outcome is a parameter: the k-th call returns `results(k)`. */
module IovBatch {
  import opened Arrays
  import opened Bits
  import opened Splitter
  import opened PhysMem

  const IOV_MAX: nat := 1024

  /** One segment: its local and its remote iovec. */
  datatype Iov = Iov(local: nat, remote: nat, len: nat)

  function ToIov(f: Hole, mapsStart: nat, c: RW): Iov {
    Iov(c.local, Wrap64(mapsStart + Remap(f, c.remote)), c.size)
  }

  function ToIovs(f: Hole, mapsStart: nat, cs: seq<RW>): (r: seq<Iov>)
    ensures |r| == |cs|
  {
    seq(|cs|, i requires 0 <= i < |cs| => ToIov(f, mapsStart, cs[i]))
  }

  /** The segments in groups of IOV_MAX, the last group possibly smaller. */
  function Batches(xs: seq<Iov>): seq<seq<Iov>>
    decreases |xs|
  {
    if xs == [] then []
    else if |xs| <= IOV_MAX then [xs]
    else [xs[..IOV_MAX]] + Batches(xs[IOV_MAX..])
  }

  /** The calls made from the k-th on: all batches, or those up to the first failing call. */
  function Issued(bs: seq<seq<Iov>>, results: nat -> int, k: nat): seq<seq<Iov>>
    decreases |bs|
  {
    if bs == [] then []
    else if results(k) == -1 then [bs[0]]
    else [bs[0]] + Issued(bs[1..], results, k + 1)
  }

  /** The result of the last call, or 0 if there was none. */
  function LastResult(calls: seq<seq<Iov>>, results: nat -> int): int {
    if calls == [] then 0 else results(|calls| - 1)
  }

  method MemReadMul(f: Hole, mapsStart: nat, rdata: array<RW>, num: nat, results: nat -> int)
      returns (ret: int, calls: seq<seq<Iov>>)
    requires num <= rdata.Length
    ensures calls == Issued(Batches(ToIovs(f, mapsStart, rdata[..num])), results, 0)
    ensures ret == LastResult(calls, results)
  {
    hide Batches, Issued, ToIov, SentSoFar, LastResult;
    ghost var xs := ToIovs(f, mapsStart, rdata[..num]);
    var segments := new Iov[IOV_MAX](_ => Iov(0, 0, 0));
    var startRead := 0;
    ret, calls := 0, [];
    SendNothing(xs, results);

    for i := 0 to num
      invariant startRead <= i && i - startRead < IOV_MAX
      invariant segments[..i - startRead] == xs[startRead..i]
      invariant SentSoFar(xs, results, startRead, ret, calls)
    {
      Put(segments, i - startRead, ToIov(f, mapsStart, rdata[i]));
      assert xs[startRead..i + 1] == xs[startRead..i] + [xs[i]];
      if i - startRead + 1 >= IOV_MAX {
        SendFull(xs, results, startRead, ret, calls);
        assert segments[..] == segments[..i + 1 - startRead];
        ret := results(|calls|);
        calls := calls + [segments[..]];
        if ret == -1 { return; }
        startRead := i + 1;
      }
    }
    SendRest(xs, results, startRead, ret, calls);
    if num != startRead {
      assert xs[startRead..] == xs[startRead..num];
      ret := results(|calls|);
      calls := calls + [segments[..num - startRead]];
    }
  }

  /** The segments before `start` have been sent and no call has failed. */
  ghost predicate SentSoFar(xs: seq<Iov>, results: nat -> int, start: nat, ret: int, calls: seq<seq<Iov>>) {
    && start <= |xs| && ret == LastResult(calls, results) && (calls != [] ==> ret != -1)
    && Issued(Batches(xs), results, 0) == calls + Issued(Batches(xs[start..]), results, |calls|)
  }

  lemma SendNothing(xs: seq<Iov>, results: nat -> int)
    ensures SentSoFar(xs, results, 0, 0, [])
  {
    assert xs[0..] == xs;
  }

  lemma SendFull(xs: seq<Iov>, results: nat -> int, start: nat, ret: int, calls: seq<seq<Iov>>)
    requires SentSoFar(xs, results, start, ret, calls) && start + IOV_MAX <= |xs|
    ensures var ret', calls' := results(|calls|), calls + [xs[start..start + IOV_MAX]];
            if ret' == -1 then calls' == Issued(Batches(xs), results, 0) && ret' == LastResult(calls', results)
            else SentSoFar(xs, results, start + IOV_MAX, ret', calls')
  {
    hide Batches, Issued;
    FullBatch(xs, start, results, |calls|);
    var batch, rest := [xs[start..start + IOV_MAX]], Issued(Batches(xs[start + IOV_MAX..]), results, |calls| + 1);
    assert calls + (batch + rest) == calls + batch + rest;
  }

  lemma SendRest(xs: seq<Iov>, results: nat -> int, start: nat, ret: int, calls: seq<seq<Iov>>)
    requires SentSoFar(xs, results, start, ret, calls) && |xs| - start <= IOV_MAX
    ensures var calls' := calls + if start == |xs| then [] else [xs[start..]];
            && calls' == Issued(Batches(xs), results, 0)
            && LastResult(calls', results) == if start == |xs| then ret else results(|calls|)
  {
    hide Batches, Issued;
    if start == |xs| {
      assert xs[start..] == [];
      NoBatch(results, |calls|);
    } else {
      LastBatch(xs[start..], results, |calls|);
    }
  }

  lemma NoBatch(results: nat -> int, k: nat)
    ensures Issued(Batches([]), results, k) == []
  {
  }

  lemma FullBatch(xs: seq<Iov>, start: nat, results: nat -> int, k: nat)
    requires start + IOV_MAX <= |xs|
    ensures Issued(Batches(xs[start..]), results, k)
         == [xs[start..start + IOV_MAX]] +
            if results(k) == -1 then [] else Issued(Batches(xs[start + IOV_MAX..]), results, k + 1)
  {
    assert xs[start..][..IOV_MAX] == xs[start..start + IOV_MAX];
    assert xs[start..][IOV_MAX..] == xs[start + IOV_MAX..];
    if |xs[start..]| == IOV_MAX {
      assert xs[start..] == xs[start..start + IOV_MAX];
    }
  }

  lemma LastBatch(xs: seq<Iov>, results: nat -> int, k: nat)
    requires 0 < |xs| <= IOV_MAX
    ensures Issued(Batches(xs), results, k) == [xs]
  {
  }

  /** For at most IOV_MAX segments; see WriteIndicesFit for why not more. */
  method MemWriteMul(f: Hole, mapsStart: nat, wdata: array<RW>, num: nat, results: nat -> int)
      returns (ret: int, calls: seq<seq<Iov>>)
    requires num <= wdata.Length && num <= IOV_MAX
    ensures calls == Batches(ToIovs(f, mapsStart, wdata[..num]))
    ensures ret == LastResult(calls, results)
  {
    ghost var xs := ToIovs(f, mapsStart, wdata[..num]);
    var segments := new Iov[IOV_MAX](_ => Iov(0, 0, 0));
    var startWrite := 0;
    ret, calls := 0, [];
    for i := 0 to num
      invariant startWrite == 0 && calls == [] && ret == 0
      invariant segments[..i] == xs[..i]
    {
      Put(segments, i - startWrite, ToIov(f, mapsStart, wdata[i]));
      assert xs[..i + 1] == xs[..i] + [xs[i]];
      if i - startWrite >= IOV_MAX {
        assert false;  // the flush is never reached for so few entries
      }
    }
    if num != startWrite {
      ret := results(|calls|);
      calls := calls + [segments[..num - startWrite]];
      assert segments[..num] == xs;
    }
  }

  // ---- What the batches are ----

  function Concat(bs: seq<seq<Iov>>): seq<Iov> {
    if bs == [] then [] else bs[0] + Concat(bs[1..])
  }

  /** The batches are the segments in order, none lost or repeated; none is empty or too long,
      and all but the last are full. */
  lemma {:induction false} BatchesPartition(xs: seq<Iov>)
    ensures Concat(Batches(xs)) == xs
    ensures forall k :: 0 <= k < |Batches(xs)| ==> 1 <= |Batches(xs)[k]| <= 1024
    ensures forall k :: 0 <= k < |Batches(xs)| - 1 ==> |Batches(xs)[k]| == 1024
    decreases |xs|
  {
    if |xs| > IOV_MAX {
      var rest := Batches(xs[IOV_MAX..]);
      BatchesPartition(xs[IOV_MAX..]);
      assert Batches(xs)[1..] == rest;
      assert xs[..IOV_MAX] + xs[IOV_MAX..] == xs;
      assert rest != [];
    }
  }

  /** The calls are the first batches; all of them if no call fails, and otherwise those up to
      and including the first that does. */
  lemma {:induction false} IssuedIsPrefix(bs: seq<seq<Iov>>, results: nat -> int, k: nat)
    ensures var n := |Issued(bs, results, k)|;
            && n <= |bs| && Issued(bs, results, k) == bs[..n]
            && (forall i :: k <= i < k + n - 1 ==> results(i) != -1)
            && (n < |bs| ==> n >= 1 && results(k + n - 1) == -1)
    decreases |bs|
  {
    if bs != [] && results(k) != -1 {
      IssuedIsPrefix(bs[1..], results, k + 1);
      var n := |Issued(bs[1..], results, k + 1)|;
      assert bs[..n + 1] == [bs[0]] + bs[1..][..n];
    }
  }

  // ---- The value returned ----

  function Length(xs: seq<Iov>): nat {
    if xs == [] then 0 else xs[0].len + Length(xs[1..])
  }

  lemma {:induction false} LengthOfConcat(a: seq<Iov>, b: seq<Iov>)
    ensures Length(a + b) == Length(a) + Length(b)
    decreases |a|
  {
    if a == [] {
      assert a + b == b;
    } else {
      assert (a + b)[0] == a[0] && (a + b)[1..] == a[1..] + b;
      LengthOfConcat(a[1..], b);
    }
  }

  lemma {:induction false} LengthPositive(xs: seq<Iov>)
    requires xs != [] && forall i :: 0 <= i < |xs| ==> xs[i].len >= 1
    ensures Length(xs) >= 1
  {
  }

  /** When every call moves all its bytes, the value returned is that of the last batch alone. For
      nonempty segments it is the total exactly when there is at most one batch. */
  lemma ReturnIsTotalExactly(xs: seq<Iov>, results: nat -> int)
    requires forall i :: 0 <= i < |xs| ==> xs[i].len >= 1
    requires forall k :: 0 <= k < |Batches(xs)| ==> results(k) == Length(Batches(xs)[k])
    ensures Issued(Batches(xs), results, 0) == Batches(xs)
    ensures LastResult(Batches(xs), results) == Length(xs) <==> |xs| <= IOV_MAX
  {
    AllIssued(Batches(xs), results);
    if |xs| > IOV_MAX {
      hide Batches, Length, Issued;
      LastBatchShort(xs);
    } else {
      hide Length, Issued;
      assert Batches(xs) == if xs == [] then [] else [xs];
      EmptyLength();
    }
  }

  lemma EmptyLength()
    ensures Length([]) == 0
  {
  }

  lemma AllIssued(bs: seq<seq<Iov>>, results: nat -> int)
    requires forall k :: 0 <= k < |bs| ==> results(k) == Length(bs[k])
    ensures Issued(bs, results, 0) == bs
  {
    IssuedIsPrefix(bs, results, 0);
  }

  lemma LastBatchShort(xs: seq<Iov>)
    requires |xs| > IOV_MAX && forall i :: 0 <= i < |xs| ==> xs[i].len >= 1
    ensures Batches(xs) != [] && Length(Batches(xs)[|Batches(xs)| - 1]) < Length(xs)
  {
    var first, rest := xs[..IOV_MAX], xs[IOV_MAX..];
    var bs := Batches(rest);
    BatchesPartition(rest);
    assert bs != [];
    assert Batches(xs) == [first] + bs;
    assert xs == first + rest;
    hide Batches, Length, Concat;
    LengthOfConcat(first, rest);
    LengthPositive(first);
    LastAtMostAll(bs, |bs| - 1);
  }

  lemma {:induction false} LastAtMostAll(bs: seq<seq<Iov>>, k: nat)
    requires k < |bs|
    ensures Length(bs[k]) <= Length(Concat(bs))
    decreases k
  {
    LengthOfConcat(bs[0], Concat(bs[1..]));
    if k > 0 { LastAtMostAll(bs[1..], k - 1); }
  }

  // ---- The late flush of the write loop ----

  /** The value of startWrite when entry `i` is stored, if no call fails. */
  function StartWrite(i: nat): (s: nat)
    ensures s <= i && i - s <= IOV_MAX
  {
    if i == 0 then 0
    else
      var s := StartWrite(i - 1);
      if i - 1 - s >= IOV_MAX then i else s
  }

  lemma {:induction false} NoFlushYet(i: nat)
    requires i <= IOV_MAX
    ensures StartWrite(i) == 0
  {
    if i > 0 { NoFlushYet(i - 1); }
  }

  /** The write loop stores every entry inside its arrays exactly for lists of at most IOV_MAX
      entries: its flush test comes one entry late. */
  lemma WriteIndicesFit(num: nat)
    ensures (forall i :: 0 <= i < num ==> i - StartWrite(i) < 1024) <==> num <= 1024
  {
    forall i | 0 <= i <= IOV_MAX ensures StartWrite(i) == 0 { NoFlushYet(i); }
    if num > IOV_MAX { assert IOV_MAX - StartWrite(IOV_MAX) >= IOV_MAX; }
  }
}
