/** The external build: transfers through process_vm_readv and process_vm_writev move the bytes the
    mapped build would move if guest RAM were one byte longer, because nothing refuses a transfer
    that ends at the last byte. Calls are assumed to move their segments in order. */
module External {
  import opened Bits
  import opened GuestMemory
  import opened TlbModel
  import opened TlbRuns
  import opened Splitter
  import opened PhysMem
  import opened Batch
  import opened BatchBytes
  import opened IovBatch

  /** The segment lies in local memory and in the guest RAM mapped at `base`. */
  predicate Movable(base: nat, ramSize: nat, bufSize: nat, x: Iov) {
    base <= x.remote && x.remote - base + x.len <= ramSize && x.local + x.len <= bufSize
  }

  predicate AllMovable(base: nat, ramSize: nat, bufSize: nat, xs: seq<Iov>) {
    forall i :: 0 <= i < |xs| ==> Movable(base, ramSize, bufSize, xs[i])
  }

  function MoveIn(base: nat, ram: seq<Byte>, buf: seq<Byte>, x: Iov): (r: seq<Byte>)
    requires Movable(base, |ram|, |buf|, x)
    ensures |r| == |buf|
  {
    Splice(buf, x.local, ram[x.remote - base..x.remote - base + x.len])
  }

  function MoveOut(base: nat, ram: seq<Byte>, buf: seq<Byte>, x: Iov): (r: seq<Byte>)
    requires Movable(base, |ram|, |buf|, x)
    ensures |r| == |ram|
  {
    Splice(ram, x.remote - base, buf[x.local..x.local + x.len])
  }

  /** One process_vm_readv. */
  function CallIn(base: nat, ram: seq<Byte>, buf: seq<Byte>, xs: seq<Iov>): (r: seq<Byte>)
    requires AllMovable(base, |ram|, |buf|, xs)
    ensures |r| == |buf|
    decreases |xs|
  {
    if xs == [] then buf else CallIn(base, ram, MoveIn(base, ram, buf, xs[0]), xs[1..])
  }

  /** One process_vm_writev. */
  function CallOut(base: nat, ram: seq<Byte>, buf: seq<Byte>, xs: seq<Iov>): (r: seq<Byte>)
    requires AllMovable(base, |ram|, |buf|, xs)
    ensures |r| == |ram|
    decreases |xs|
  {
    if xs == [] then ram else CallOut(base, MoveOut(base, ram, buf, xs[0]), buf, xs[1..])
  }

  /** Several calls, each with movable segments. */
  function CallsIn(base: nat, ram: seq<Byte>, buf: seq<Byte>, calls: seq<seq<Iov>>): (r: seq<Byte>)
    requires forall k :: 0 <= k < |calls| ==> AllMovable(base, |ram|, |buf|, calls[k])
    ensures |r| == |buf|
    decreases |calls|
  {
    if calls == [] then buf else CallsIn(base, ram, CallIn(base, ram, buf, calls[0]), calls[1..])
  }

  lemma {:induction false} CallInConcat(base: nat, ram: seq<Byte>, buf: seq<Byte>, xs: seq<Iov>, ys: seq<Iov>)
    requires AllMovable(base, |ram|, |buf|, xs) && AllMovable(base, |ram|, |buf|, ys)
    ensures AllMovable(base, |ram|, |buf|, xs + ys)
    ensures CallIn(base, ram, buf, xs + ys) == CallIn(base, ram, CallIn(base, ram, buf, xs), ys)
    decreases |xs|
  {
    hide Movable, MoveIn;
    if xs == [] {
      assert xs + ys == ys;
    } else {
      assert (xs + ys)[0] == xs[0] && (xs + ys)[1..] == xs[1..] + ys;
      CallInConcat(base, ram, MoveIn(base, ram, buf, xs[0]), xs[1..], ys);
    }
  }

  /** Splitting the segments into calls does not matter. */
  lemma {:induction false} CallsInConcat(base: nat, ram: seq<Byte>, buf: seq<Byte>, calls: seq<seq<Iov>>)
    requires forall k :: 0 <= k < |calls| ==> AllMovable(base, |ram|, |buf|, calls[k])
    ensures AllMovable(base, |ram|, |buf|, Concat(calls))
    ensures CallsIn(base, ram, buf, calls) == CallIn(base, ram, buf, Concat(calls))
    decreases |calls|
  {
    hide Movable, MoveIn, AllMovable, CallIn;
    if calls == [] {
      NoSegments(base, ram, buf);
    } else {
      CallsInConcat(base, ram, CallIn(base, ram, buf, calls[0]), calls[1..]);
      CallInConcat(base, ram, buf, calls[0], Concat(calls[1..]));
    }
  }

  lemma NoSegments(base: nat, ram: seq<Byte>, buf: seq<Byte>)
    ensures AllMovable(base, |ram|, |buf|, []) && CallIn(base, ram, buf, []) == buf
  {
  }

  lemma {:induction false} ConcatMovable(base: nat, ramSize: nat, bufSize: nat, calls: seq<seq<Iov>>)
    requires AllMovable(base, ramSize, bufSize, Concat(calls))
    ensures forall k :: 0 <= k < |calls| ==> AllMovable(base, ramSize, bufSize, calls[k])
    decreases |calls|
  {
    hide Movable;
    if calls != [] {
      var all := Concat(calls);
      assert all == calls[0] + Concat(calls[1..]);
      forall i | 0 <= i < |calls[0]| ensures Movable(base, ramSize, bufSize, calls[0][i]) {
        assert all[i] == calls[0][i];
      }
      forall i | 0 <= i < |Concat(calls[1..])| ensures Movable(base, ramSize, bufSize, Concat(calls[1..])[i]) {
        assert all[|calls[0]| + i] == Concat(calls[1..])[i];
      }
      ConcatMovable(base, ramSize, bufSize, calls[1..]);
      forall k | 0 <= k < |calls| ensures AllMovable(base, ramSize, bufSize, calls[k]) {
        if k > 0 { assert calls[1..][k - 1] == calls[k]; }
      }
    }
  }

  // ---- The same transfers in the mapped build ----

  lemma SegmentInRam(f: Hole, base: nat, ramSize: nat, bufSize: nat, c: RW)
    requires base + ramSize < TWO_64 && Proper(f, bufSize, ramSize + 1, c) && InRange(f, ramSize + 1, c)
    ensures Remap(f, c.remote) + c.size <= ramSize && ToIov(f, base, c).remote == base + Remap(f, c.remote)
    ensures Movable(base, ramSize, bufSize, ToIov(f, base, c))
  {
    hide Remap;
  }

  lemma OneMovedIn(f: Hole, base: nat, ram: seq<Byte>, z: Byte, buf: seq<Byte>, c: RW, x: Iov)
    requires Movable(base, |ram|, |buf|, x) && x == Iov(c.local, base + Remap(f, c.remote), c.size)
    requires Proper(f, |buf|, |ram + [z]|, c) && InRange(f, |ram + [z]|, c)
    ensures MoveIn(base, ram, buf, x) == ReadChunk(f, ram + [z], buf, c)
  {
    var r := Remap(f, c.remote);
    hide Remap, InRange, Splice;
    assert (ram + [z])[r..r + c.size] == ram[r..r + c.size];
  }

  lemma OneMovedOut(f: Hole, base: nat, ram: seq<Byte>, z: Byte, buf: seq<Byte>, c: RW, x: Iov)
    requires Movable(base, |ram|, |buf|, x) && x == Iov(c.local, base + Remap(f, c.remote), c.size)
    requires Proper(f, |buf|, |ram + [z]|, c) && InRange(f, |ram + [z]|, c)
    ensures MoveOut(base, ram, buf, x) + [z] == WriteChunk(f, ram + [z], buf, c)
  {
    hide Remap, InRange, Splice;
    SpliceLonger(ram, z, Remap(f, c.remote), buf[c.local..c.local + c.size]);
  }

  lemma OneMoved(f: Hole, base: nat, ram: seq<Byte>, z: Byte, buf: seq<Byte>, c: RW)
    requires base + |ram| < TWO_64 && Proper(f, |buf|, |ram| + 1, c) && InRange(f, |ram| + 1, c)
    ensures Movable(base, |ram|, |buf|, ToIov(f, base, c))
    ensures MoveIn(base, ram, buf, ToIov(f, base, c)) == ReadChunk(f, ram + [z], buf, c)
    ensures MoveOut(base, ram, buf, ToIov(f, base, c)) + [z] == WriteChunk(f, ram + [z], buf, c)
  {
    SegmentInRam(f, base, |ram|, |buf|, c);
    hide Remap, InRange, Movable, MoveIn, MoveOut, ReadChunk, WriteChunk, Proper, Wrap64;
    OneMovedIn(f, base, ram, z, buf, c, ToIov(f, base, c));
    OneMovedOut(f, base, ram, z, buf, c, ToIov(f, base, c));
  }

  lemma SpliceLonger(ram: seq<Byte>, z: Byte, at: nat, x: seq<Byte>)
    requires at + |x| <= |ram|
    ensures Splice(ram + [z], at, x) == Splice(ram, at, x) + [z]
  {
  }

  lemma {:induction false} CallInIsRead(f: Hole, base: nat, ram: seq<Byte>, z: Byte, buf: seq<Byte>, cs: seq<RW>)
    requires base + |ram| < TWO_64
    requires AllProper(f, |buf|, |ram + [z]|, cs) && AllInRange(f, |ram + [z]|, cs)
    ensures AllMovable(base, |ram|, |buf|, ToIovs(f, base, cs))
    ensures CallIn(base, ram, buf, ToIovs(f, base, cs)) == ReadAll(f, ram + [z], buf, cs).1
    decreases |cs|
  {
    hide Movable, MoveIn, ToIov, Proper, InRange, ReadChunk, ReadAll;
    var xs := ToIovs(f, base, cs);
    if cs == [] {
      ReadNothing(f, ram + [z], buf, 0);
    } else {
      OneMoved(f, base, ram, z, buf, cs[0]);
      ReadHead(f, ram + [z], buf, cs);
      InRangeRest(f, |ram + [z]|, cs);
      assert xs[1..] == ToIovs(f, base, cs[1..]);
      CallInIsRead(f, base, ram, z, ReadChunk(f, ram + [z], buf, cs[0]), cs[1..]);
      MovableBy(base, |ram|, |buf|, xs);
    }
  }

  lemma {:induction false} CallOutIsWrite(f: Hole, base: nat, ram: seq<Byte>, z: Byte, buf: seq<Byte>, cs: seq<RW>)
    requires base + |ram| < TWO_64
    requires AllProper(f, |buf|, |ram + [z]|, cs) && AllInRange(f, |ram + [z]|, cs)
    ensures AllMovable(base, |ram|, |buf|, ToIovs(f, base, cs))
    ensures CallOut(base, ram, buf, ToIovs(f, base, cs)) + [z] == WriteAll(f, ram + [z], buf, cs).1
    decreases |cs|
  {
    hide Movable, MoveOut, ToIov, Proper, InRange, WriteChunk, WriteAll;
    var xs := ToIovs(f, base, cs);
    if cs == [] {
      WriteNothing(f, ram + [z], buf, 0);
    } else {
      OneMoved(f, base, ram, z, buf, cs[0]);
      WriteHead(f, ram + [z], buf, cs);
      InRangeRest(f, |ram + [z]|, cs);
      assert xs[1..] == ToIovs(f, base, cs[1..]);
      CallOutIsWrite(f, base, MoveOut(base, ram, buf, xs[0]), z, buf, cs[1..]);
      MovableBy(base, |ram|, |buf|, xs);
    }
  }

  lemma InRangeRest(f: Hole, ramSize: nat, cs: seq<RW>)
    requires cs != [] && AllInRange(f, ramSize, cs)
    ensures AllInRange(f, ramSize, cs[1..])
  {
    hide InRange;
  }

  lemma MovableBy(base: nat, ramSize: nat, bufSize: nat, xs: seq<Iov>)
    requires xs != [] && Movable(base, ramSize, bufSize, xs[0]) && AllMovable(base, ramSize, bufSize, xs[1..])
    ensures AllMovable(base, ramSize, bufSize, xs)
  {
    hide Movable;
    forall i | 0 <= i < |xs| ensures Movable(base, ramSize, bufSize, xs[i]) {
      if i > 0 { assert xs[1..][i - 1] == xs[i]; }
    }
  }

  /** What the calls return when each moves all its bytes. */
  predicate AllMoved(bs: seq<seq<Iov>>, results: nat -> int) {
    forall k :: 0 <= k < |bs| ==> results(k) == Length(bs[k])
  }

  /** If every call moves its segments, MemReadMul of vmmem.c makes all the calls, leaves local memory
      as MemReadMul of intmem.c does with one more byte of RAM, and returns the bytes of its last
      call. */
  lemma ReadsMoveBytes(f: Hole, base: nat, ram: seq<Byte>, z: Byte, buf: seq<Byte>, cs: seq<RW>, results: nat -> int)
    requires base + |ram| < TWO_64
    requires AllProper(f, |buf|, |ram + [z]|, cs) && AllInRange(f, |ram + [z]|, cs)
    requires AllMoved(Batches(ToIovs(f, base, cs)), results)
    ensures var bs := Batches(ToIovs(f, base, cs));
            && Issued(bs, results, 0) == bs
            && LastResult(bs, results) == (if bs == [] then 0 else Length(bs[|bs| - 1]))
            && (forall k :: 0 <= k < |bs| ==> AllMovable(base, |ram|, |buf|, bs[k]))
            && CallsIn(base, ram, buf, bs) == ReadAll(f, ram + [z], buf, cs).1
  {
    var xs := ToIovs(f, base, cs);
    CallInIsRead(f, base, ram, z, buf, cs);
    BatchesPartition(xs);
    hide ToIovs, Batches, AllMovable, CallIn, CallsIn, ReadAll, Issued, Length, AllProper, AllInRange, Concat;
    AllIssued(Batches(xs), results);
    ConcatMovable(base, |ram|, |buf|, Batches(xs));
    CallsInConcat(base, ram, buf, Batches(xs));
  }

  /** The same for MemWriteMul and at most 1024 transfers: one call, or none. */
  lemma WritesMoveBytes(f: Hole, base: nat, ram: seq<Byte>, z: Byte, buf: seq<Byte>, cs: seq<RW>)
    requires base + |ram| < TWO_64 && |cs| <= IOV_MAX
    requires AllProper(f, |buf|, |ram + [z]|, cs) && AllInRange(f, |ram + [z]|, cs)
    ensures var xs := ToIovs(f, base, cs);
            && Batches(xs) == (if xs == [] then [] else [xs])
            && AllMovable(base, |ram|, |buf|, xs)
            && CallOut(base, ram, buf, xs) == WriteAll(f, ram + [z], buf, cs).1[..|ram|]
  {
    CallOutIsWrite(f, base, ram, z, buf, cs);
  }

  // ---- Virtual reads and writes ----

  /** A virtual read in the external build, on frozen tables and whatever the cache holds: local
      memory meets the byte-by-byte specification, up to and including the last byte of RAM. */
  lemma ExternalRead(w: World, m: Mem, limit: nat, s: Tlb, tick: nat, dirBase: nat, f: Hole, base: nat,
                     ram: seq<Byte>, z: Byte, buf: seq<Byte>, es: seq<RW>, results: nat -> int)
    requires Settled(w, limit) && Inv(w, limit, s, tick) && base + |ram| < TWO_64
    requires AllFrozen(w, m, MaskDirBase(dirBase), es)
    requires AllReadable(f, |buf|, |ram + [z]|, m, MaskDirBase(dirBase), es)
    requires AllMoved(Batches(ToIovs(f, base, FillAll(w, tick, s, dirBase, es).0)), results)
    ensures var d, bs := MaskDirBase(dirBase), Batches(ToIovs(f, base, FillAll(w, tick, s, dirBase, es).0));
            && Issued(bs, results, 0) == bs
            && LastResult(bs, results) == (if bs == [] then 0 else Length(bs[|bs| - 1]))
            && (forall k :: 0 <= k < |bs| ==> AllMovable(base, |ram|, |buf|, bs[k]))
            && AllReadDone(f, ram + [z], buf, AllMappedBytes(m, d, es), CallsIn(base, ram, buf, bs), m, d, es)
  {
    hide *;
    var d := MaskDirBase(dirBase);
    FillAllIsWalk(w, m, limit, s, tick, dirBase, es, f, |buf|, |ram + [z]|);
    AllWalkChunksOk(f, |buf|, |ram + [z]|, m, d, es);
    ReadsMoveBytes(f, base, ram, z, buf, AllWalkChunks(m, d, es), results);
    BatchReadsEach(f, ram + [z], buf, m, d, es);
    EachReadDone(f, ram + [z], buf, m, d, es);
  }

  /** The same for a virtual write of at most 1024 transfers. */
  lemma ExternalWrite(w: World, m: Mem, limit: nat, s: Tlb, tick: nat, dirBase: nat, f: Hole, base: nat,
                      ram: seq<Byte>, z: Byte, buf: seq<Byte>, es: seq<RW>)
    requires Settled(w, limit) && Inv(w, limit, s, tick) && base + |ram| < TWO_64
    requires AllFrozen(w, m, MaskDirBase(dirBase), es)
    requires AllReadable(f, |buf|, |ram + [z]|, m, MaskDirBase(dirBase), es)
    requires |FillAll(w, tick, s, dirBase, es).0| <= IOV_MAX
    ensures var d, xs := MaskDirBase(dirBase), ToIovs(f, base, FillAll(w, tick, s, dirBase, es).0);
            && AllMovable(base, |ram|, |buf|, xs)
            && AllWriteDone(f, ram + [z], buf, AllMappedBytes(m, d, es), CallOut(base, ram, buf, xs) + [z], m, d, es)
  {
    hide *;
    var d := MaskDirBase(dirBase);
    FillAllIsWalk(w, m, limit, s, tick, dirBase, es, f, |buf|, |ram + [z]|);
    AllWalkChunksOk(f, |buf|, |ram + [z]|, m, d, es);
    CallOutIsWrite(f, base, ram, z, buf, AllWalkChunks(m, d, es));
    BatchWritesEach(f, ram + [z], buf, m, d, es);
    EachWriteDone(f, ram + [z], buf, m, d, es);
  }
}
