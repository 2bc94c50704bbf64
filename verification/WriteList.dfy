/** Queued writes: values appended to one byte buffer, committed as one batch. */
module WriteList {
  import opened Bits
  import opened GuestMemory
  import opened TlbModel
  import opened TlbRuns
  import opened TlbCache
  import opened Splitter
  import opened PhysMem
  import opened VMem
  import opened VMemBytes
  import opened Batch

  /** What the caller asked for: a value at an address. */
  datatype Request = Request(address: nat, value: seq<Byte>)

  /** The queued slices tile the buffer in order and hold the requested values. */
  ghost predicate Tiles(list: seq<RW>, buffer: seq<Byte>, queue: seq<Request>) {
    && |list| == |queue|
    && (forall i :: 0 <= i < |list| ==> Slice(list, buffer, queue, i))
    && (list == [] ==> buffer == [])
    && (list != [] ==> list[|list| - 1].local + list[|list| - 1].size == |buffer|)
  }

  ghost predicate Slice(list: seq<RW>, buffer: seq<Byte>, queue: seq<Request>, i: nat)
    requires i < |list| && |list| == |queue|
  {
    var e := list[i];
    && e.local == (if i == 0 then 0 else list[i - 1].local + list[i - 1].size)
    && e.remote == queue[i].address && e.size == |queue[i].value|
    && e.local + e.size <= |buffer| && buffer[e.local..e.local + e.size] == queue[i].value
  }

  lemma {:induction false} PushTiles(list: seq<RW>, buffer: seq<Byte>, queue: seq<Request>, r: Request)
    requires Tiles(list, buffer, queue)
    ensures Tiles(list + [RW(|buffer|, r.address, |r.value|)], buffer + r.value, queue + [r])
  {
    var list', buffer', queue' := list + [RW(|buffer|, r.address, |r.value|)], buffer + r.value, queue + [r];
    forall i | 0 <= i < |list'| ensures Slice(list', buffer', queue', i) {
      if i < |list| {
        assert Slice(list, buffer, queue, i);
        var lo, hi := list[i].local, list[i].local + list[i].size;
        assert buffer'[lo..hi] == buffer[lo..hi];
      } else {
        assert buffer'[|buffer|..|buffer| + |r.value|] == r.value;
      }
    }
  }

  /** The slices once the buffer's address is added. */
  function Rebased(list: seq<RW>, base: nat): (r: seq<RW>)
    ensures |r| == |list|
  {
    seq(|list|, i requires 0 <= i < |list| => list[i].(local := list[i].local + base))
  }

  class Queue {
    var writeList: seq<RW>
    var buffer: seq<Byte>
    ghost var queue: seq<Request>

    ghost predicate Valid()
      reads this
    {
      Tiles(writeList, buffer, queue)
    }

    constructor ()
      ensures Valid() && queue == []
    {
      writeList, buffer, queue := [], [], [];
    }

    method Write(address: nat, value: seq<Byte>)
      requires Valid()
      modifies this
      ensures Valid() && queue == old(queue) + [Request(address, value)]
      ensures buffer == old(buffer) + value
    {
      PushTiles(writeList, buffer, queue, Request(address, value));
      writeList := writeList + [RW(|buffer|, address, |value|)];
      buffer := buffer + value;
      queue := queue + [Request(address, value)];
    }

    /** The loop of Commit: every slice gets the buffer's address. */
    method Rebase(bufmem: nat)
      modifies this`writeList
      ensures writeList == Rebased(old(writeList), bufmem)
    {
      var sz := |writeList|;
      ghost var list := writeList;
      for i := 0 to sz
        invariant |writeList| == sz
        invariant forall k :: 0 <= k < sz ==> writeList[k] == if k < i then Rebased(list, bufmem)[k] else list[k]
      {
        writeList := writeList[i := writeList[i].(local := writeList[i].local + bufmem)];
      }
      assert writeList == Rebased(list, bufmem);
    }

    /** `host` is local memory, with the buffer's storage at `bufmem`. */
    method Commit(tlb: Cache, w: World, tick: nat, f: Hole, ram: array<Byte>, dirBase: nat, host: array<Byte>,
                  bufmem: nat)
      requires Valid() && tlb.Valid() && ram != host
      requires bufmem + |buffer| <= host.Length && host[bufmem..bufmem + |buffer|] == buffer
      requires AcceptableList(host.Length, ram.Length, Rebased(writeList, bufmem))
      modifies this, ram, tlb`curTime, tlb`hits, tlb`misses, tlb.entries, tlb.entryTimes, tlb.slots
      ensures Valid() && queue == [] && tlb.Valid()
      ensures var (cs, s) := FillAll(w, tick, old(tlb.Abs()), dirBase, Rebased(old(writeList), bufmem));
              AllProper(f, host.Length, ram.Length, cs) && tlb.Abs() == s &&
              ram[..] == WriteAll(f, old(ram[..]), host[..], cs).1
    {
      hide AcceptableList, FillAll, WriteAll, AllProper, Rebased, Slice;
      Rebase(bufmem);
      var data := writeList;
      var infos := new RW[|data|](i requires 0 <= i < |data| => data[i]);
      assert infos[..|data|] == data;
      var ret := VMemWriteMul(tlb, w, tick, f, ram, dirBase, host, infos, |data|);
      writeList, buffer, queue := [], [], [];
    }
  }

  // ---- What a commit amounts to ----

  lemma {:induction false} RebasedTail(local: nat, k: nat, ps: seq<Piece>, vs: seq<nat>)
    requires |ps| == |vs|
    ensures KeptTail(local + k, ps, vs) == Rebased(KeptTail(local, ps, vs), k)
    decreases |ps|
  {
    if ps != [] {
      var n := |ps| - 1;
      RebasedTail(local, k, ps[..n], vs[..n]);
    }
  }

  lemma WalkChunksRebased(m: Mem, d: nat, address: nat, size: nat, k: nat)
    ensures WalkChunks(m, d, RW(k, address, size)) == Rebased(WalkChunks(m, d, RW(0, address, size)), k)
  {
    hide Src, Pieces;
    var ps := Pieces(address, size);
    var vs := PieceWalks(m, d, address, ps);
    RebasedTail(0, k, ps[1..], vs[1..]);
  }

  lemma SliceOfSlice(b: seq<Byte>, k: nat, n: nat, lo: nat, hi: nat)
    requires k + n <= |b| && lo <= hi <= n
    ensures b[k..k + n][lo..hi] == b[k + lo..k + hi]
  {
    var whole := b[k..k + n];
    var part, direct := whole[lo..hi], b[k + lo..k + hi];
    forall i | 0 <= i < hi - lo ensures part[i] == direct[i] {
      assert part[i] == whole[lo + i] && whole[lo + i] == b[k + (lo + i)];
    }
  }

  lemma OneRebased(f: Hole, ramSize: nat, host: seq<Byte>, k: nat, value: seq<Byte>, c: RW)
    requires k + |value| <= |host| && Proper(f, |value|, ramSize, c)
    ensures Proper(f, |host|, ramSize, c.(local := c.local + k))
    ensures InRange(f, ramSize, c.(local := c.local + k)) == InRange(f, ramSize, c)
  {
    hide Remap;
  }

  lemma OneFromSlice(f: Hole, ram: seq<Byte>, host: seq<Byte>, k: nat, value: seq<Byte>, c: RW)
    requires k + |value| <= |host| && host[k..k + |value|] == value
    requires Proper(f, |value|, |ram|, c) && InRange(f, |ram|, c)
    ensures Proper(f, |host|, |ram|, c.(local := c.local + k)) && InRange(f, |ram|, c.(local := c.local + k))
    ensures WriteChunk(f, ram, host, c.(local := c.local + k)) == WriteChunk(f, ram, value, c)
  {
    OneRebased(f, |ram|, host, k, value, c);
    hide Remap;
    SliceOfSlice(host, k, |value|, c.local, c.local + c.size);
  }

  /** A write from a slice of local memory is the write from the slice alone. */
  lemma {:induction false} WriteFromSlice(f: Hole, ram: seq<Byte>, host: seq<Byte>, k: nat, value: seq<Byte>,
                                          cs: seq<RW>)
    requires k + |value| <= |host| && host[k..k + |value|] == value
    requires AllProper(f, |value|, |ram|, cs)
    ensures AllProper(f, |host|, |ram|, Rebased(cs, k))
    ensures WriteAll(f, ram, host, Rebased(cs, k)) == WriteAll(f, ram, value, cs)
    decreases |cs|
  {
    if cs == [] {
      assert Rebased(cs, k) == [];
    } else {
      var cs' := Rebased(cs, k);
      assert cs'[0] == cs[0].(local := cs[0].local + k) && cs'[1..] == Rebased(cs[1..], k);
      assert forall i :: 0 <= i < |cs[1..]| ==> cs[1..][i] == cs[i + 1];
      OneRebased(f, |ram|, host, k, value, cs[0]);
      if InRange(f, |ram|, cs[0]) {
        OneFromSlice(f, ram, host, k, value, cs[0]);
        hide WriteChunk, InRange, Remap, Proper;
        WriteFromSlice(f, WriteChunk(f, ram, value, cs[0]), host, k, value, cs[1..]);
        RebasedProper(f, |host|, |ram|, cs');
      } else {
        hide WriteChunk, InRange, Remap, Proper;
        AllRebased(f, |ram|, host, k, value, cs);
      }
    }
  }

  lemma RebasedProper(f: Hole, bufSize: nat, ramSize: nat, cs: seq<RW>)
    requires cs != [] && Proper(f, bufSize, ramSize, cs[0]) && AllProper(f, bufSize, ramSize, cs[1..])
    ensures AllProper(f, bufSize, ramSize, cs)
  {
    hide Proper;
    forall i | 0 <= i < |cs| ensures Proper(f, bufSize, ramSize, cs[i]) {
      if i > 0 { assert cs[1..][i - 1] == cs[i]; }
    }
  }

  lemma AllRebased(f: Hole, ramSize: nat, host: seq<Byte>, k: nat, value: seq<Byte>, cs: seq<RW>)
    requires k + |value| <= |host| && AllProper(f, |value|, ramSize, cs)
    ensures AllProper(f, |host|, ramSize, Rebased(cs, k))
  {
    hide Proper, InRange;
    forall i | 0 <= i < |cs| ensures Proper(f, |host|, ramSize, Rebased(cs, k)[i]) {
      OneRebased(f, ramSize, host, k, value, cs[i]);
    }
  }

  /** VMemWrite of one value from its own storage, on frozen tables. */
  ghost predicate Writable(f: Hole, ramSize: nat, m: Mem, d: nat, r: Request) {
    Readable(f, |r.value|, ramSize, m, d, RW(0, r.address, |r.value|))
  }

  ghost predicate AllWritable(f: Hole, ramSize: nat, m: Mem, d: nat, queue: seq<Request>) {
    forall i :: 0 <= i < |queue| ==> Writable(f, ramSize, m, d, queue[i])
  }

  /** Guest RAM after writing the values one at a time, in the order they were queued. */
  ghost function WriteValues(f: Hole, ram: seq<Byte>, m: Mem, d: nat, queue: seq<Request>): (r: seq<Byte>)
    requires AllWritable(f, |ram|, m, d, queue)
    ensures |r| == |ram|
    decreases |queue|
  {
    if queue == [] then ram
    else
      var r := queue[|queue| - 1];
      var e := RW(0, r.address, |r.value|);
      assert Writable(f, |ram|, m, d, r);
      WalkChunksOk(f, |r.value|, |ram|, m, d, e);
      WriteAll(f, WriteValues(f, ram, m, d, queue[..|queue| - 1]), r.value, WalkChunks(m, d, e)).1
  }

  /** The rebased slices i = 0..n-1 hold the values of the queue in local memory. */
  ghost predicate InHost(es: seq<RW>, host: seq<Byte>, queue: seq<Request>) {
    |es| == |queue| && forall i :: 0 <= i < |es| ==>
      es[i].remote == queue[i].address && es[i].size == |queue[i].value|
      && es[i].local + es[i].size <= |host| && host[es[i].local..es[i].local + es[i].size] == queue[i].value
  }

  lemma TilesInHost(list: seq<RW>, buffer: seq<Byte>, queue: seq<Request>, host: seq<Byte>, bufmem: nat)
    requires Tiles(list, buffer, queue)
    requires bufmem + |buffer| <= |host| && host[bufmem..bufmem + |buffer|] == buffer
    ensures InHost(Rebased(list, bufmem), host, queue)
  {
    var es := Rebased(list, bufmem);
    forall i | 0 <= i < |es|
      ensures es[i].remote == queue[i].address && es[i].size == |queue[i].value|
      ensures es[i].local + es[i].size <= |host| && host[es[i].local..es[i].local + es[i].size] == queue[i].value
    {
      assert Slice(list, buffer, queue, i);
      SliceOfSlice(host, bufmem, |buffer|, list[i].local, list[i].local + list[i].size);
      assert es[i] == list[i].(local := bufmem + list[i].local);
    }
  }

  lemma HostReadable(f: Hole, host: seq<Byte>, ramSize: nat, m: Mem, d: nat, es: seq<RW>, queue: seq<Request>)
    requires InHost(es, host, queue) && AllWritable(f, ramSize, m, d, queue)
    ensures AllReadable(f, |host|, ramSize, m, d, es)
  {
    forall i | 0 <= i < |es| ensures Readable(f, |host|, ramSize, m, d, es[i]) {
      assert Writable(f, ramSize, m, d, queue[i]);
      hide Src;
    }
  }

  lemma {:induction false} EachIsValues(f: Hole, ram: seq<Byte>, host: seq<Byte>, m: Mem, d: nat, es: seq<RW>,
                                        queue: seq<Request>)
    requires InHost(es, host, queue) && AllWritable(f, |ram|, m, d, queue)
    ensures AllReadable(f, |host|, |ram|, m, d, es)
    ensures WriteEach(f, ram, host, m, d, es) == WriteValues(f, ram, m, d, queue)
    decreases |es|
  {
    HostReadable(f, host, |ram|, m, d, es, queue);
    if es != [] {
      var n := |es| - 1;
      EachIsValues(f, ram, host, m, d, es[..n], queue[..n]);
      var r := queue[n];
      assert Writable(f, |ram|, m, d, r);
      LastValue(f, WriteValues(f, ram, m, d, queue[..n]), host, m, d, es[n], r);
      hide WalkChunks, WriteAll, Readable, Src;
    }
  }

  lemma LastValue(f: Hole, ram: seq<Byte>, host: seq<Byte>, m: Mem, d: nat, e: RW, r: Request)
    requires e.remote == r.address && e.size == |r.value|
    requires e.local + e.size <= |host| && host[e.local..e.local + e.size] == r.value
    requires Writable(f, |ram|, m, d, r)
    ensures AllProper(f, |host|, |ram|, WalkChunks(m, d, e))
    ensures AllProper(f, |r.value|, |ram|, WalkChunks(m, d, RW(0, r.address, |r.value|)))
    ensures WriteAll(f, ram, host, WalkChunks(m, d, e)).1
         == WriteAll(f, ram, r.value, WalkChunks(m, d, RW(0, r.address, |r.value|))).1
  {
    hide WalkChunks, WriteAll, Src;
    var e0 := RW(0, r.address, |r.value|);
    WalkChunksOk(f, |r.value|, |ram|, m, d, e0);
    WalkChunksRebased(m, d, r.address, |r.value|, e.local);
    WriteFromSlice(f, ram, host, e.local, r.value, WalkChunks(m, d, e0));
  }

  // ---- The same writes as calls of their own ----

  predicate IsShort(ramSize: nat, r: Request) {
    Min(|r.value|, 0x1000) <= ramSize < TWO_64
  }

  /** Guest RAM holds the largest transfer of every value. */
  predicate AllShort(ramSize: nat, queue: seq<Request>) {
    forall i :: 0 <= i < |queue| ==> IsShort(ramSize, queue[i])
  }

  /** Pieces of all values: the translations that writing them takes. */
  function CallPieces(queue: seq<Request>): nat
    decreases |queue|
  {
    if queue == [] then 0
    else
      var r := queue[|queue| - 1];
      CallPieces(queue[..|queue| - 1]) + |Pieces(r.address, |r.value|)|
  }

  /** Guest RAM and cache after one VMemWrite per value, in order, each from the value's own
      storage and each translating through the cache the one before it left. */
  function CallEach(w: World, tick: nat, s: Tlb, dirBase: nat, f: Hole, ram: seq<Byte>,
                    queue: seq<Request>): (r: (seq<Byte>, Tlb))
    requires AllShort(|ram|, queue)
    ensures |r.0| == |ram|
    decreases |queue|
  {
    if queue == [] then (ram, s)
    else
      var n := |queue| - 1;
      var (ram1, s1) := CallEach(w, tick, s, dirBase, f, ram, queue[..n]);
      OneCall(w, tick + 5 * CallPieces(queue[..n]), s1, dirBase, f, ram1, queue[n])
  }

  function OneCall(w: World, tick: nat, s: Tlb, dirBase: nat, f: Hole, ram: seq<Byte>, r: Request): (x: (seq<Byte>,
                   Tlb))
    requires Min(|r.value|, 0x1000) <= |ram| < TWO_64
    ensures |x.0| == |ram|
  {
    var (_, ram', s') := OneWrite(w, tick, s, dirBase, f, ram, r.value, RW(0, r.address, |r.value|));
    (ram', s')
  }

  ghost predicate QueueFrozen(w: World, m: Mem, d: nat, queue: seq<Request>) {
    forall i :: 0 <= i < |queue| ==> RangeFrozen(w, m, d, queue[i].address, |queue[i].value|)
  }

  lemma OneCallWrites(w: World, m: Mem, limit: nat, s: Tlb, tick: nat, dirBase: nat, f: Hole, ram: seq<Byte>,
                      r: Request)
    requires Settled(w, limit) && Inv(w, limit, s, tick)
    requires RangeFrozen(w, m, MaskDirBase(dirBase), r.address, |r.value|)
    requires Writable(f, |ram|, m, MaskDirBase(dirBase), r)
    ensures Min(|r.value|, 0x1000) <= |ram| < TWO_64
    ensures var (ram', s') := OneCall(w, tick, s, dirBase, f, ram, r);
            var cs := WalkChunks(m, MaskDirBase(dirBase), RW(0, r.address, |r.value|));
            && AllProper(f, |r.value|, |ram|, cs) && ram' == WriteAll(f, ram, r.value, cs).1
            && Inv(w, limit, s', tick + 5 * |Pieces(r.address, |r.value|)|)
  {
    hide *;
    WritableMeans(f, |ram|, m, MaskDirBase(dirBase), r);
    OneWriteIsWalk(w, m, limit, s, tick, dirBase, f, ram, r.value, RW(0, r.address, |r.value|));
    OneCallIs(w, tick, s, dirBase, f, ram, r);
  }

  lemma WritableMeans(f: Hole, ramSize: nat, m: Mem, d: nat, r: Request)
    requires Writable(f, ramSize, m, d, r)
    ensures Readable(f, |r.value|, ramSize, m, d, RW(0, r.address, |r.value|))
    ensures Min(|r.value|, 0x1000) <= ramSize < TWO_64
  {
    hide Src, BytesInRange, HasFrame;
  }

  lemma OneCallIs(w: World, tick: nat, s: Tlb, dirBase: nat, f: Hole, ram: seq<Byte>, r: Request)
    requires Min(|r.value|, 0x1000) <= |ram| < TWO_64
    ensures var e := RW(0, r.address, |r.value|);
            Fits(|r.value|, |ram|, e) &&
            var x := OneWrite(w, tick, s, dirBase, f, ram, r.value, e);
            OneCall(w, tick, s, dirBase, f, ram, r) == (x.1, x.2)
  {
    hide OneWrite;
  }

  /** What the calls for a queue have done. */
  ghost predicate CallsDid(w: World, m: Mem, limit: nat, s: Tlb, tick: nat, dirBase: nat, f: Hole,
                           ram: seq<Byte>, queue: seq<Request>)
  {
    && AllShort(|ram|, queue) && AllWritable(f, |ram|, m, MaskDirBase(dirBase), queue)
    && var (ram', s') := CallEach(w, tick, s, dirBase, f, ram, queue);
    && ram' == WriteValues(f, ram, m, MaskDirBase(dirBase), queue)
    && Inv(w, limit, s', tick + 5 * CallPieces(queue))
  }

  lemma NextCall(w: World, m: Mem, limit: nat, s: Tlb, tick: nat, dirBase: nat, f: Hole,
                 ram: seq<Byte>, queue: seq<Request>, n: nat)
    requires Settled(w, limit) && |queue| == n + 1
    requires AllWritable(f, |ram|, m, MaskDirBase(dirBase), queue) && AllShort(|ram|, queue)
    requires QueueFrozen(w, m, MaskDirBase(dirBase), queue)
    requires CallsDid(w, m, limit, s, tick, dirBase, f, ram, queue[..n])
    ensures CallsDid(w, m, limit, s, tick, dirBase, f, ram, queue)
  {
    hide OneCall, WalkChunks, WriteAll, Inv, Settled, Writable, RangeFrozen, AllProper, Pieces, MaskDirBase;
    var (ram1, s1) := CallEach(w, tick, s, dirBase, f, ram, queue[..n]);
    OneCallWrites(w, m, limit, s1, tick + 5 * CallPieces(queue[..n]), dirBase, f, ram1, queue[n]);
  }

  /** On frozen tables the calls write what the walks say, whatever the cache holds. */
  lemma {:induction false} CallsWriteValues(w: World, m: Mem, limit: nat, s: Tlb, tick: nat, dirBase: nat, f: Hole,
                                            ram: seq<Byte>, queue: seq<Request>)
    requires Settled(w, limit) && Inv(w, limit, s, tick)
    requires QueueFrozen(w, m, MaskDirBase(dirBase), queue)
    requires AllWritable(f, |ram|, m, MaskDirBase(dirBase), queue)
    ensures CallsDid(w, m, limit, s, tick, dirBase, f, ram, queue)
    decreases |queue|
  {
    ShortIfWritable(f, |ram|, m, MaskDirBase(dirBase), queue);
    if queue != [] {
      hide Inv, Settled, Writable, RangeFrozen, CallsDid, MaskDirBase;
      var n := |queue| - 1;
      CallsWriteValues(w, m, limit, s, tick, dirBase, f, ram, queue[..n]);
      NextCall(w, m, limit, s, tick, dirBase, f, ram, queue, n);
    }
  }

  lemma ShortIfWritable(f: Hole, ramSize: nat, m: Mem, d: nat, queue: seq<Request>)
    requires AllWritable(f, ramSize, m, d, queue)
    ensures AllShort(ramSize, queue)
  {
    hide Writable;
    forall i | 0 <= i < |queue| ensures IsShort(ramSize, queue[i]) {
      WritableMeans(f, ramSize, m, d, queue[i]);
    }
  }

  lemma QueueFrozenInHost(w: World, m: Mem, d: nat, es: seq<RW>, host: seq<Byte>, queue: seq<Request>)
    requires InHost(es, host, queue) && QueueFrozen(w, m, d, queue)
    ensures AllFrozen(w, m, d, es)
  {
    hide RangeFrozen;
  }

  /** Committing leaves guest RAM exactly as one VMemWrite per queued value in order would, through
      any cache, at any time and in any other run of the guest: a later write wins where two
      overlap, also through aliased frames. The tables of the requests must stay frozen and their
      first pages be mapped. */
  lemma CommitIsEachWrite(w: World, w2: World, m: Mem, limit: nat, s: Tlb, tick: nat, s2: Tlb, tick2: nat, dirBase: nat,
                          f: Hole, ram: seq<Byte>, list: seq<RW>, buffer: seq<Byte>, queue: seq<Request>,
                          host: seq<Byte>, bufmem: nat)
    requires Settled(w, limit) && Inv(w, limit, s, tick) && QueueFrozen(w, m, MaskDirBase(dirBase), queue)
    requires Settled(w2, limit) && Inv(w2, limit, s2, tick2) && QueueFrozen(w2, m, MaskDirBase(dirBase), queue)
    requires Tiles(list, buffer, queue)
    requires bufmem + |buffer| <= |host| && host[bufmem..bufmem + |buffer|] == buffer
    requires AllWritable(f, |ram|, m, MaskDirBase(dirBase), queue)
    ensures var cs := FillAll(w, tick, s, dirBase, Rebased(list, bufmem)).0;
            AllProper(f, |host|, |ram|, cs) && AllShort(|ram|, queue) &&
            WriteAll(f, ram, host, cs).1 == CallEach(w2, tick2, s2, dirBase, f, ram, queue).0
  {
    hide *;
    var es, d := Rebased(list, bufmem), MaskDirBase(dirBase);
    TilesInHost(list, buffer, queue, host, bufmem);
    QueueFrozenInHost(w, m, d, es, host, queue);
    EachIsValues(f, ram, host, m, d, es, queue);
    WriteMulIsEach(w, m, limit, s, tick, dirBase, f, ram, host, es);
    CallsWriteValues(w2, m, limit, s2, tick2, dirBase, f, ram, queue);
    CallsDidValues(w2, m, limit, s2, tick2, dirBase, f, ram, queue);
  }

  lemma CallsDidValues(w: World, m: Mem, limit: nat, s: Tlb, tick: nat, dirBase: nat, f: Hole,
                       ram: seq<Byte>, queue: seq<Request>)
    requires CallsDid(w, m, limit, s, tick, dirBase, f, ram, queue)
    ensures AllShort(|ram|, queue) && AllWritable(f, |ram|, m, MaskDirBase(dirBase), queue)
    ensures CallEach(w, tick, s, dirBase, f, ram, queue).0 == WriteValues(f, ram, m, MaskDirBase(dirBase), queue)
  {
    hide CallEach, WriteValues, Inv, AllShort, AllWritable;
  }
}
