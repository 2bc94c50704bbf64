/** Writes on a guest whose page tables live in the RAM being written. */
module TablesInRam {
  import opened Bits
  import opened GuestMemory
  import opened PageWalk
  import opened TlbModel
  import opened TlbRuns
  import opened Splitter
  import opened PhysMem
  import opened VMem
  import opened VMemBytes
  import opened VMemWrites
  import opened Batch
  import opened BatchBytes
  import opened WriteList

  /** Guest-physical memory as the program sees it: RAM through the remap. */
  function View(f: Hole, ram: seq<Byte>): Mem {
    (x: nat) => if Remap(f, x) < |ram| then ram[Remap(f, x)] else 0
  }

  /** No byte of the requests goes to guest byte y. */
  ghost predicate Untouched(f: Hole, m: Mem, d: nat, es: seq<RW>, y: int) {
    forall i :: 0 <= i < |es| ==> NeverTo(f, m, d, es[i], y)
  }

  /** No byte of the requests goes to a byte of a table entry on the path of address a. */
  ghost predicate PathSpared(f: Hole, m: Mem, d: nat, es: seq<RW>, level: nat, entry: nat, a: nat)
    requires level < 4
    decreases 4 - level
  {
    && (forall x :: entry <= x < entry + 8 ==> Untouched(f, m, d, es, Remap(f, x)))
    && var s := After(level, a, ReadU64(m, entry));
       (s.Next? ==> PathSpared(f, m, d, es, level + 1, s.entry, a))
  }

  /** No byte of any request goes to a table entry that translates some byte of any request. */
  ghost predicate TablesSpared(f: Hole, m: Mem, d: nat, es: seq<RW>) {
    forall i, j :: 0 <= i < |es| && 0 <= j < es[i].size ==> SparedAt(f, m, d, es, es[i], j)
  }

  ghost predicate SparedAt(f: Hole, m: Mem, d: nat, es: seq<RW>, e: RW, j: nat) {
    PathSpared(f, m, d, es, 0, RootEntry(d, Wrap64(e.remote + j)), Wrap64(e.remote + j))
  }

  /** Guest bytes that no request goes to have their old value. */
  ghost predicate KeptElsewhere(f: Hole, ram: seq<Byte>, ram': seq<Byte>, m: Mem, d: nat, es: seq<RW>) {
    |ram'| == |ram| && forall y :: 0 <= y < |ram| && Untouched(f, m, d, es, y) ==> ram'[y] == ram[y]
  }

  lemma {:induction false} SparedPathStays(f: Hole, ram: seq<Byte>, ram': seq<Byte>, d: nat, es: seq<RW>,
                                           level: nat, entry: nat, a: nat)
    requires level < 4 && PathSpared(f, View(f, ram), d, es, level, entry, a)
    requires KeptElsewhere(f, ram, ram', View(f, ram), d, es)
    ensures SamePath(View(f, ram), View(f, ram'), level, entry, a)
    decreases 4 - level
  {
    hide Untouched;
    var m, m' := View(f, ram), View(f, ram');
    assert forall x :: entry <= x < entry + 8 ==> Untouched(f, m, d, es, Remap(f, x));
    assert Bytes(m', entry, 8) == Bytes(m, entry, 8);
    var s := After(level, a, ReadU64(m, entry));
    if s.Next? { SparedPathStays(f, ram, ram', d, es, level + 1, s.entry, a); }
  }

  lemma {:induction false} SamePathTransitive(m: Mem, m': Mem, m'': Mem, level: nat, entry: nat, a: nat)
    requires level < 4 && SamePath(m, m', level, entry, a) && SamePath(m', m'', level, entry, a)
    ensures SamePath(m, m'', level, entry, a)
    decreases 4 - level
  {
    var s := After(level, a, ReadU64(m, entry));
    if s.Next? { SamePathTransitive(m, m', m'', level + 1, s.entry, a); }
  }

  /** At tick t the guest's tables are those in `ram'`. */
  ghost predicate TablesAre(w: World, f: Hole, ram': seq<Byte>, d: nat, t: nat) {
    forall a: nat :: SameTables(View(f, ram'), w.mem(t), d, a)
  }

  ghost predicate SomeStage(w: World, f: Hole, ram: seq<Byte>, d: nat, es: seq<RW>, t: nat) {
    exists ram' :: KeptElsewhere(f, ram, ram', View(f, ram), d, es) && TablesAre(w, f, ram', d, t)
  }

  /** At every tick the guest's tables are those in RAM as the requests may have changed it so far:
      nothing else changes them. */
  ghost predicate OnlyRequestsWrite(w: World, f: Hole, ram: seq<Byte>, d: nat, es: seq<RW>) {
    forall t: nat :: SomeStage(w, f, ram, d, es, t)
  }

  lemma SparedAddress(w: World, f: Hole, ram: seq<Byte>, d: nat, es: seq<RW>, e: RW, j: nat, t: nat)
    requires SparedAt(f, View(f, ram), d, es, e, j) && SomeStage(w, f, ram, d, es, t)
    ensures SameTables(View(f, ram), w.mem(t), d, Wrap64(e.remote + j))
  {
    hide PathSpared, SamePath, KeptElsewhere, View, Wrap64;
    var a := Wrap64(e.remote + j);
    var ram' :| KeptElsewhere(f, ram, ram', View(f, ram), d, es) && TablesAre(w, f, ram', d, t);
    SparedPathStays(f, ram, ram', d, es, 0, RootEntry(d, a), a);
    assert SameTables(View(f, ram'), w.mem(t), d, a);
    SamePathTransitive(View(f, ram), View(f, ram'), w.mem(t), 0, RootEntry(d, a), a);
  }

  /** Requests that spare the tables they need leave them frozen throughout. */
  lemma SparedTablesFrozen(w: World, f: Hole, ram: seq<Byte>, d: nat, es: seq<RW>)
    requires TablesSpared(f, View(f, ram), d, es) && OnlyRequestsWrite(w, f, ram, d, es)
    ensures AllFrozen(w, View(f, ram), d, es)
  {
    hide SparedAt, SomeStage, SameTables, View, Wrap64;
    forall i | 0 <= i < |es| ensures RangeFrozen(w, View(f, ram), d, es[i].remote, es[i].size) {
      forall j | 0 <= j < es[i].size ensures FrozenAt(w, View(f, ram), d, es[i].remote, j) {
        assert SparedAt(f, View(f, ram), d, es, es[i], j);
        forall t: nat ensures SameTables(View(f, ram), w.mem(t), d, Wrap64(es[i].remote + j)) {
          assert SomeStage(w, f, ram, d, es, t);
          SparedAddress(w, f, ram, d, es, es[i], j, t);
        }
      }
    }
  }

  /** RAM after the first k requests is such a stage. */
  lemma WrittenStage(f: Hole, ram: seq<Byte>, buf: seq<Byte>, m: Mem, d: nat, es: seq<RW>, k: nat)
    requires AllReadable(f, |buf|, |ram|, m, d, es) && k <= |es|
    ensures AllReadable(f, |buf|, |ram|, m, d, es[..k])
    ensures KeptElsewhere(f, ram, WriteEach(f, ram, buf, m, d, es[..k]), m, d, es)
  {
    EachWriteDone(f, ram, buf, m, d, es[..k]);
    hide NeverTo, GoesLast, Written, AllMappedBytes, WriteEach, Readable;
    forall y | 0 <= y < |ram| && Untouched(f, m, d, es, y)
      ensures forall i :: 0 <= i < k ==> NeverTo(f, m, d, es[..k][i], y)
    {
      assert forall i :: 0 <= i < k ==> es[..k][i] == es[i];
    }
  }

  /** The round trip: a write, then a read of the same range through any cache. */
  lemma RoundTripInRam(w: World, limit: nat, s: Tlb, tick: nat, s2: Tlb, later: nat, dirBase: nat,
                       f: Hole, ram: seq<Byte>, from: seq<Byte>, to: seq<Byte>, e: RW, e': RW)
    requires Settled(w, limit) && Inv(w, limit, s, tick) && Inv(w, limit, s2, later)
    requires e.remote == e'.remote && e.size == e'.size && Fits(|to|, |ram|, e')
    requires var m, d := View(f, ram), MaskDirBase(dirBase);
             && Readable(f, |from|, |ram|, m, d, e) && OneToOne(f, m, d, e)
             && TablesSpared(f, m, d, [e]) && OnlyRequestsWrite(w, f, ram, d, [e])
    ensures var cs, cs' := Fill(w, tick, s, dirBase, e).0, Fill(w, later, s2, dirBase, e').0;
            CameBack(f, ram, from, to, cs, cs', View(f, ram), MaskDirBase(dirBase), e, e')
  {
    var m, d := View(f, ram), MaskDirBase(dirBase);
    hide *;
    SparedTablesFrozen(w, f, ram, d, [e]);
    FrozenAlone(w, m, d, e);
    RoundTrip(w, m, limit, s, tick, s2, later, dirBase, f, ram, from, to, e, e');
  }

  lemma FrozenAlone(w: World, m: Mem, d: nat, e: RW)
    requires AllFrozen(w, m, d, [e])
    ensures RangeFrozen(w, m, d, e.remote, e.size)
  {
    hide RangeFrozen;
    assert [e][0] == e;
  }

  /** A batch of writes equals its calls, the calls made in another run of the guest in which each
      sees the tables as the ones before it left them. */
  lemma WriteMulIsCallsInRam(w: World, w2: World, limit: nat, s: Tlb, tick: nat, s2: Tlb, tick2: nat, dirBase: nat,
                             f: Hole, ram: seq<Byte>, buf: seq<Byte>, es: seq<RW>)
    requires Settled(w, limit) && Inv(w, limit, s, tick) && Settled(w2, limit) && Inv(w2, limit, s2, tick2)
    requires var m, d := View(f, ram), MaskDirBase(dirBase);
             && AllReadable(f, |buf|, |ram|, m, d, es) && TablesSpared(f, m, d, es)
             && OnlyRequestsWrite(w, f, ram, d, es) && OnlyRequestsWrite(w2, f, ram, d, es)
    ensures var cs := FillAll(w, tick, s, dirBase, es).0;
            && AllProper(f, |buf|, |ram|, cs) && AllFit(|buf|, |ram|, es)
            && var (n, ram', _) := WriteCalls(w2, tick2, s2, dirBase, f, ram, buf, es);
            WriteAll(f, ram, buf, cs) == (n, ram')
  {
    hide *;
    SparedTablesFrozen(w, f, ram, MaskDirBase(dirBase), es);
    SparedTablesFrozen(w2, f, ram, MaskDirBase(dirBase), es);
    WriteMulIsCalls(w, w2, View(f, ram), limit, s, tick, s2, tick2, dirBase, f, ram, buf, es);
  }

  lemma QueueFrozenFromHost(w: World, m: Mem, d: nat, es: seq<RW>, host: seq<Byte>, queue: seq<Request>)
    requires InHost(es, host, queue) && AllFrozen(w, m, d, es)
    ensures QueueFrozen(w, m, d, queue)
  {
    hide RangeFrozen;
    forall i | 0 <= i < |queue| ensures RangeFrozen(w, m, d, queue[i].address, |queue[i].value|) {
      assert RangeFrozen(w, m, d, es[i].remote, es[i].size);
    }
  }

  /** The same for a commit: no queued write goes to a table entry that any queued write needs. */
  lemma CommitIsEachWriteInRam(w: World, w2: World, limit: nat, s: Tlb, tick: nat, s2: Tlb, tick2: nat, dirBase: nat,
                               f: Hole, ram: seq<Byte>, list: seq<RW>, buffer: seq<Byte>, queue: seq<Request>,
                               host: seq<Byte>, bufmem: nat)
    requires Settled(w, limit) && Inv(w, limit, s, tick) && Settled(w2, limit) && Inv(w2, limit, s2, tick2)
    requires Tiles(list, buffer, queue)
    requires bufmem + |buffer| <= |host| && host[bufmem..bufmem + |buffer|] == buffer
    requires var m, d, es := View(f, ram), MaskDirBase(dirBase), Rebased(list, bufmem);
             && AllWritable(f, |ram|, m, d, queue) && TablesSpared(f, m, d, es)
             && OnlyRequestsWrite(w, f, ram, d, es) && OnlyRequestsWrite(w2, f, ram, d, es)
    ensures var cs := FillAll(w, tick, s, dirBase, Rebased(list, bufmem)).0;
            AllProper(f, |host|, |ram|, cs) && AllShort(|ram|, queue) &&
            WriteAll(f, ram, host, cs).1 == CallEach(w2, tick2, s2, dirBase, f, ram, queue).0
  {
    hide *;
    var m, d, es := View(f, ram), MaskDirBase(dirBase), Rebased(list, bufmem);
    TilesInHost(list, buffer, queue, host, bufmem);
    SparedTablesFrozen(w, f, ram, d, es);
    SparedTablesFrozen(w2, f, ram, d, es);
    QueueFrozenFromHost(w, m, d, es, host, queue);
    QueueFrozenFromHost(w2, m, d, es, host, queue);
    CommitIsEachWrite(w, w2, m, limit, s, tick, s2, tick2, dirBase, f, ram, list, buffer, queue, host, bufmem);
  }
}
