/** Walking the guest's linked lists of modules and of processes into growable arrays. What is
    read from a node is a parameter: `decode` and `info` stand for the reads at its address. */
module GuestLists {
  import opened Bits
  import opened Arrays

  datatype Option<T> = None | Some(value: T)

  /** A module as far as it matters here. */
  datatype Module = Module(baseAddress: nat, entryPoint: nat, sizeOfModule: nat, name: string, loadCount: int)

  // ---- Modules ----

  /** The k-th node from `head`. */
  function Node(next: nat -> nat, head: nat, k: nat): nat {
    if k == 0 then head else next(Node(next, head, k - 1))
  }

  /** After k nodes the walk is back at its start, or has not moved. */
  predicate StopsAt(next: nat -> nat, head: nat, k: nat) {
    k >= 1 && (Node(next, head, k) == head || Node(next, head, k) == Node(next, head, k - 1))
  }

  predicate FirstStop(next: nat -> nat, head: nat, n: nat) {
    StopsAt(next, head, n) && forall j :: 1 <= j < n ==> !StopsAt(next, head, j)
  }

  function Visited(next: nat -> nat, head: nat, n: nat): (r: seq<nat>)
    ensures |r| == n
  {
    if n == 0 then [] else Visited(next, head, n - 1) + [Node(next, head, n - 1)]
  }

  /** The modules among the nodes, in order. */
  function Decoded(decode: nat -> Option<Module>, nodes: seq<nat>): (r: seq<Module>)
    ensures |r| <= |nodes|
    decreases |nodes|
  {
    if nodes == [] then []
    else
      var n := |nodes| - 1;
      Decoded(decode, nodes[..n]) + match decode(nodes[n]) case None => [] case Some(m) => [m]
  }

  lemma DecodedNext(decode: nat -> Option<Module>, nodes: seq<nat>, node: nat)
    ensures Decoded(decode, nodes + [node])
            == Decoded(decode, nodes) + match decode(node) case None => [] case Some(m) => [m]
  {
    assert (nodes + [node])[..|nodes|] == nodes;
  }

  lemma NextVisited(next: nat -> nat, head: nat, k: nat)
    ensures Visited(next, head, k + 1) == Visited(next, head, k) + [Node(next, head, k)]
    ensures Node(next, head, k + 1) == next(Node(next, head, k))
  {}

  /** `n` is where the walk first stops: without such an n it never ends. */
  method FillAnyModuleList64(next: nat -> nat, decode: nat -> Option<Module>, list0: array<Module>, size0: nat,
                             head0: nat, ghost n: nat)
      returns (list: array<Module>, size: nat, ghost visited: seq<nat>)
    requires size0 <= list0.Length && list0.Length >= 1
    requires FirstStop(next, head0, n)
    modifies list0
    ensures visited == Visited(next, head0, n) && IsWalk(next, head0, visited)
    ensures size <= list.Length && list[..size] == old(list0[..size0]) + Decoded(decode, visited)
    ensures IsModuleList(decode, visited, Decoded(decode, visited))
    ensures list == list0 || fresh(list)
  {
    hide Decoded, Visited, Node, IsWalk, IsModuleList;
    VisitedIsWalk(next, head0, n);
    DecodedIsList(decode, Visited(next, head0, n));
    list, size, visited := list0, size0, [];
    var head, end := head0, head0;
    ghost var k := 0;
    assert Node(next, head0, 0) == head0 && Visited(next, head0, 0) == [] && Decoded(decode, []) == [] by {
      NoneVisited(next, decode, head0);
    }
    while true
      invariant k < n && head == Node(next, head0, k) && visited == Visited(next, head0, k)
      invariant list == list0 || fresh(list)
      invariant size <= list.Length && list.Length >= 1
      invariant list[..size] == old(list0[..size0]) + Decoded(decode, visited)
      decreases n - k
    {
      if size >= list.Length {
        list := Grow(list, size, list.Length * 2, Module(0, 0, 0, "", 0));
      }
      var prev := head;
      var m := decode(head);
      DecodedNext(decode, visited, head);
      NextVisited(next, head0, k);
      visited := visited + [head];
      k := k + 1;
      head := next(head);
      if m.Some? {
        Put(list, size, m.value);
        size := size + 1;
      }
      assert StopsAt(next, head0, k) <==> head == end || head == prev;
      if !(head != end && head != prev) { break; }
    }
  }

  /** The nodes met: from `head` along the links, up to the first that leads back to the head or to
      itself. */
  ghost predicate IsWalk(next: nat -> nat, head: nat, nodes: seq<nat>) {
    && nodes != [] && nodes[0] == head
    && (forall k :: 0 < k < |nodes| ==> nodes[k] == next(nodes[k - 1]) && nodes[k] != head && nodes[k] != nodes[k - 1])
    && (next(nodes[|nodes| - 1]) == head || next(nodes[|nodes| - 1]) == nodes[|nodes| - 1])
  }

  function ModuleCount(decode: nat -> Option<Module>, nodes: seq<nat>, n: nat): nat
    requires n <= |nodes|
  {
    if n == 0 then 0 else ModuleCount(decode, nodes, n - 1) + if decode(nodes[n - 1]).Some? then 1 else 0
  }

  /** The list has the module of every node that has one and no other, in the order of the nodes. */
  ghost predicate IsModuleList(decode: nat -> Option<Module>, nodes: seq<nat>, list: seq<Module>) {
    && |list| == ModuleCount(decode, nodes, |nodes|)
    && forall i :: 0 <= i < |nodes| && decode(nodes[i]).Some? ==>
         ModuleCount(decode, nodes, i) < |list| && list[ModuleCount(decode, nodes, i)] == decode(nodes[i]).value
  }

  lemma {:induction false} VisitedAt(next: nat -> nat, head: nat, n: nat, k: nat)
    requires k < n
    ensures Visited(next, head, n)[k] == Node(next, head, k)
    decreases n
  {
    hide Node;
    if k < n - 1 { VisitedAt(next, head, n - 1, k); }
  }

  lemma VisitedIsWalk(next: nat -> nat, head: nat, n: nat)
    requires FirstStop(next, head, n)
    ensures IsWalk(next, head, Visited(next, head, n))
  {
    var nodes := Visited(next, head, n);
    VisitedAt(next, head, n, 0);
    forall k | 0 < k < n
      ensures nodes[k] == next(nodes[k - 1]) && nodes[k] != head && nodes[k] != nodes[k - 1]
    {
      VisitedAt(next, head, n, k);
      VisitedAt(next, head, n, k - 1);
      assert !StopsAt(next, head, k);
    }
    VisitedAt(next, head, n, n - 1);
  }

  lemma {:induction false} CountOfFront(decode: nat -> Option<Module>, nodes: seq<nat>, k: nat, n: nat)
    requires n <= k <= |nodes|
    ensures ModuleCount(decode, nodes[..k], n) == ModuleCount(decode, nodes, n)
    decreases n
  {
    if n > 0 { CountOfFront(decode, nodes, k, n - 1); }
  }

  lemma {:induction false} DecodedIsList(decode: nat -> Option<Module>, nodes: seq<nat>)
    ensures IsModuleList(decode, nodes, Decoded(decode, nodes))
    decreases |nodes|
  {
    if nodes != [] {
      var k := |nodes| - 1;
      DecodedIsList(decode, nodes[..k]);
      CountOfFront(decode, nodes, k, k);
      forall i | 0 <= i < |nodes| && decode(nodes[i]).Some?
        ensures ModuleCount(decode, nodes, i) < |Decoded(decode, nodes)|
        ensures Decoded(decode, nodes)[ModuleCount(decode, nodes, i)] == decode(nodes[i]).value
      {
        if i < k {
          CountOfFront(decode, nodes, k, i);
          assert nodes[..k][i] == nodes[i];
        }
      }
    }
  }

  lemma NoneVisited(next: nat -> nat, decode: nat -> Option<Module>, head: nat)
    ensures Node(next, head, 0) == head && Visited(next, head, 0) == [] && Decoded(decode, []) == []
  {}

  /** A circular list: distinct nodes, each linked to the next and the last to the first. */
  predicate Ring(next: nat -> nat, ring: seq<nat>) {
    && ring != []
    && (forall i, j :: 0 <= i < j < |ring| ==> ring[i] != ring[j])
    && forall i :: 0 <= i < |ring| ==> next(ring[i]) == ring[if i + 1 == |ring| then 0 else i + 1]
  }

  lemma {:induction false} RingNode(next: nat -> nat, ring: seq<nat>, k: nat)
    requires Ring(next, ring) && k <= |ring|
    ensures Node(next, ring[0], k) == ring[if k == |ring| then 0 else k]
    decreases k
  {
    if k > 0 { RingNode(next, ring, k - 1); }
  }

  lemma {:induction false} RingVisited(next: nat -> nat, ring: seq<nat>, k: nat)
    requires Ring(next, ring) && k <= |ring|
    ensures Visited(next, ring[0], k) == ring[..k]
    decreases k
  {
    if k > 0 {
      RingVisited(next, ring, k - 1);
      RingNode(next, ring, k - 1);
    }
  }

  /** On a ring the walk stops, and has then visited every node exactly once in link order,
      wherever it started. */
  lemma RingIsVisitedOnce(next: nat -> nat, ring: seq<nat>)
    requires Ring(next, ring)
    ensures FirstStop(next, ring[0], |ring|) && Visited(next, ring[0], |ring|) == ring
  {
    var n := |ring|;
    RingVisited(next, ring, n);
    RingNode(next, ring, n);
    forall j | 1 <= j < n ensures !StopsAt(next, ring[0], j) {
      RingNode(next, ring, j);
      RingNode(next, ring, j - 1);
    }
  }

  /** A list that runs through `tail` nodes and then round a cycle: the last node links back to the
      first of the cycle. Every walk over finitely many nodes is of this kind. */
  predicate Lasso(next: nat -> nat, nodes: seq<nat>, tail: nat) {
    && tail < |nodes|
    && (forall i, j :: 0 <= i < j < |nodes| ==> nodes[i] != nodes[j])
    && forall i :: 0 <= i < |nodes| ==> next(nodes[i]) == nodes[if i + 1 == |nodes| then tail else i + 1]
  }

  /** Which node the walk is at after k steps. */
  function Position(count: nat, tail: nat, k: nat): (p: nat)
    requires tail < count
    ensures p < count && (k < count ==> p == k) && (k >= 1 && tail >= 1 ==> p >= 1)
  {
    if k == 0 then 0
    else
      var p := Position(count, tail, k - 1);
      if p + 1 == count then tail else p + 1
  }

  lemma {:induction false} LassoNode(next: nat -> nat, nodes: seq<nat>, tail: nat, k: nat)
    requires Lasso(next, nodes, tail)
    ensures Node(next, nodes[0], k) == nodes[Position(|nodes|, tail, k)]
    decreases k
  {
    if k > 0 { LassoNode(next, nodes, tail, k - 1); }
  }

  lemma {:induction false} LassoVisited(next: nat -> nat, nodes: seq<nat>, tail: nat, k: nat)
    requires Lasso(next, nodes, tail) && k <= |nodes|
    ensures Visited(next, nodes[0], k) == nodes[..k]
    decreases k
  {
    if k > 0 {
      LassoVisited(next, nodes, tail, k - 1);
      LassoNode(next, nodes, tail, k - 1);
    }
  }

  /** Where it stops: at the start again, or where a node links to itself. */
  lemma LassoStop(next: nat -> nat, nodes: seq<nat>, tail: nat, k: nat)
    requires Lasso(next, nodes, tail) && k >= 1
    ensures StopsAt(next, nodes[0], k)
            <==> Position(|nodes|, tail, k) == 0 || Position(|nodes|, tail, k) == Position(|nodes|, tail, k - 1)
  {
    LassoNode(next, nodes, tail, k);
    LassoNode(next, nodes, tail, k - 1);
    hide Position, Node;
  }

  /** The module walk stops exactly on a ring or where the cycle is a single node, and it has then
      visited every node once. Into any longer cycle behind a tail it runs for ever. */
  lemma LassoStopsExactly(next: nat -> nat, nodes: seq<nat>, tail: nat)
    requires Lasso(next, nodes, tail)
    ensures (exists n :: FirstStop(next, nodes[0], n)) <==> tail == 0 || tail + 1 == |nodes|
    ensures tail == 0 || tail + 1 == |nodes| ==>
              FirstStop(next, nodes[0], |nodes|) && Visited(next, nodes[0], |nodes|) == nodes
  {
    var n := |nodes|;
    if tail == 0 || tail + 1 == n {
      LassoVisited(next, nodes, tail, n);
      LassoStop(next, nodes, tail, n);
      forall j | 1 <= j < n ensures !StopsAt(next, nodes[0], j) { LassoStop(next, nodes, tail, j); }
      assert FirstStop(next, nodes[0], n);
    } else {
      forall k: nat | k >= 1 ensures !StopsAt(next, nodes[0], k) { LassoStop(next, nodes, tail, k); }
    }
  }

  // ---- Processes ----

  /** What is read at a process's physical address. */
  datatype ProcInfo = ProcInfo(stackCount: nat, dirBase: nat, pid: nat, flink: nat)

  datatype Proc = Proc(process: nat, physProcess: nat, dirBase: nat, pid: nat)

  /** A process as the walk meets it: virtual and physical address. */
  datatype Place = Place(virt: nat, phys: nat)

  predicate Listed(p: ProcInfo) {
    p.pid < 0x8000_0000 && p.stackCount != 0
  }

  function ProcOf(info: nat -> ProcInfo, at: Place): Proc {
    Proc(at.virt, at.phys, info(at.phys).dirBase, info(at.phys).pid)
  }

  function NextVirt(info: nat -> ProcInfo, apl: int, at: Place): nat {
    Wrap64(info(at.phys).flink - apl)
  }

  /** The listed processes among the places, in order. */
  function AllListed(info: nat -> ProcInfo, places: seq<Place>): (r: seq<Proc>)
    ensures |r| <= |places|
    decreases |places|
  {
    if places == [] then []
    else
      var n := |places| - 1;
      AllListed(info, places[..n]) + if Listed(info(places[n].phys)) then [ProcOf(info, places[n])] else []
  }

  /** Collecting stops after a process with pid 0 or at the limit. */
  predicate Full(r: seq<Proc>) {
    |r| >= 1001 || (r != [] && r[|r| - 1].pid == 0)
  }

  /** `r` is `all` cut right after the first process with pid 0 or at the limit. */
  predicate IsCut(all: seq<Proc>, r: seq<Proc>) {
    && r <= all && |r| <= 1001
    && (forall i :: 0 <= i < |r| - 1 ==> r[i].pid != 0)
    && (r == all || Full(r))
  }

  lemma CutIsUnique(all: seq<Proc>, r: seq<Proc>, r': seq<Proc>)
    requires IsCut(all, r) && IsCut(all, r')
    ensures r == r'
  {
    CutNotShorter(all, r, r');
    CutNotShorter(all, r', r);
    assert r == all[..|r|] && r' == all[..|r'|];
  }

  lemma CutNotShorter(all: seq<Proc>, r: seq<Proc>, r': seq<Proc>)
    requires IsCut(all, r) && IsCut(all, r')
    ensures |r'| <= |r|
  {
    assert 0 < |r| <= |r'| ==> r[|r| - 1] == all[|r| - 1] == r'[|r| - 1];
  }

  /** What the walk reads of the guest: a process, the translation of its next link, and the
      offset of the links in a process. */
  datatype Guest = Guest(info: nat -> ProcInfo, translate: (nat, nat) -> nat, apl: int)

  function NextPlace(g: Guest, p: Place): Place {
    var v := NextVirt(g.info, g.apl, p);
    Place(v, g.translate(g.info(p.phys).dirBase, v))
  }

  /** The k-th place from `initial`. */
  function PlaceAt(g: Guest, initial: Place, k: nat): Place {
    if k == 0 then initial else NextPlace(g, PlaceAt(g, initial, k - 1))
  }

  function PlacesTo(g: Guest, initial: Place, k: nat): (r: seq<Place>)
    ensures |r| == k
  {
    if k == 0 then [] else PlacesTo(g, initial, k - 1) + [PlaceAt(g, initial, k - 1)]
  }

  function ListedTo(g: Guest, initial: Place, k: nat): (r: seq<Proc>)
    ensures |r| <= k
  {
    AllListed(g.info, PlacesTo(g, initial, k))
  }

  /** After k places the walk has collected enough, or has no next place, or is back at the start
      with something collected. */
  predicate EndsAt(g: Guest, initial: Place, k: nat) {
    var r, p := ListedTo(g, initial, k), PlaceAt(g, initial, k);
    && k >= 1
    && (Full(r) || p.virt == 0 || p.phys == 0 || (r != [] && (p.virt == initial.virt || p.phys == initial.phys)))
  }

  predicate FirstEnd(g: Guest, initial: Place, n: nat) {
    EndsAt(g, initial, n) && forall j :: 1 <= j < n ==> !EndsAt(g, initial, j)
  }

  lemma NextListed(g: Guest, initial: Place, k: nat)
    ensures PlaceAt(g, initial, k + 1) == NextPlace(g, PlaceAt(g, initial, k))
    ensures var p := PlaceAt(g, initial, k);
            ListedTo(g, initial, k + 1)
              == ListedTo(g, initial, k) + if Listed(g.info(p.phys)) then [ProcOf(g.info, p)] else []
  {
    hide Listed, ProcOf, NextPlace;
    assert PlacesTo(g, initial, k + 1)[..k] == PlacesTo(g, initial, k);
  }

  lemma StartListed(g: Guest, initial: Place)
    ensures PlaceAt(g, initial, 0) == initial && ListedTo(g, initial, 0) == []
  {
  }

  lemma EndOfWalk(g: Guest, initial: Place, n: nat, k: nat)
    requires FirstEnd(g, initial, n) && k <= n
    ensures k >= 1 && EndsAt(g, initial, k) ==> k == n
    ensures n >= 1
  {
    hide ListedTo, PlaceAt, Full;
  }

  /** `n` is where the walk first ends: without such an n it never does. */
  method GenerateProcessList(g: Guest, initial: Place, ghost n: nat) returns (list: array<Proc>, size: nat)
    requires FirstEnd(g, initial, n)
    ensures size <= list.Length && list[..size] == ListedTo(g, initial, n)
    ensures IsProcessList(g, initial, PlacesTo(g, initial, n), list[..size])
  {
    ListedIsList(g, initial, n);
    hide IsProcessList, AllListed, ListedTo, PlacesTo, PlaceAt, FirstEnd;
    var curProc, virtProcess := initial.phys, initial.virt;
    list := new Proc[25](_ => Proc(0, 0, 0, 0));
    size := 0;
    var maxSize := 25;
    ghost var k := 0;
    StartListed(g, initial);
    while size == 0 || (curProc != initial.phys && virtProcess != initial.virt)
      invariant k <= n && (k >= 1 ==> virtProcess != 0 && curProc != 0)
      invariant Place(virtProcess, curProc) == PlaceAt(g, initial, k)
      invariant maxSize == list.Length && size < maxSize && fresh(list) && size <= k
      invariant list[..size] == ListedTo(g, initial, k) && !Full(list[..size])
      decreases n - k
    {
      EndOfWalk(g, initial, n, k);
      NextListed(g, initial, k);
      NotYet(g, initial, n, k);
      var p := g.info(curProc);
      k := k + 1;
      EndOfWalk(g, initial, n, k);
      if p.pid < 0x8000_0000 && p.stackCount != 0 {
        Put(list, size, Proc(virtProcess, curProc, p.dirBase, p.pid));
        size := size + 1;
        if size > 1000 || p.pid == 0 { return; }
      }
      if size >= maxSize {
        maxSize := size * 2;
        list := Grow(list, size, maxSize, Proc(0, 0, 0, 0));
      }
      virtProcess := Wrap64(p.flink - g.apl);
      if virtProcess == 0 { return; }
      curProc := g.translate(p.dirBase, virtProcess);
      if curProc == 0 { return; }
    }
    EndOfWalk(g, initial, n, k);
  }

  lemma NotYet(g: Guest, initial: Place, n: nat, k: nat)
    requires FirstEnd(g, initial, n) && k <= n && !Full(ListedTo(g, initial, k))
    requires var r, p := ListedTo(g, initial, k), PlaceAt(g, initial, k);
             && (k >= 1 ==> p.virt != 0 && p.phys != 0)
             && (r == [] || (p.phys != initial.phys && p.virt != initial.virt))
    ensures k < n
  {
    hide ListedTo, PlaceAt, Full;
  }

  // ---- What the list is, in terms of what was read ----

  /** The places follow the links: a place's virtual address is the link before it less `apl`, modulo
      2^64, and its physical address is the translation of that in the process before it. */
  predicate Linked(g: Guest, initial: Place, places: seq<Place>) {
    && (places != [] ==> places[0] == initial)
    && forall k :: 0 < k < |places| ==> Follows(g, places[k - 1], places[k])
  }

  predicate Follows(g: Guest, p: Place, q: Place) {
    && q.virt == (g.info(p.phys).flink - g.apl) % 0x1_0000_0000_0000_0000
    && q.phys == g.translate(g.info(p.phys).dirBase, q.virt)
  }

  /** A process to list: its pid fits 31 bits, and it has stacks left. */
  predicate TakenAt(info: nat -> ProcInfo, p: Place) {
    info(p.phys).pid < 0x8000_0000 && info(p.phys).stackCount != 0
  }

  function TakenCount(info: nat -> ProcInfo, places: seq<Place>, n: nat): nat
    requires n <= |places|
  {
    if n == 0 then 0 else TakenCount(info, places, n - 1) + if TakenAt(info, places[n - 1]) then 1 else 0
  }

  /** The list has every such place, in order. */
  ghost predicate HasAll(info: nat -> ProcInfo, places: seq<Place>, list: seq<Proc>) {
    && |list| == TakenCount(info, places, |places|)
    && forall i :: 0 <= i < |places| && TakenAt(info, places[i]) ==>
         TakenCount(info, places, i) < |list| && IsOf(info, places[i], list[TakenCount(info, places, i)])
  }

  predicate IsOf(info: nat -> ProcInfo, p: Place, x: Proc) {
    && x.process == p.virt && x.physProcess == p.phys
    && x.dirBase == info(p.phys).dirBase && x.pid == info(p.phys).pid
  }

  /** And every element is of a place, with what was read there. */
  ghost predicate HasOnly(info: nat -> ProcInfo, places: seq<Place>, list: seq<Proc>) {
    forall j :: 0 <= j < |list| ==> FromPlace(info, places, list[j])
  }

  predicate FromPlace(info: nat -> ProcInfo, places: seq<Place>, x: Proc) {
    && x.pid < 0x8000_0000 && info(x.physProcess).stackCount != 0
    && info(x.physProcess).pid == x.pid && info(x.physProcess).dirBase == x.dirBase
    && Place(x.process, x.physProcess) in places
  }

  lemma {:induction false} TakenOfFront(info: nat -> ProcInfo, places: seq<Place>, k: nat, n: nat)
    requires n <= k <= |places|
    ensures TakenCount(info, places[..k], n) == TakenCount(info, places, n)
    decreases n
  {
    if n > 0 { TakenOfFront(info, places, k, n - 1); }
  }

  lemma AllListedLast(info: nat -> ProcInfo, places: seq<Place>, k: nat)
    requires |places| == k + 1
    ensures var p, front := places[k], AllListed(info, places[..k]);
            AllListed(info, places)
              == if TakenAt(info, p) then front + [Proc(p.virt, p.phys, info(p.phys).dirBase, info(p.phys).pid)]
                 else front
  {
  }

  lemma TakenCountNext(info: nat -> ProcInfo, places: seq<Place>, n: nat)
    requires n < |places|
    ensures TakenCount(info, places, n + 1)
         == TakenCount(info, places, n) + if TakenAt(info, places[n]) then 1 else 0
  {
  }

  /** One place more. */
  lemma HasAllNext(info: nat -> ProcInfo, places: seq<Place>, k: nat, front: seq<Proc>, x: Proc)
    requires |places| == k + 1 && HasAll(info, places[..k], front)
    requires IsOf(info, places[k], x)
    ensures HasAll(info, places, if TakenAt(info, places[k]) then front + [x] else front)
  {
    var list := if TakenAt(info, places[k]) then front + [x] else front;
    TakenCountNext(info, places, k);
    TakenOfFront(info, places, k, k);
    hide TakenCount, IsOf;
    forall i | 0 <= i < |places| && TakenAt(info, places[i])
      ensures TakenCount(info, places, i) < |list| && IsOf(info, places[i], list[TakenCount(info, places, i)])
    {
      if i < k {
        TakenOfFront(info, places, k, i);
        assert places[..k][i] == places[i];
      }
    }
  }

  lemma {:induction false} ListedHasAll(info: nat -> ProcInfo, places: seq<Place>)
    ensures HasAll(info, places, AllListed(info, places))
    decreases |places|
  {
    if places != [] {
      var k := |places| - 1;
      var p := places[k];
      ListedHasAll(info, places[..k]);
      AllListedLast(info, places, k);
      hide AllListed, HasAll;
      var x := Proc(p.virt, p.phys, info(p.phys).dirBase, info(p.phys).pid);
      HasAllNext(info, places, k, AllListed(info, places[..k]), x);
    }
  }

  lemma {:induction false} ListedHasOnly(info: nat -> ProcInfo, places: seq<Place>)
    ensures HasOnly(info, places, AllListed(info, places))
    decreases |places|
  {
    if places != [] {
      var k := |places| - 1;
      var list := AllListed(info, places);
      ListedHasOnly(info, places[..k]);
      AllListedLast(info, places, k);
      hide AllListed;
      forall j | 0 <= j < |list| ensures FromPlace(info, places, list[j]) {
        if j < |AllListed(info, places[..k])| { assert FromPlace(info, places[..k], list[j]); }
      }
    }
  }

  /** The list of a walk over these places. */
  ghost predicate IsProcessList(g: Guest, initial: Place, places: seq<Place>, list: seq<Proc>) {
    Linked(g, initial, places) && HasAll(g.info, places, list) && HasOnly(g.info, places, list)
  }

  lemma ListedIsList(g: Guest, initial: Place, n: nat)
    ensures IsProcessList(g, initial, PlacesTo(g, initial, n), ListedTo(g, initial, n))
  {
    PlacesLinked(g, initial, n);
    ListedHasAll(g.info, PlacesTo(g, initial, n));
    ListedHasOnly(g.info, PlacesTo(g, initial, n));
    hide Linked, HasAll, HasOnly, PlacesTo, AllListed;
  }

  lemma {:induction false} PlacesLinked(g: Guest, initial: Place, k: nat)
    ensures Linked(g, initial, PlacesTo(g, initial, k))
    ensures forall i :: 0 <= i < k ==> PlacesTo(g, initial, k)[i] == PlaceAt(g, initial, i)
    decreases k
  {
    if k > 0 { PlacesLinked(g, initial, k - 1); }
  }

  /** Why the walk stops before the k-th place: it has more than 1000 processes or one with pid 0, there
      is no next place, or the next is the first again and something has been found. */
  ghost predicate ReasonAt(g: Guest, initial: Place, places: seq<Place>, next: Place) {
    || TakenCount(g.info, places, |places|) > 1000
    || (exists i :: 0 <= i < |places| && IdleAt(g.info, places[i]))
    || next.virt == 0 || next.phys == 0
    || (TakenCount(g.info, places, |places|) > 0 && (next.virt == initial.virt || next.phys == initial.phys))
  }

  predicate IdleAt(info: nat -> ProcInfo, p: Place) {
    info(p.phys).pid == 0 && info(p.phys).stackCount != 0
  }

  lemma LastIsIdle(g: Guest, initial: Place, k: nat, i: nat)
    requires i < k && IdleAt(g.info, PlaceAt(g, initial, i))
    ensures EndsAt(g, initial, i + 1)
  {
    NextListed(g, initial, i);
    hide ListedTo, PlaceAt;
  }

  lemma IdleOfFull(g: Guest, initial: Place, k: nat) returns (i: nat)
    requires var r := ListedTo(g, initial, k); r != [] && r[|r| - 1].pid == 0
    ensures i < k && IdleAt(g.info, PlaceAt(g, initial, i))
  {
    var places := PlacesTo(g, initial, k);
    var r := ListedTo(g, initial, k);
    ListedHasOnly(g.info, places);
    PlacesLinked(g, initial, k);
    assert FromPlace(g.info, places, r[|r| - 1]);
    i :| 0 <= i < k && places[i] == Place(r[|r| - 1].process, r[|r| - 1].physProcess);
  }

  lemma CountOfListed(g: Guest, initial: Place, k: nat)
    ensures |ListedTo(g, initial, k)| == TakenCount(g.info, PlacesTo(g, initial, k), k)
    ensures forall i :: 0 <= i < k ==> PlacesTo(g, initial, k)[i] == PlaceAt(g, initial, i)
  {
    ListedHasAll(g.info, PlacesTo(g, initial, k));
    PlacesLinked(g, initial, k);
    hide Linked, PlaceAt, PlacesTo, AllListed, TakenCount, IsOf;
  }

  lemma ReasonAtEnd(g: Guest, initial: Place, k: nat)
    requires k >= 1 && EndsAt(g, initial, k)
    ensures ReasonAt(g, initial, PlacesTo(g, initial, k), PlaceAt(g, initial, k))
  {
    CountOfListed(g, initial, k);
    hide IdleAt, PlaceAt, PlacesTo, ListedTo, TakenCount;
    var r := ListedTo(g, initial, k);
    if r != [] && r[|r| - 1].pid == 0 { var i := IdleOfFull(g, initial, k); }
  }

  lemma NoReasonBefore(g: Guest, initial: Place, k: nat)
    requires k >= 1 && forall j :: 1 <= j <= k ==> !EndsAt(g, initial, j)
    ensures !ReasonAt(g, initial, PlacesTo(g, initial, k), PlaceAt(g, initial, k))
  {
    CountOfListed(g, initial, k);
    assert !EndsAt(g, initial, k);
    hide IdleAt, PlaceAt, PlacesTo, ListedTo, TakenCount;
    forall i | 0 <= i < k ensures !IdleAt(g.info, PlacesTo(g, initial, k)[i]) {
      if IdleAt(g.info, PlaceAt(g, initial, i)) { LastIsIdle(g, initial, k, i); }
    }
  }

  /** The walk stops at the first place where there is a reason. */
  lemma ReasonsExactly(g: Guest, initial: Place, n: nat)
    requires FirstEnd(g, initial, n)
    ensures forall k :: 1 <= k <= n ==>
              (ReasonAt(g, initial, PlacesTo(g, initial, k), PlaceAt(g, initial, k)) <==> k == n)
  {
    assert n >= 1;
    hide ReasonAt, EndsAt, PlacesTo, PlaceAt;
    forall k | 1 <= k <= n
      ensures ReasonAt(g, initial, PlacesTo(g, initial, k), PlaceAt(g, initial, k)) <==> k == n
    {
      if k == n { ReasonAtEnd(g, initial, n); } else { NoReasonBefore(g, initial, k); }
    }
  }

  // ---- A circular process list ----

  /** The list as the walk sees it: places differ in both addresses, and each leads to the next
      through its forward link and the reader's translation. */
  ghost predicate ProcRing(g: Guest, ring: seq<Place>) {
    && ring != []
    && (forall i, j :: 0 <= i < j < |ring| ==> ring[i].virt != ring[j].virt && ring[i].phys != ring[j].phys)
    && (forall i :: 0 <= i < |ring| ==> ring[i].virt != 0 && ring[i].phys != 0)
    && forall i :: 0 <= i < |ring| ==> NextPlace(g, ring[i]) == ring[if i + 1 == |ring| then 0 else i + 1]
  }

  lemma {:induction false} RingPlaces(g: Guest, ring: seq<Place>, k: nat)
    requires ProcRing(g, ring) && k <= |ring|
    ensures PlaceAt(g, ring[0], k) == ring[if k == |ring| then 0 else k] && PlacesTo(g, ring[0], k) == ring[..k]
    decreases k
  {
    hide NextPlace;
    if k > 0 { RingPlaces(g, ring, k - 1); }
  }

  /** What has been collected before place k: everything listed, and no reason yet to stop. */
  ghost predicate CollectedSoFar(info: nat -> ProcInfo, ring: seq<Place>, k: nat, r: seq<Proc>) {
    && k <= |ring| && r == AllListed(info, ring[..k]) && |r| < 1001
    && forall i :: 0 <= i < |r| ==> r[i].pid != 0
  }

  /** Place k adds itself if listed; a listed place that stops the collecting is the cut. */
  lemma CollectNext(info: nat -> ProcInfo, ring: seq<Place>, k: nat, r: seq<Proc>)
    requires CollectedSoFar(info, ring, k, r) && k < |ring|
    ensures var r' := AllListed(info, ring[..k + 1]);
            if Full(r') then IsCut(AllListed(info, ring), r') else CollectedSoFar(info, ring, k + 1, r')
  {
    AllListedNext(info, ring, k);
    ListedPrefix(info, ring, k + 1);
    hide AllListed, Listed;
  }

  lemma AllListedNext(info: nat -> ProcInfo, places: seq<Place>, k: nat)
    requires k < |places|
    ensures AllListed(info, places[..k + 1])
         == AllListed(info, places[..k]) + if Listed(info(places[k].phys)) then [ProcOf(info, places[k])] else []
  {
    hide Listed, ProcOf;
    assert places[..k + 1][..k] == places[..k];
  }

  lemma CollectedAll(info: nat -> ProcInfo, ring: seq<Place>, r: seq<Proc>)
    requires CollectedSoFar(info, ring, |ring|, r)
    ensures r == AllListed(info, ring) && IsCut(AllListed(info, ring), r) && !Full(r)
  {
    assert ring[..|ring|] == ring;
  }

  lemma {:induction false} RingEnds(g: Guest, ring: seq<Place>, k: nat) returns (n: nat)
    requires ProcRing(g, ring) && AllListed(g.info, ring) != [] && k < |ring|
    requires CollectedSoFar(g.info, ring, k, AllListed(g.info, ring[..k]))
    requires forall j :: 1 <= j <= k ==> !EndsAt(g, ring[0], j)
    ensures FirstEnd(g, ring[0], n) && IsCut(AllListed(g.info, ring), ListedTo(g, ring[0], n))
    decreases |ring| - k
  {
    hide AllListed, PlaceAt, PlacesTo, Full, NextPlace, IsCut;
    RingPlaces(g, ring, k + 1);
    CollectNext(g.info, ring, k, AllListed(g.info, ring[..k]));
    n := k + 1;
    if !EndsAt(g, ring[0], k + 1) {
      if k + 1 == |ring| {
        CollectedAll(g.info, ring, AllListed(g.info, ring[..k + 1]));
        assert false;
      }
      n := RingEnds(g, ring, k + 1);
    } else if !Full(ListedTo(g, ring[0], k + 1)) {
      assert k + 1 == |ring|;
      CollectedAll(g.info, ring, AllListed(g.info, ring[..k + 1]));
    }
  }

  /** On a circular list some process of which is listed the walk ends, with the listed processes
      in order, cut after the first pid 0 or at the limit. */
  lemma RingIsListed(g: Guest, ring: seq<Place>) returns (n: nat)
    requires ProcRing(g, ring) && AllListed(g.info, ring) != []
    ensures FirstEnd(g, ring[0], n) && IsCut(AllListed(g.info, ring), ListedTo(g, ring[0], n))
  {
    assert CollectedSoFar(g.info, ring, 0, AllListed(g.info, ring[..0]));
    hide *;
    n := RingEnds(g, ring, 0);
  }

  lemma {:induction false} NoneListed(info: nat -> ProcInfo, places: seq<Place>, i: nat)
    requires AllListed(info, places) == [] && i < |places|
    ensures !Listed(info(places[i].phys))
    decreases |places|
  {
    if i < |places| - 1 { NoneListed(info, places[..|places| - 1], i); }
  }

  lemma NextIndex(k: nat, n: nat)
    requires n > 0
    ensures (k + 1) % n == if k % n + 1 == n then 0 else k % n + 1
  {
    if k % n + 1 == n {
      HalfOfScaled(k / n + 1, n, 0);
      DivDef(k, n);
    } else {
      HalfOfScaled(k / n, n, k % n + 1);
      DivDef(k, n);
    }
  }

  lemma {:induction false} RoundAndRound(g: Guest, ring: seq<Place>, k: nat)
    requires ProcRing(g, ring) && AllListed(g.info, ring) == []
    ensures PlaceAt(g, ring[0], k) == ring[k % |ring|] && ListedTo(g, ring[0], k) == []
  {
    assert ring != [];
    hide *;
    if k == 0 {
      StartListed(g, ring[0]);
      HalfOfScaled(0, |ring|, 0);
    } else {
      RoundAndRound(g, ring, k - 1);
      var i := (k - 1) % |ring|;
      OneRound(g, ring, k - 1, i);
      NextIndex(k - 1, |ring|);
    }
  }

  lemma OneRound(g: Guest, ring: seq<Place>, k: nat, i: nat)
    requires ProcRing(g, ring) && AllListed(g.info, ring) == [] && i < |ring|
    requires PlaceAt(g, ring[0], k) == ring[i] && ListedTo(g, ring[0], k) == []
    ensures PlaceAt(g, ring[0], k + 1) == ring[if i + 1 == |ring| then 0 else i + 1]
    ensures ListedTo(g, ring[0], k + 1) == []
  {
    hide Listed, ListedTo, PlaceAt, AllListed, NextPlace;
    NextListed(g, ring[0], k);
    NoneListed(g.info, ring, i);
  }

  /** On a circular list the walk ends exactly if some process of it is listed. */
  lemma RingEndsExactly(g: Guest, ring: seq<Place>)
    requires ProcRing(g, ring)
    ensures (exists n :: FirstEnd(g, ring[0], n)) <==> AllListed(g.info, ring) != []
  {
    hide AllListed, ListedTo, PlaceAt, IsCut, NextPlace;
    if AllListed(g.info, ring) != [] {
      var n := RingIsListed(g, ring);
    } else {
      forall n: nat ensures !FirstEnd(g, ring[0], n) { RoundAndRound(g, ring, n); }
    }
  }

  lemma {:induction false} ListedPrefix(info: nat -> ProcInfo, places: seq<Place>, k: nat)
    requires k <= |places|
    ensures AllListed(info, places[..k]) <= AllListed(info, places)
    decreases |places|
  {
    if k < |places| {
      ListedPrefix(info, places[..|places| - 1], k);
      assert places[..|places| - 1][..k] == places[..k];
    } else {
      assert places[..k] == places;
    }
  }
}
