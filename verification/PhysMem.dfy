/** Access to guest-physical memory mapped into this process: the remap around the PCI hole, the
    bounds test, and the copies one by one. Guest RAM and the caller's memory are byte arrays;
    a local address is an index into the latter. */
module PhysMem {
  import opened Bits
  import opened Splitter

  /** KFIXC and KFIXO. */
  datatype Fix = Fix(cut: nat, off: nat)

  const Q35: Fix := Fix(0x8000_0000, 0x8000_0000)
  const XP: Fix := Fix(0x1_0000_0000, 0x4000_0000)

  /** The two settings the program uses. */
  type Hole = f: Fix | f == Q35 || f == XP witness Q35

  /** KFIX2. */
  function Remap(f: Hole, x: nat): nat {
    if x < f.cut then x else x - f.off
  }

  /** The guest-physical addresses that are RAM when `size` bytes are mapped. */
  predicate IsRam(f: Hole, size: nat, x: nat) {
    if x < 0x1_0000_0000 then x < 0x1_0000_0000 - f.off && x < size else x < size + f.off
  }

  /** The RAM address behind byte i of the mapping. */
  function Unmap(f: Hole, i: nat): nat {
    if i < 0x1_0000_0000 - f.off then i else i + f.off
  }

  /** The bounds test: the subtraction may wrap. */
  predicate Accepts(size: nat, r: nat, len: nat) {
    r < Wrap64(size - len)
  }

  // ---- Copies ----

  function Splice(b: seq<Byte>, at: nat, x: seq<Byte>): (r: seq<Byte>)
    requires at + |x| <= |b|
    ensures |r| == |b|
    ensures forall i :: 0 <= i < |b| ==> r[i] == if at <= i < at + |x| then x[i - at] else b[i]
  {
    b[..at] + x + b[at + |x|..]
  }

  predicate InRange(f: Hole, ramSize: nat, c: RW) {
    Accepts(ramSize, Remap(f, c.remote), c.size)
  }

  /** What the caller owes: a transfer stays inside local memory and, if the bounds test lets it
      through, inside guest RAM. By TestProtectsExactly the latter fails only for a transfer
      longer than RAM that is not refused. */
  predicate Proper(f: Hole, bufSize: nat, ramSize: nat, c: RW) {
    && c.local + c.size <= bufSize && c.size < TWO_64 && ramSize < TWO_64
    && (InRange(f, ramSize, c) ==> Remap(f, c.remote) + c.size <= ramSize)
  }

  predicate AllProper(f: Hole, bufSize: nat, ramSize: nat, cs: seq<RW>) {
    forall i :: 0 <= i < |cs| ==> Proper(f, bufSize, ramSize, cs[i])
  }

  function ReadChunk(f: Hole, ram: seq<Byte>, buf: seq<Byte>, c: RW): (r: seq<Byte>)
    requires Proper(f, |buf|, |ram|, c) && InRange(f, |ram|, c)
    ensures |r| == |buf|
  {
    Splice(buf, c.local, ram[Remap(f, c.remote)..Remap(f, c.remote) + c.size])
  }

  function WriteChunk(f: Hole, ram: seq<Byte>, buf: seq<Byte>, c: RW): (r: seq<Byte>)
    requires Proper(f, |buf|, |ram|, c) && InRange(f, |ram|, c)
    ensures |r| == |ram|
  {
    Splice(ram, Remap(f, c.remote), buf[c.local..c.local + c.size])
  }

  /** Result and contents after the transfers in order; -1 at the first one out of range, with
      the earlier ones done. */
  function ReadAll(f: Hole, ram: seq<Byte>, buf: seq<Byte>, cs: seq<RW>): (r: (int, seq<Byte>))
    requires AllProper(f, |buf|, |ram|, cs)
    ensures r.0 >= -1 && |r.1| == |buf|
    decreases |cs|
  {
    if cs == [] then (0, buf)
    else if !InRange(f, |ram|, cs[0]) then (-1, buf)
    else
      var (n, b) := ReadAll(f, ram, ReadChunk(f, ram, buf, cs[0]), cs[1..]);
      (Add(cs[0].size, n), b)
  }

  function WriteAll(f: Hole, ram: seq<Byte>, buf: seq<Byte>, cs: seq<RW>): (r: (int, seq<Byte>))
    requires AllProper(f, |buf|, |ram|, cs)
    ensures r.0 >= -1 && |r.1| == |ram|
    decreases |cs|
  {
    if cs == [] then (0, ram)
    else if !InRange(f, |ram|, cs[0]) then (-1, ram)
    else
      var (n, m) := WriteAll(f, WriteChunk(f, ram, buf, cs[0]), buf, cs[1..]);
      (Add(cs[0].size, n), m)
  }

  /** Bytes moved, where -1 is a failure. */
  function Add(k: nat, n: int): (r: int)
    requires n >= -1
    ensures r >= -1
  {
    if n == -1 then -1 else k + n
  }

  lemma ReadStep(f: Hole, ram: seq<Byte>, buf: seq<Byte>, cs: seq<RW>, i: nat)
    requires i < |cs| && AllProper(f, |buf|, |ram|, cs[i..])
    ensures ReadAll(f, ram, buf, cs[i..]) ==
            if !InRange(f, |ram|, cs[i]) then (-1, buf)
            else
              assert AllProper(f, |buf|, |ram|, cs[i + 1..]) by { SuffixProper(f, |buf|, |ram|, cs, i); }
              var (n, b) := ReadAll(f, ram, ReadChunk(f, ram, buf, cs[i]), cs[i + 1..]);
              (Add(cs[i].size, n), b)
  {
    assert cs[i..][1..] == cs[i + 1..];
  }

  lemma WriteStep(f: Hole, ram: seq<Byte>, buf: seq<Byte>, cs: seq<RW>, i: nat)
    requires i < |cs| && AllProper(f, |buf|, |ram|, cs[i..])
    ensures WriteAll(f, ram, buf, cs[i..]) ==
            if !InRange(f, |ram|, cs[i]) then (-1, ram)
            else
              assert AllProper(f, |buf|, |ram|, cs[i + 1..]) by { SuffixProper(f, |buf|, |ram|, cs, i); }
              var (n, m) := WriteAll(f, WriteChunk(f, ram, buf, cs[i]), buf, cs[i + 1..]);
              (Add(cs[i].size, n), m)
  {
    assert cs[i..][1..] == cs[i + 1..];
  }

  lemma ReadNothing(f: Hole, ram: seq<Byte>, buf: seq<Byte>, flen: nat)
    ensures AllProper(f, |buf|, |ram|, []) && ReadAll(f, ram, buf, []) == (0, buf) && Add(flen, 0) == flen
  {
  }

  lemma WriteNothing(f: Hole, ram: seq<Byte>, buf: seq<Byte>, flen: nat)
    ensures AllProper(f, |buf|, |ram|, []) && WriteAll(f, ram, buf, []) == (0, ram) && Add(flen, 0) == flen
  {
  }

  lemma WriteHead(f: Hole, ram: seq<Byte>, buf: seq<Byte>, a: seq<RW>)
    requires AllProper(f, |buf|, |ram|, a) && a != [] && InRange(f, |ram|, a[0])
    ensures Proper(f, |buf|, |ram|, a[0]) && AllProper(f, |buf|, |ram|, a[1..])
    ensures var (n, x) := WriteAll(f, WriteChunk(f, ram, buf, a[0]), buf, a[1..]);
            WriteAll(f, ram, buf, a) == (Add(a[0].size, n), x)
  {
    hide InRange, WriteChunk, Proper;
  }

  lemma ReadHead(f: Hole, ram: seq<Byte>, buf: seq<Byte>, a: seq<RW>)
    requires AllProper(f, |buf|, |ram|, a) && a != [] && InRange(f, |ram|, a[0])
    ensures Proper(f, |buf|, |ram|, a[0]) && AllProper(f, |buf|, |ram|, a[1..])
    ensures var (n, x) := ReadAll(f, ram, ReadChunk(f, ram, buf, a[0]), a[1..]);
            ReadAll(f, ram, buf, a) == (Add(a[0].size, n), x)
  {
    hide InRange, ReadChunk, Proper;
  }

  lemma SuffixProper(f: Hole, bufSize: nat, ramSize: nat, cs: seq<RW>, i: nat)
    requires i < |cs| && AllProper(f, bufSize, ramSize, cs[i..])
    ensures Proper(f, bufSize, ramSize, cs[i]) && AllProper(f, bufSize, ramSize, cs[i + 1..])
  {
    assert cs[i..][0] == cs[i];
    assert cs[i + 1..] == cs[i..][1..];
  }

  method Memcpy(dst: array<Byte>, at: nat, src: array<Byte>, from: nat, len: nat)
    requires dst != src && at + len <= dst.Length && from + len <= src.Length
    modifies dst
    ensures dst[..] == Splice(old(dst[..]), at, src[from..from + len])
  {
    forall i | 0 <= i < len { dst[at + i] := src[from + i]; }
  }

  /** The test and the copy of one transfer out of guest RAM. */
  method CopyOut(f: Hole, ram: array<Byte>, buf: array<Byte>, c: RW) returns (ok: bool)
    requires ram != buf && Proper(f, buf.Length, ram.Length, c)
    modifies buf
    ensures ok == InRange(f, ram.Length, c)
    ensures buf[..] == if ok then ReadChunk(f, ram[..], old(buf[..]), c) else old(buf[..])
  {
    var r := Remap(f, c.remote);
    if r >= Wrap64(ram.Length - c.size) { return false; }
    Memcpy(buf, c.local, ram, r, c.size);
    return true;
  }

  /** The test and the copy of one transfer into guest RAM. */
  method CopyIn(f: Hole, ram: array<Byte>, buf: array<Byte>, c: RW) returns (ok: bool)
    requires ram != buf && Proper(f, buf.Length, ram.Length, c)
    modifies ram
    ensures ok == InRange(f, ram.Length, c)
    ensures ram[..] == if ok then WriteChunk(f, old(ram[..]), buf[..], c) else old(ram[..])
  {
    var r := Remap(f, c.remote);
    if r >= Wrap64(ram.Length - c.size) { return false; }
    Memcpy(ram, r, buf, c.local, c.size);
    return true;
  }

  method MemRead(f: Hole, ram: array<Byte>, buf: array<Byte>, local: nat, remote: nat, len: nat) returns (ret: int)
    requires ram != buf && Proper(f, buf.Length, ram.Length, RW(local, remote, len))
    modifies buf
    ensures (ret, buf[..]) == ReadAll(f, ram[..], old(buf[..]), [RW(local, remote, len)])
  {
    var ok := CopyOut(f, ram, buf, RW(local, remote, len));
    return if ok then len else -1;
  }

  method MemReadMul(f: Hole, ram: array<Byte>, buf: array<Byte>, rdata: array<RW>, num: nat) returns (ret: int)
    requires ram != buf && num <= rdata.Length && AllProper(f, buf.Length, ram.Length, rdata[..num])
    modifies buf
    ensures (ret, buf[..]) == ReadAll(f, ram[..], old(buf[..]), rdata[..num])
  {
    hide ReadAll, WriteAll, InRange, ReadChunk, WriteChunk, AllProper, Proper;
    ghost var cs := rdata[..num];
    assert cs[0..] == cs;
    var flen: nat := 0;
    for i := 0 to num
      invariant AllProper(f, buf.Length, ram.Length, cs[i..])
      invariant var (n, b) := ReadAll(f, ram[..], buf[..], cs[i..]);
                ReadAll(f, ram[..], old(buf[..]), cs) == (Add(flen, n), b)
    {
      ReadStep(f, ram[..], buf[..], cs, i);
      SuffixProper(f, buf.Length, ram.Length, cs, i);
      var ok := CopyOut(f, ram, buf, rdata[i]);
      if !ok { return -1; }
      flen := flen + rdata[i].size;
    }
    assert cs[num..] == [];
    ReadNothing(f, ram[..], buf[..], flen);
    return flen;
  }

  method MemWrite(f: Hole, ram: array<Byte>, buf: array<Byte>, local: nat, remote: nat, len: nat) returns (ret: int)
    requires ram != buf && Proper(f, buf.Length, ram.Length, RW(local, remote, len))
    modifies ram
    ensures (ret, ram[..]) == WriteAll(f, old(ram[..]), buf[..], [RW(local, remote, len)])
  {
    var ok := CopyIn(f, ram, buf, RW(local, remote, len));
    return if ok then len else -1;
  }

  method MemWriteMul(f: Hole, ram: array<Byte>, buf: array<Byte>, wdata: array<RW>, num: nat) returns (ret: int)
    requires ram != buf && num <= wdata.Length && AllProper(f, buf.Length, ram.Length, wdata[..num])
    modifies ram
    ensures (ret, ram[..]) == WriteAll(f, old(ram[..]), buf[..], wdata[..num])
  {
    hide ReadAll, WriteAll, InRange, ReadChunk, WriteChunk, AllProper, Proper;
    ghost var cs := wdata[..num];
    assert cs[0..] == cs;
    var flen: nat := 0;
    for i := 0 to num
      invariant AllProper(f, buf.Length, ram.Length, cs[i..])
      invariant var (n, m) := WriteAll(f, ram[..], buf[..], cs[i..]);
                WriteAll(f, old(ram[..]), buf[..], cs) == (Add(flen, n), m)
    {
      WriteStep(f, ram[..], buf[..], cs, i);
      SuffixProper(f, buf.Length, ram.Length, cs, i);
      var ok := CopyIn(f, ram, buf, wdata[i]);
      if !ok { return -1; }
      flen := flen + wdata[i].size;
    }
    assert cs[num..] == [];
    WriteNothing(f, ram[..], buf[..], flen);
    return flen;
  }

  // ---- The bounds test ----

  /** For transfers no longer than guest RAM the test is "ends before the last byte". */
  lemma AcceptsExactly(size: nat, r: nat, len: nat)
    requires len <= size < TWO_64
    ensures Accepts(size, r, len) <==> r + len < size
  {
  }

  /** The test keeps a transfer inside guest RAM exactly for lengths up to the RAM size, or when
      the wrapped bound still refuses it. */
  lemma TestProtectsExactly(size: nat, r: nat, len: nat)
    requires size < TWO_64 && 0 < len < TWO_64
    ensures (Accepts(size, r, len) ==> r + len <= size) <==> (len <= size || r >= size + TWO_64 - len)
  {
  }

  // ---- The remap ----

  /** Both settings map RAM onto [0, size) one to one and in order. */
  lemma RemapBijective(f: Hole, size: nat, x: nat, i: nat)
    ensures IsRam(f, size, x) ==> Remap(f, x) < size && Unmap(f, Remap(f, x)) == x
    ensures i < size ==> IsRam(f, size, Unmap(f, i)) && Remap(f, Unmap(f, i)) == i
  {
  }

  /** RAM continues above the hole, at 4 GB, with the byte of the mapping after the last one below it:
      at 2 GB for the Q35 setting, at 3 GB for XP. */
  lemma AboveHole()
    ensures Remap(Q35, 0x7fff_ffff) == 0x7fff_ffff && Remap(Q35, 0x1_0000_0000) == 0x8000_0000
    ensures Remap(XP, 0xbfff_ffff) == 0xbfff_ffff && Remap(XP, 0x1_0000_0000) == 0xc000_0000
  {
  }

  lemma RemapMonotone(f: Hole, size: nat, x: nat, y: nat)
    requires IsRam(f, size, x) && IsRam(f, size, y) && x < y
    ensures Remap(f, x) < Remap(f, y)
  {
  }

  /** A transfer inside one page is moved as a whole. */
  lemma RemapLinear(f: Hole, x: nat, i: nat)
    requires OffsetOf(x) + i < 0x1000
    ensures Remap(f, x + i) == Remap(f, x) + i
  {
    assert x + i == PageOf(x) + (OffsetOf(x) + i);
  }

  // ---- What a list of transfers does to each byte ----

  predicate Ascending(cs: seq<RW>) {
    forall i, j :: 0 <= i < j < |cs| ==> cs[i].local + cs[i].size <= cs[j].local
  }

  predicate AllInRange(f: Hole, ramSize: nat, cs: seq<RW>) {
    forall i :: 0 <= i < |cs| ==> InRange(f, ramSize, cs[i])
  }

  function TotalSize(cs: seq<RW>): nat {
    if cs == [] then 0 else cs[0].size + TotalSize(cs[1..])
  }

  predicate InChunk(c: RW, x: int) {
    c.local <= x < c.local + c.size
  }

  predicate InNoChunk(cs: seq<RW>, x: int) {
    forall k :: 0 <= k < |cs| ==> !InChunk(cs[k], x)
  }

  /** Local byte x of chunk c holds the guest byte meant for it. */
  predicate Delivered(f: Hole, ram: seq<Byte>, b: seq<Byte>, c: RW, x: int) {
    InChunk(c, x) ==>
      x < |b| && Remap(f, c.remote) + (x - c.local) < |ram| &&
      b[x] == ram[Remap(f, c.remote) + (x - c.local)]
  }

  lemma RangeOfTail(f: Hole, ramSize: nat, cs: seq<RW>)
    requires cs != [] && InRange(f, ramSize, cs[0])
    ensures AllInRange(f, ramSize, cs) <==> AllInRange(f, ramSize, cs[1..])
  {
    hide InRange;
    if AllInRange(f, ramSize, cs[1..]) {
      forall i | 0 <= i < |cs| ensures InRange(f, ramSize, cs[i]) {
        if i > 0 { assert cs[i] == cs[1..][i - 1]; }
      }
    }
  }

  /** A list whose chunks are all in range moves every byte and says so; any other list fails. */
  lemma {:induction false} ReadAllTotal(f: Hole, ram: seq<Byte>, buf: seq<Byte>, cs: seq<RW>)
    requires AllProper(f, |buf|, |ram|, cs)
    ensures ReadAll(f, ram, buf, cs).0 == if AllInRange(f, |ram|, cs) then TotalSize(cs) else -1
    decreases |cs|
  {
    if cs != [] && InRange(f, |ram|, cs[0]) {
      RangeOfTail(f, |ram|, cs);
      ReadAllTotal(f, ram, ReadChunk(f, ram, buf, cs[0]), cs[1..]);
      hide InRange, ReadChunk, AllInRange, Proper;
    }
  }

  /** Local bytes in no chunk keep their value, even if the list is cut short. */
  lemma {:induction false} ReadAllFrame(f: Hole, ram: seq<Byte>, buf: seq<Byte>, cs: seq<RW>, x: nat)
    requires AllProper(f, |buf|, |ram|, cs) && x < |buf| && InNoChunk(cs, x)
    ensures ReadAll(f, ram, buf, cs).1[x] == buf[x]
    decreases |cs|
  {
    if cs != [] && InRange(f, |ram|, cs[0]) {
      assert !InChunk(cs[0], x);
      assert forall i :: 0 <= i < |cs[1..]| ==> cs[1..][i] == cs[i + 1];
      ReadAllFrame(f, ram, ReadChunk(f, ram, buf, cs[0]), cs[1..], x);
    }
  }

  /** Reads into ascending local ranges deliver every byte. */
  lemma {:induction false} ReadAllBytes(f: Hole, ram: seq<Byte>, buf: seq<Byte>, cs: seq<RW>, k: nat, x: nat)
    requires AllProper(f, |buf|, |ram|, cs) && AllInRange(f, |ram|, cs) && Ascending(cs)
    requires k < |cs| && InChunk(cs[k], x)
    ensures Delivered(f, ram, ReadAll(f, ram, buf, cs).1, cs[k], x)
    decreases |cs|
  {
    var rest := cs[1..];
    assert forall i :: 0 <= i < |rest| ==> rest[i] == cs[i + 1];
    hide ReadAll, ReadChunk, Remap, InRange, AllProper, Proper;
    ReadHead(f, ram, buf, cs);
    var b1 := ReadChunk(f, ram, buf, cs[0]);
    if k == 0 {
      ReadChunkByte(f, ram, buf, cs[0], x);
      ReadAllFrame(f, ram, b1, rest, x);
    } else {
      ReadAllBytes(f, ram, b1, rest, k - 1, x);
    }
  }

  lemma ReadChunkByte(f: Hole, ram: seq<Byte>, buf: seq<Byte>, c: RW, x: nat)
    requires Proper(f, |buf|, |ram|, c) && InRange(f, |ram|, c) && InChunk(c, x)
    ensures Delivered(f, ram, ReadChunk(f, ram, buf, c), c, x)
  {
    hide InRange, Remap;
  }

  // ---- Writes ----

  /** RAM byte y is a target of chunk c. */
  predicate Targets(f: Hole, c: RW, y: int) {
    Remap(f, c.remote) <= y < Remap(f, c.remote) + c.size
  }

  predicate TargetsNone(f: Hole, cs: seq<RW>, y: int) {
    forall k :: 0 <= k < |cs| ==> !Targets(f, cs[k], y)
  }

  lemma {:induction false} WriteAllTotal(f: Hole, ram: seq<Byte>, buf: seq<Byte>, cs: seq<RW>)
    requires AllProper(f, |buf|, |ram|, cs)
    ensures WriteAll(f, ram, buf, cs).0 == if AllInRange(f, |ram|, cs) then TotalSize(cs) else -1
    decreases |cs|
  {
    if cs != [] && InRange(f, |ram|, cs[0]) {
      RangeOfTail(f, |ram|, cs);
      WriteAllTotal(f, WriteChunk(f, ram, buf, cs[0]), buf, cs[1..]);
      hide InRange, WriteChunk, AllInRange, Proper;
    }
  }

  /** Guest bytes that are no target keep their value, even if the list is cut short. */
  lemma {:induction false} WriteAllFrame(f: Hole, ram: seq<Byte>, buf: seq<Byte>, cs: seq<RW>, y: nat)
    requires AllProper(f, |buf|, |ram|, cs) && y < |ram| && TargetsNone(f, cs, y)
    ensures WriteAll(f, ram, buf, cs).1[y] == ram[y]
    decreases |cs|
  {
    if cs != [] && InRange(f, |ram|, cs[0]) {
      assert !Targets(f, cs[0], y);
      assert forall i :: 0 <= i < |cs[1..]| ==> cs[1..][i] == cs[i + 1];
      WriteAllFrame(f, WriteChunk(f, ram, buf, cs[0]), buf, cs[1..], y);
    }
  }

  lemma WriteChunkByte(f: Hole, ram: seq<Byte>, buf: seq<Byte>, c: RW, y: nat)
    requires Proper(f, |buf|, |ram|, c) && InRange(f, |ram|, c) && Targets(f, c, y)
    ensures y < |ram| && 0 <= y - Remap(f, c.remote) + c.local < |buf|
    ensures WriteChunk(f, ram, buf, c)[y] == buf[y - Remap(f, c.remote) + c.local]
  {
    hide InRange, Remap;
    var i := y - Remap(f, c.remote);
    assert buf[c.local..c.local + c.size][i] == buf[c.local + i];
  }

  lemma FirstWriteStays(f: Hole, ram: seq<Byte>, buf: seq<Byte>, cs: seq<RW>, y: nat)
    requires AllProper(f, |buf|, |ram|, cs) && cs != [] && InRange(f, |ram|, cs[0])
    requires Targets(f, cs[0], y) && TargetsNone(f, cs[1..], y)
    ensures y < |ram| && 0 <= y - Remap(f, cs[0].remote) + cs[0].local < |buf|
    ensures WriteAll(f, ram, buf, cs).1[y] == buf[y - Remap(f, cs[0].remote) + cs[0].local]
  {
    hide *;
    WriteHead(f, ram, buf, cs);
    WriteChunkByte(f, ram, buf, cs[0], y);
    WriteAllFrame(f, WriteChunk(f, ram, buf, cs[0]), buf, cs[1..], y);
  }

  /** A guest byte gets its value from the last chunk that targets it. */
  lemma {:induction false} LastWriteWins(f: Hole, ram: seq<Byte>, buf: seq<Byte>, cs: seq<RW>, k: nat, y: nat)
    requires AllProper(f, |buf|, |ram|, cs) && AllInRange(f, |ram|, cs)
    requires k < |cs| && Targets(f, cs[k], y) && TargetsNone(f, cs[k + 1..], y)
    ensures y < |ram| && 0 <= y - Remap(f, cs[k].remote) + cs[k].local < |buf|
    ensures WriteAll(f, ram, buf, cs).1[y] == buf[y - Remap(f, cs[k].remote) + cs[k].local]
    decreases |cs|
  {
    if k == 0 {
      FirstWriteStays(f, ram, buf, cs, y);
    } else {
      assert cs[1..][k - 1] == cs[k] && cs[1..][k..] == cs[k + 1..];
      assert forall i :: 0 <= i < |cs[1..]| ==> cs[1..][i] == cs[i + 1];
      hide Targets, TargetsNone, InRange, WriteAll, WriteChunk, Proper, AllProper, Remap;
      WriteHead(f, ram, buf, cs);
      LastWriteWins(f, WriteChunk(f, ram, buf, cs[0]), buf, cs[1..], k - 1, y);
    }
  }
}
