/** Guest physical memory, and the guest as it changes while it is being read. */
module GuestMemory {
  import opened Bits
  import opened Clock

  /** The byte at every guest-physical address. */
  type Mem = nat -> Byte

  /** A guest that keeps running. Every clock reading and every access to guest memory happens
      at a tick; `clock` gives the reading and `mem` the memory contents at that tick. */
  datatype World = World(clock: nat -> Time, mem: nat -> Mem)

  /** The clock is monotone and stays below 2^63 ns. */
  ghost predicate GoodClock(w: World) {
    forall t: nat, u: nat :: t <= u ==> Nanos(w.clock(t)) <= Nanos(w.clock(u)) < TWO_64 / 2
  }

  // Little-endian words.

  function Word16(b: seq<Byte>): (r: nat)
    requires |b| == 2
    ensures r < 0x1_0000
  {
    (b[0] as int) + 0x100 * (b[1] as int)
  }

  function Word32(b: seq<Byte>): (r: nat)
    requires |b| == 4
    ensures r < TWO_32
  {
    Word16(b[..2]) + 0x1_0000 * Word16(b[2..])
  }

  function Word64(b: seq<Byte>): U64
    requires |b| == 8
  {
    Word32(b[..4]) + TWO_32 * Word32(b[4..])
  }

  function Bytes(m: Mem, address: nat, len: nat): (b: seq<Byte>)
    ensures |b| == len
    ensures forall i :: 0 <= i < len ==> b[i] == m(address + i)
  {
    seq(len, i requires 0 <= i < len => m(address + i))
  }

  /** MemReadU64 on readable memory. */
  function ReadU64(m: Mem, address: nat): U64 {
    Word64(Bytes(m, address, 8))
  }

  // Byte i of a word is the byte at address + i.

  function LittleEndian(b: seq<Byte>): nat {
    if b == [] then 0 else b[0] + 0x100 * LittleEndian(b[1..])
  }

  lemma {:induction false} ByteOf(b: seq<Byte>, i: nat)
    requires i < |b|
    ensures LittleEndian(b) / Pow2(8 * i) % 0x100 == b[i]
    decreases i
  {
    var rest := LittleEndian(b[1..]);
    HalfOfScaled(rest, 0x100, b[0]);
    if i > 0 {
      ByteOf(b[1..], i - 1);
      EightMore(i);
      Digits(LittleEndian(b), 0x100, Pow2(8 * (i - 1)));
    }
  }

  lemma EightMore(i: nat)
    requires i > 0
    ensures Pow2(8 * i) == 0x100 * Pow2(8 * (i - 1))
  {
    assert Pow2(8) == 0x100;
    PowSum(8, 8 * (i - 1));
    assert 8 + 8 * (i - 1) == 8 * i;
  }

  lemma Word16Bytes(b: seq<Byte>)
    requires |b| == 2
    ensures Word16(b) == LittleEndian(b)
  {
    assert b[1..][1..] == [];
    assert LittleEndian(b[1..]) == b[1] + 0x100 * LittleEndian(b[1..][1..]);
  }

  lemma Unroll(b: seq<Byte>, i: nat)
    requires i < |b|
    ensures LittleEndian(b[i..]) == b[i] + 0x100 * LittleEndian(b[i + 1..])
  {
    assert b[i..][1..] == b[i + 1..];
  }

  /** The first four bytes and the rest. */
  lemma FourBytes(b: seq<Byte>)
    requires |b| >= 4
    ensures LittleEndian(b) == b[0] + 0x100 * b[1] + 0x1_0000 * b[2] + 0x100_0000 * b[3] + TWO_32 * LittleEndian(b[4..])
  {
    assert b[0..] == b;
    Unroll(b, 0);
    Unroll(b, 1);
    Unroll(b, 2);
    Unroll(b, 3);
    hide LittleEndian;
  }

  lemma Word32Bytes(b: seq<Byte>)
    requires |b| == 4
    ensures Word32(b) == LittleEndian(b)
  {
    FourBytes(b);
    assert b[4..] == [] && LittleEndian([]) == 0;
    hide LittleEndian;
  }

  lemma Word64Bytes(b: seq<Byte>)
    requires |b| == 8
    ensures Word64(b) == LittleEndian(b)
  {
    FourBytes(b);
    FourBytes(b[4..]);
    assert b[4..][4..] == [] && LittleEndian([]) == 0;
    hide LittleEndian;
  }

  /** Byte i of the word at an address is the byte at address + i. */
  lemma WordByte(m: Mem, address: nat, i: nat)
    requires i < 8
    ensures ReadU64(m, address) / Pow2(8 * i) % 0x100 == m(address + i)
  {
    Word64Bytes(Bytes(m, address, 8));
    ByteOf(Bytes(m, address, 8), i);
  }

  /** And there is nothing more to the word than these bytes. */
  lemma WordIsBytes(m: Mem, address: nat)
    ensures ReadU64(m, address) == LittleEndian(Bytes(m, address, 8))
  {
    Word64Bytes(Bytes(m, address, 8));
  }

  lemma AlignedInPage(address: nat)
    requires address % 8 == 0
    ensures OffsetOf(address) % 8 == 0 && OffsetOf(address) + 8 <= 0x1000
  {
  }

  /** An aligned word lies inside one page, so it can be taken out of a copy of that page. */
  lemma WordInsidePage(m: Mem, address: nat)
    requires address % 8 == 0
    ensures OffsetOf(address) + 8 <= 0x1000
    ensures Word64(Bytes(m, PageOf(address), 0x1000)[OffsetOf(address)..OffsetOf(address) + 8])
         == ReadU64(m, address)
  {
    var o := OffsetOf(address);
    AlignedInPage(address);
    assert Bytes(m, PageOf(address), 0x1000)[o..o + 8] == Bytes(m, address, 8);
  }
}
