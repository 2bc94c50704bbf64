/** What an export table means, in terms of its raw bytes (PE Format, "The .edata Section (Image
    Only)"): the reference for the parser. Offsets 20, 24, 28, 32 and 36 of the directory hold
    NumberOfFunctions, NumberOfNames and the addresses of the functions, the names and the ordinals. */
module ExportLayout {
  import opened Bits
  import opened GuestMemory

  /** IMAGE_DATA_DIRECTORY; both fields have 32 bits. */
  datatype Directory = Directory(virtualAddress: nat, size: nat)

  datatype Export = Export(name: seq<Byte>, address: nat)

  /** The little-endian word of n bytes at `at`, 0 where there is none. */
  function LeAt(b: seq<Byte>, at: int, n: nat): nat {
    if 0 <= at && at + n <= |b| then LittleEndian(b[at..at + n]) else 0
  }

  /** The error code for a copied table. */
  function ErrorCode(d: Directory, b: seq<Byte>): nat {
    var va, size := d.virtualAddress, d.size;
    var functions, names := LeAt(b, 20, 4), LeAt(b, 24, 4);
    if names == 0 || LeAt(b, 32, 4) == 0 then 3
    else if (LeAt(b, 32, 4) - va) % 0x1_0000_0000 + 4 * names > size then 4
    else if (LeAt(b, 36, 4) - va) % 0x1_0000_0000 + 2 * names > size then 5
    else if (LeAt(b, 28, 4) - va) % 0x1_0000_0000 + 4 * functions > size then 6
    else 0
  }

  /** Where in the copy the name of entry i starts. */
  function NameAt(d: Directory, b: seq<Byte>, i: nat): int {
    LeAt(b, LeAt(b, 32, 4) - d.virtualAddress + 4 * i, 4) - d.virtualAddress
  }

  function OrdinalAt(d: Directory, b: seq<Byte>, i: nat): nat {
    LeAt(b, LeAt(b, 36, 4) - d.virtualAddress + 2 * i, 2)
  }

  /** The name starts inside the directory, whose end may wrap, and the ordinal is at most the number of
      names. */
  predicate Taken(d: Directory, b: seq<Byte>, i: nat) {
    && 0 <= NameAt(d, b, i) && NameAt(d, b, i) + d.virtualAddress <= (d.size + d.virtualAddress) % 0x1_0000_0000
    && OrdinalAt(d, b, i) <= LeAt(b, 24, 4)
  }

  /** The address the loop computes: the base of the module plus the function's. */
  function AddressAt(d: Directory, b: seq<Byte>, moduleBase: nat, i: nat): nat {
    (moduleBase + LeAt(b, LeAt(b, 28, 4) - d.virtualAddress + 4 * OrdinalAt(d, b, i), 4)) % 0x1_0000_0000_0000_0000
  }

  /** `name` is what stands at `at` up to the first zero. */
  predicate ZeroTerminated(b: seq<Byte>, at: int, name: seq<Byte>) {
    && 0 <= at && at + |name| < |b| && b[at + |name|] == 0
    && forall k :: 0 <= k < |name| ==> name[k] == b[at + k] && name[k] != 0
  }

  /** How many of the first n entries are taken. */
  function TakenCount(d: Directory, b: seq<Byte>, n: nat): nat {
    if n == 0 then 0 else TakenCount(d, b, n - 1) + if Taken(d, b, n - 1) then 1 else 0
  }

  /** The list has one export for every taken entry and no other, in the order of the table, each with
      its name and its address. */
  ghost predicate IsExportList(d: Directory, b: seq<Byte>, moduleBase: nat, list: seq<Export>) {
    var n := LeAt(b, 24, 4);
    && |list| == TakenCount(d, b, n)
    && forall i :: 0 <= i < n && Taken(d, b, i) ==> ExportAtPlace(d, b, moduleBase, list, i, TakenCount(d, b, i))
  }

  predicate ExportAtPlace(d: Directory, b: seq<Byte>, moduleBase: nat, list: seq<Export>, i: nat, k: nat) {
    k < |list| && list[k].address == AddressAt(d, b, moduleBase, i) && ZeroTerminated(b, NameAt(d, b, i), list[k].name)
  }

  /** Entry i is the first taken one with this name. */
  predicate FirstNamed(d: Directory, b: seq<Byte>, name: seq<Byte>, i: nat) {
    && i < LeAt(b, 24, 4) && Taken(d, b, i) && ZeroTerminated(b, NameAt(d, b, i), name)
    && forall j :: 0 <= j < i && Taken(d, b, j) ==> !ZeroTerminated(b, NameAt(d, b, j), name)
  }

  lemma NoZeroInside(b: seq<Byte>, at: int, name: seq<Byte>, k: nat)
    requires ZeroTerminated(b, at, name)
    ensures at + k < |b| && b[at + k] == 0 ==> k >= |name|
  {
    assert k < |name| ==> name[k] != 0;
  }

  /** Only one name stands at a place. */
  lemma OneName(b: seq<Byte>, at: int, x: seq<Byte>, y: seq<Byte>)
    requires ZeroTerminated(b, at, x) && ZeroTerminated(b, at, y)
    ensures x == y
  {
    NoZeroInside(b, at, y, |x|);
    NoZeroInside(b, at, x, |y|);
  }
}
