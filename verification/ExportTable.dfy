/** Parsing a module's export table (PE Format, "The .edata Section (Image Only)") out of a copy
    of it, with the bounds checks in the arithmetic the program uses. */
module ExportTable {
  import opened Bits
  import opened Arrays
  import opened GuestMemory
  import opened ExportLayout

  const HEADER_SIZE: nat := 40
  const MAX_SIZE: nat := 0x7f_ffff

  /** More names than this do not fit in MAX_SIZE bytes. */
  const MAX_NAMES: nat := 0x1f_ffff

  function U32At(b: seq<Byte>, at: nat): (r: nat)
    requires at + 4 <= |b|
    ensures r < TWO_32
  {
    Word32(b[at..at + 4])
  }

  function U16At(b: seq<Byte>, at: nat): (r: nat)
    requires at + 2 <= |b|
    ensures r < 0x1_0000
  {
    Word16(b[at..at + 2])
  }

  /** The fields of IMAGE_EXPORT_DIRECTORY that are used. */
  datatype Header = Header(functions: nat, names: nat, functionsAt: nat, namesAt: nat, ordinalsAt: nat)

  function HeaderOf(b: seq<Byte>): (h: Header)
    requires |b| > HEADER_SIZE
    ensures h.functions < TWO_32 && h.names < TWO_32
    ensures h.functionsAt < TWO_32 && h.namesAt < TWO_32 && h.ordinalsAt < TWO_32
  {
    Header(U32At(b, 20), U32At(b, 24), U32At(b, 28), U32At(b, 32), U32At(b, 36))
  }

  /** The check of one table of `n` entries of `width` bytes at address `at`: the distance is
      taken modulo 2^32, the sum is not. */
  predicate TableFits(d: Directory, at: nat, n: nat, width: nat) {
    Wrap32(at - d.virtualAddress) + n * width <= d.size
  }

  /** The error code for a copied table, 0 if all checks pass. */
  function Check(d: Directory, h: Header): nat {
    if h.names == 0 || h.namesAt == 0 then 3
    else if !TableFits(d, h.namesAt, h.names, 4) then 4
    else if !TableFits(d, h.ordinalsAt, h.names, 2) then 5
    else if !TableFits(d, h.functionsAt, h.functions, 4) then 6
    else 0
  }

  /** The directory does not reach past the 32-bit address space. */
  predicate NoWrap(d: Directory) {
    d.virtualAddress + d.size < TWO_32
  }

  /** The copy of a directory that is parsed at all: `size` bytes and a terminating zero. */
  predicate IsCopy(d: Directory, b: seq<Byte>) {
    && d.virtualAddress < TWO_32 && HEADER_SIZE <= d.size <= MAX_SIZE
    && |b| == d.size + 1 && b[d.size] == 0
  }

  predicate Passes(d: Directory, b: seq<Byte>) {
    IsCopy(d, b) && Check(d, HeaderOf(b)) == 0
  }

  /** The names table does not start before the copy. */
  predicate NamesInside(d: Directory, b: seq<Byte>)
    requires |b| > HEADER_SIZE
  {
    d.virtualAddress <= HeaderOf(b).namesAt
  }

  /** A copy that passes the checks, with its names table inside. */
  predicate Checked(d: Directory, b: seq<Byte>) {
    Passes(d, b) && NamesInside(d, b)
  }

  lemma WrapOnce(x: int)
    requires -TWO_32 < x < TWO_32
    ensures Wrap32(x) == if x >= 0 then x else x + TWO_32
  {
  }

  /** A table that passes and does not start before the copy does not end behind it. */
  lemma FitsFrom(d: Directory, at: nat, n: nat, width: nat)
    requires d.virtualAddress <= at < TWO_32 && TableFits(d, at, n, width)
    ensures at - d.virtualAddress + n * width <= d.size
  {
    WrapOnce(at - d.virtualAddress);
  }

  lemma FitsMeansInside(d: Directory, at: nat, n: nat, width: nat)
    requires NoWrap(d) && at < TWO_32 && TableFits(d, at, n, width)
    ensures d.virtualAddress <= at && at - d.virtualAddress + n * width <= d.size
  {
    WrapOnce(at - d.virtualAddress);
    assert n * width >= 0;
  }

  /** Passing the wrapping check puts a nonempty table of `width`-byte entries at `least` or above
      behind the start of the copy exactly when the directory ends below 2^32 + least + width. */
  lemma TableSoundExactly(d: Directory, least: nat, width: nat)
    requires d.virtualAddress < TWO_32 && d.size < TWO_32 && least < TWO_32
    ensures (forall at, n :: least <= at < TWO_32 && n >= 1 && TableFits(d, at, n, width) ==> d.virtualAddress <= at)
            <==> d.virtualAddress + d.size < TWO_32 + least + width
  {
    if d.virtualAddress + d.size < TWO_32 + least + width {
      forall at, n | least <= at < TWO_32 && n >= 1 && TableFits(d, at, n, width) ensures d.virtualAddress <= at {
        WrapOnce(at - d.virtualAddress);
        ProductMonotone(1, n, width);
      }
    } else {
      WrapOnce(least - d.virtualAddress);
      assert TableFits(d, least, 1, width);
    }
  }

  // ---- The entries ----

  function NameRva(d: Directory, b: seq<Byte>, i: nat): (r: nat)
    requires Checked(d, b) && i < HeaderOf(b).names
    ensures r < TWO_32
  {
    var h := HeaderOf(b);
    FitsFrom(d, h.namesAt, h.names, 4);
    U32At(b, h.namesAt - d.virtualAddress + 4 * i)
  }

  /** The test of a name's address against the end, which may wrap, and the start. */
  predicate NameInRange(d: Directory, rva: nat) {
    rva <= Wrap32(d.size + d.virtualAddress) && d.virtualAddress <= rva
  }

  /** No address is in the range of a directory that wraps. */
  lemma InRangeMeansNoWrap(d: Directory, rva: nat)
    requires d.virtualAddress < TWO_32 && d.size < TWO_32 && NameInRange(d, rva)
    ensures NoWrap(d)
  {
  }

  function Ordinal(d: Directory, b: seq<Byte>, i: nat): (r: nat)
    requires Checked(d, b) && NoWrap(d) && i < HeaderOf(b).names
    ensures r < 0x1_0000
  {
    var h := HeaderOf(b);
    FitsMeansInside(d, h.ordinalsAt, h.names, 2);
    U16At(b, h.ordinalsAt - d.virtualAddress + 2 * i)
  }

  /** The ordinal is looked at only if the name is in range. */
  predicate Accepted(d: Directory, b: seq<Byte>, i: nat): (r: bool)
    requires Checked(d, b) && i < HeaderOf(b).names
    ensures r ==> NoWrap(d)
  {
    NameInRange(d, NameRva(d, b, i)) &&
    (InRangeMeansNoWrap(d, NameRva(d, b, i));
     Ordinal(d, b, i) <= HeaderOf(b).names)
  }

  /** The slot of the functions table that entry i uses lies inside the copy. */
  predicate SlotInside(d: Directory, b: seq<Byte>, i: nat)
    requires Checked(d, b) && i < HeaderOf(b).names && Accepted(d, b, i)
  {
    Wrap32(HeaderOf(b).functionsAt - d.virtualAddress) + 4 * Ordinal(d, b, i) + 4 <= |b|
  }

  predicate SlotsInside(d: Directory, b: seq<Byte>)
    requires Checked(d, b)
  {
    forall i :: 0 <= i < HeaderOf(b).names && Accepted(d, b, i) ==> SlotInside(d, b, i)
  }

  /** The bytes from `at` up to the next zero. */
  function CString(b: seq<Byte>, at: nat): (s: seq<Byte>)
    requires at < |b| && b[|b| - 1] == 0
    ensures at + |s| < |b| && b[at + |s|] == 0
    ensures forall k :: 0 <= k < |s| ==> s[k] == b[at + k] && s[k] != 0
    decreases |b| - at
  {
    if b[at] == 0 then [] else [b[at]] + CString(b, at + 1)
  }

  /** The word of the functions table that entry i uses. */
  function FunctionRva(d: Directory, b: seq<Byte>, i: nat): nat
    requires Checked(d, b) && i < HeaderOf(b).names && Accepted(d, b, i) && SlotInside(d, b, i)
  {
    var h := HeaderOf(b);
    FitsMeansInside(d, h.functionsAt, h.functions, 4);
    WrapOnce(h.functionsAt - d.virtualAddress);
    U32At(b, h.functionsAt - d.virtualAddress + 4 * Ordinal(d, b, i))
  }

  function EntryOf(d: Directory, b: seq<Byte>, moduleBase: nat, i: nat): Export
    requires Checked(d, b) && i < HeaderOf(b).names && Accepted(d, b, i) && SlotInside(d, b, i)
  {
    WrapOnce(d.size + d.virtualAddress);
    Export(CString(b, NameRva(d, b, i) - d.virtualAddress), Wrap64(moduleBase + FunctionRva(d, b, i)))
  }

  /** The exports of the first n names: the accepted ones, in order. */
  function Exports(d: Directory, b: seq<Byte>, moduleBase: nat, n: nat): (r: seq<Export>)
    requires Checked(d, b) && n <= HeaderOf(b).names && SlotsInside(d, b)
    ensures |r| <= n
  {
    if n == 0 then []
    else
      Exports(d, b, moduleBase, n - 1) +
      if Accepted(d, b, n - 1) then [EntryOf(d, b, moduleBase, n - 1)] else []
  }

  /** `content` is what the read leaves in the buffer and `status` its result. Error 0 is success,
      with the exports in list[..size]. A table that passes the checks is followed without further
      ones, so then every access must lie inside the copy: see NamesInsideExactly and
      SlotsInsideExactly. */
  method ParseExportTable(moduleBase: nat, d: Directory, status: int, content: seq<Byte>)
      returns (err: nat, list: array<Export>, size: nat)
    requires |content| == d.size && d.virtualAddress < TWO_32
    requires Passes(d, content + [0]) ==> NamesInside(d, content + [0]) && SlotsInside(d, content + [0])
    ensures err == if d.size < 40 || d.size > 0x7f_ffff || d.virtualAddress == moduleBase then 1
                   else if status == -1 then 2
                   else ErrorCode(d, content + [0])
    ensures err == 0 ==> size <= list.Length && IsExportList(d, content + [0], moduleBase, list[..size])
    ensures err == 0 ==>
              Checked(d, content + [0]) &&
              list[..size] == Exports(d, content + [0], moduleBase, HeaderOf(content + [0]).names)
  {
    list, size := new Export[0](_ => Export([], 0)), 0;
    if d.size < HEADER_SIZE || d.size > MAX_SIZE || d.virtualAddress == moduleBase { return 1, list, 0; }
    if status == -1 { return 2, list, 0; }
    var buf := content + [0];
    hide Check, HeaderOf, SlotsInside, ErrorCode, IsExportList, NamesInside, Exports;
    err := Check(d, HeaderOf(buf));
    ErrorIsCode(d, buf);
    if err != 0 { return; }
    list, size := CollectExports(d, buf, moduleBase);
    ExportsAreListed(d, buf, moduleBase);
  }

  /** The loop of ParseExportTable. */
  method CollectExports(d: Directory, buf: seq<Byte>, moduleBase: nat) returns (list: array<Export>, sz: nat)
    requires Checked(d, buf) && SlotsInside(d, buf)
    ensures sz <= list.Length == HeaderOf(buf).names
    ensures list[..sz] == Exports(d, buf, moduleBase, HeaderOf(buf).names)
  {
    var names := HeaderOf(buf).names;
    hide *;
    list := new Export[names](_ => Export([], 0));
    sz := 0;
    NoExports(d, buf, moduleBase);
    for i := 0 to names
      invariant sz <= i && list[..sz] == Exports(d, buf, moduleBase, i)
    {
      NextExport(d, buf, moduleBase, i);
      if Accepted(d, buf, i) {
        var entry := EntryOf(d, buf, moduleBase, i);
        Put(list, sz, entry);
        sz := sz + 1;
      }
    }
  }

  lemma NoExports(d: Directory, b: seq<Byte>, moduleBase: nat)
    requires Checked(d, b) && SlotsInside(d, b)
    ensures Exports(d, b, moduleBase, 0) == []
  {
  }

  lemma NextExport(d: Directory, b: seq<Byte>, moduleBase: nat, i: nat)
    requires Checked(d, b) && SlotsInside(d, b) && i < HeaderOf(b).names
    ensures if Accepted(d, b, i) then
              SlotInside(d, b, i) &&
              Exports(d, b, moduleBase, i + 1) == Exports(d, b, moduleBase, i) + [EntryOf(d, b, moduleBase, i)]
            else Exports(d, b, moduleBase, i + 1) == Exports(d, b, moduleBase, i)
  {
    hide Accepted, SlotInside, EntryOf, HeaderOf;
  }

  // ---- Staying inside the copy ----

  /** A directory that wraps yields no export at all, and no ordinal, function or string of it is
      ever looked at. */
  lemma {:induction false} WrappedYieldsNothing(d: Directory, b: seq<Byte>, moduleBase: nat, n: nat)
    requires Checked(d, b) && !NoWrap(d) && n <= HeaderOf(b).names
    ensures SlotsInside(d, b) && Exports(d, b, moduleBase, n) == []
    decreases n
  {
    hide NameRva, HeaderOf, Checked, EntryOf, SlotInside;
    if n > 0 { WrappedYieldsNothing(d, b, moduleBase, n - 1); }
  }

  /** With fewer names than functions, or more functions than an ordinal can name, every accepted
      entry's slot is inside the copy. */
  lemma CountsKeepInside(d: Directory, b: seq<Byte>)
    requires Checked(d, b)
    requires HeaderOf(b).names < HeaderOf(b).functions || HeaderOf(b).functions > 0xffff
    ensures SlotsInside(d, b)
  {
    var h := HeaderOf(b);
    forall i | 0 <= i < h.names && Accepted(d, b, i) ensures SlotInside(d, b, i) {
      assert Ordinal(d, b, i) + 1 <= h.functions;
    }
  }

  /** With the functions table at the end of the copy, an entry's slot is inside exactly if its
      ordinal is below the number of functions; the parser compares with the number of names. */
  lemma SlotInsideExactly(d: Directory, b: seq<Byte>, i: nat)
    requires Checked(d, b) && i < HeaderOf(b).names && Accepted(d, b, i)
    requires HeaderOf(b).functionsAt == d.virtualAddress + d.size - 4 * HeaderOf(b).functions
    ensures SlotInside(d, b, i) <==> Ordinal(d, b, i) < HeaderOf(b).functions
  {
    hide *;
    CopySize(d, b);
    FunctionsInside(d, b);
    SlotInsideMeans(d, b, i);
    WrapOnce(HeaderOf(b).functionsAt - d.virtualAddress);
  }

  lemma FunctionsInside(d: Directory, b: seq<Byte>)
    requires Checked(d, b) && NoWrap(d)
    ensures d.virtualAddress <= HeaderOf(b).functionsAt < TWO_32
  {
    FitsMeansInside(d, HeaderOf(b).functionsAt, HeaderOf(b).functions, 4);
    hide HeaderOf, NamesInside, IsCopy;
  }

  lemma CopySize(d: Directory, b: seq<Byte>)
    requires Checked(d, b)
    ensures d.virtualAddress < TWO_32 && HEADER_SIZE <= d.size <= MAX_SIZE && |b| == d.size + 1
  {
    hide HeaderOf, Check, NamesInside;
  }

  lemma SlotInsideMeans(d: Directory, b: seq<Byte>, i: nat)
    requires Checked(d, b) && i < HeaderOf(b).names && Accepted(d, b, i)
    ensures SlotInside(d, b, i)
            <==> Wrap32(HeaderOf(b).functionsAt - d.virtualAddress) + 4 * Ordinal(d, b, i) + 4 <= |b|
  {
    hide HeaderOf, Ordinal, Wrap32, Checked, Accepted;
  }

  // Copies that pass the checks and still lead outside.

  function Le32(x: nat): (b: seq<Byte>)
    requires x < TWO_32
    ensures |b| == 4
  {
    [x % 0x100, x / 0x100 % 0x100, x / 0x1_0000 % 0x100, x / 0x100_0000]
  }

  lemma Le32Word(x: nat)
    requires x < TWO_32
    ensures Word32(Le32(x)) == x
    ensures x < 0x1_0000 ==> Word16(Le32(x)[..2]) == x
  {
    Digits(x, 0x100, 0x100);
    Digits(x, 0x1_0000, 0x100);
    assert Word16(Le32(x)[..2]) == x % 0x1_0000;
    assert Word16(Le32(x)[2..]) == x / 0x1_0000;
  }

  predicate IsHeader(h: Header) {
    && h.functions < TWO_32 && h.names < TWO_32
    && h.functionsAt < TWO_32 && h.namesAt < TWO_32 && h.ordinalsAt < TWO_32
  }

  /** Byte k of a copy with the given words at 0 and 4 and the given header fields, and zeros
      elsewhere. */
  function ImageByte(first: nat, second: nat, h: Header, k: nat): Byte
    requires first < TWO_32 && second < TWO_32 && IsHeader(h)
  {
    if k < 4 then Le32(first)[k]
    else if k < 8 then Le32(second)[k - 4]
    else if k < 20 then 0
    else if k < 24 then Le32(h.functions)[k - 20]
    else if k < 28 then Le32(h.names)[k - 24]
    else if k < 32 then Le32(h.functionsAt)[k - 28]
    else if k < 36 then Le32(h.namesAt)[k - 32]
    else if k < 40 then Le32(h.ordinalsAt)[k - 36]
    else 0
  }

  function Image(first: nat, second: nat, h: Header, size: nat): (b: seq<Byte>)
    requires first < TWO_32 && second < TWO_32 && IsHeader(h)
    ensures |b| == size + 1
    ensures forall k :: 0 <= k <= size ==> b[k] == ImageByte(first, second, h, k)
  {
    seq(size + 1, k requires k >= 0 => ImageByte(first, second, h, k))
  }

  lemma ImageIs(first: nat, second: nat, h: Header, size: nat)
    requires first < TWO_32 && second < 0x1_0000 && HEADER_SIZE <= size && IsHeader(h)
    ensures var b := Image(first, second, h, size);
            b[size] == 0 && HeaderOf(b) == h && U32At(b, 0) == first && U16At(b, 4) == second
  {
    hide Word32, Word16, Le32, Image;
    var b := Image(first, second, h, size);
    assert b[0..4] == Le32(first) && b[4..6] == Le32(second)[..2];
    assert b[20..24] == Le32(h.functions) && b[24..28] == Le32(h.names) && b[28..32] == Le32(h.functionsAt);
    assert b[32..36] == Le32(h.namesAt) && b[36..40] == Le32(h.ordinalsAt);
    Le32Word(first);
    Le32Word(second);
    Le32Word(h.functions);
    Le32Word(h.names);
    Le32Word(h.functionsAt);
    Le32Word(h.namesAt);
    Le32Word(h.ordinalsAt);
  }

  /** One name whose table starts before a copy that wraps. */
  lemma NamesBeforeCopy(d: Directory) returns (b: seq<Byte>)
    requires d.virtualAddress < TWO_32 && HEADER_SIZE <= d.size <= MAX_SIZE
    requires d.virtualAddress + d.size >= TWO_32 + 5
    ensures Passes(d, b) && !NamesInside(d, b)
  {
    var h := Header(0, 1, 0, 1, 0);
    b := Image(0, 0, h, d.size);
    ImageIs(0, 0, h, d.size);
    EarlyPasses(d);
    hide Image, HeaderOf, Check;
  }

  lemma EarlyPasses(d: Directory)
    requires d.virtualAddress < TWO_32 && d.size <= MAX_SIZE && d.virtualAddress + d.size >= TWO_32 + 5
    ensures Check(d, Header(0, 1, 0, 1, 0)) == 0
  {
    WrapOnce(1 - d.virtualAddress);
    WrapOnce(0 - d.virtualAddress);
    hide Wrap32;
  }

  /** Whatever its bytes, a copy that passes the checks has its names table inside, exactly when the
      directory ends below 2^32 + 5. */
  lemma NamesInsideExactly(d: Directory)
    requires d.virtualAddress < TWO_32 && HEADER_SIZE <= d.size <= MAX_SIZE
    ensures (forall b :: Passes(d, b) ==> NamesInside(d, b)) <==> d.virtualAddress + d.size < TWO_32 + 5
  {
    if d.virtualAddress + d.size < TWO_32 + 5 {
      TableSoundExactly(d, 1, 4);
      hide HeaderOf;
    } else {
      var b := NamesBeforeCopy(d);
    }
  }

  /** A copy with the given counts whose first entry is accepted and read past its end. */
  lemma OrdinalPastCopy(names: nat, functions: nat) returns (d: Directory, b: seq<Byte>)
    requires 1 <= names <= MAX_NAMES && functions <= names && functions <= 0xffff
    ensures Checked(d, b) && HeaderOf(b).names == names && HeaderOf(b).functions == functions
    ensures Accepted(d, b, 0) && !SlotInside(d, b, 0)
  {
    var size := if names <= 10 then 40 else 4 * names;
    var h := Header(functions, names, 0x1000 + size - 4 * functions, 0x1000, 0x1004);
    d := Directory(0x1000, size);
    b := Image(0x1000, functions, h, size);
    ImageIs(0x1000, functions, h, size);
    hide *;
    OverlaidPasses(d, names, functions);
    FirstIsAccepted(d, b, names, functions);
    SlotInsideExactly(d, b, 0);
  }

  /** Names and ordinals overlaid on the first words of the copy pass the checks. */
  lemma OverlaidPasses(d: Directory, names: nat, functions: nat)
    requires 1 <= names && functions <= names
    requires d.virtualAddress == 0x1000 && 4 * names <= d.size <= MAX_SIZE && HEADER_SIZE <= d.size
    ensures Check(d, Header(functions, names, 0x1000 + d.size - 4 * functions, 0x1000, 0x1004)) == 0
  {
    WrapOnce(4);
    WrapOnce(d.size - 4 * functions);
    hide Wrap32;
  }

  lemma FirstIsAccepted(d: Directory, b: seq<Byte>, names: nat, functions: nat)
    requires 1 <= names && functions <= names && 4 * names <= d.size && d.virtualAddress == 0x1000 && IsCopy(d, b)
    requires HeaderOf(b) == Header(functions, names, 0x1000 + d.size - 4 * functions, 0x1000, 0x1004)
    requires Check(d, HeaderOf(b)) == 0 && U32At(b, 0) == 0x1000 && U16At(b, 4) == functions
    ensures Checked(d, b) && Accepted(d, b, 0) && Ordinal(d, b, 0) == functions
  {
    WrapOnce(d.size + d.virtualAddress);
    hide HeaderOf, U32At, U16At, Check, Wrap32;
  }

  /** Whatever its other bytes, a checked copy with these counts has every accepted slot inside,
      exactly when it has fewer names than functions or more functions than an ordinal can name. */
  lemma SlotsInsideExactly(names: nat, functions: nat)
    requires 1 <= names <= MAX_NAMES && functions < TWO_32
    ensures (forall d, b :: Checked(d, b) && HeaderOf(b).names == names && HeaderOf(b).functions == functions ==>
               SlotsInside(d, b))
            <==> names < functions || functions > 0xffff
  {
    if names < functions || functions > 0xffff {
      forall d, b | Checked(d, b) && HeaderOf(b).names == names && HeaderOf(b).functions == functions
        ensures SlotsInside(d, b)
      {
        CountsKeepInside(d, b);
      }
    } else {
      var d, b := OrdinalPastCopy(names, functions);
    }
  }

  // ---- The list in terms of the names ----

  function AcceptedCount(d: Directory, b: seq<Byte>, n: nat): (r: nat)
    requires Checked(d, b) && n <= HeaderOf(b).names
    ensures r <= n
  {
    if n == 0 then 0 else AcceptedCount(d, b, n - 1) + if Accepted(d, b, n - 1) then 1 else 0
  }

  /** The list holds the accepted entries and no others, in table order. */
  lemma {:induction false} ExportAt(d: Directory, b: seq<Byte>, moduleBase: nat, n: nat)
    requires Checked(d, b) && n <= HeaderOf(b).names && SlotsInside(d, b)
    ensures |Exports(d, b, moduleBase, n)| == AcceptedCount(d, b, n)
    ensures forall i :: 0 <= i < n && Accepted(d, b, i) ==>
              AcceptedCount(d, b, i) < AcceptedCount(d, b, n) &&
              Exports(d, b, moduleBase, n)[AcceptedCount(d, b, i)] == EntryOf(d, b, moduleBase, i)
    decreases n
  {
    hide Accepted, EntryOf, Checked, SlotInside;
    if n > 0 { ExportAt(d, b, moduleBase, n - 1); }
  }

  // ---- Lookup ----

  method FindProcAddress(exports: array<Export>, size: nat, procName: seq<Byte>) returns (address: nat)
    requires size <= exports.Length
    ensures address == Find(exports[..size], procName)
  {
    for i := 0 to size
      invariant Find(exports[..size], procName) == Find(exports[i..size], procName)
    {
      assert exports[i..size][0] == exports[i] && exports[i..size][1..] == exports[i + 1..size];
      if procName == exports[i].name { return exports[i].address; }
    }
    return 0;
  }

  /** The address of the first export of that name, 0 if there is none. */
  function Find(es: seq<Export>, procName: seq<Byte>): nat {
    if es == [] then 0 else if procName == es[0].name then es[0].address else Find(es[1..], procName)
  }

  lemma {:induction false} FindFirst(es: seq<Export>, procName: seq<Byte>, k: nat)
    requires k < |es| && es[k].name == procName && forall j :: 0 <= j < k ==> es[j].name != procName
    ensures Find(es, procName) == es[k].address
    decreases k
  {
    if k > 0 { FindFirst(es[1..], procName, k - 1); }
  }

  lemma {:induction false} FindNone(es: seq<Export>, procName: seq<Byte>)
    requires forall j :: 0 <= j < |es| ==> es[j].name != procName
    ensures Find(es, procName) == 0
    decreases |es|
  {
    if es != [] { FindNone(es[1..], procName); }
  }

  // ---- Against the raw bytes ----

  lemma LeOf32(b: seq<Byte>, at: nat)
    requires at + 4 <= |b|
    ensures U32At(b, at) == LeAt(b, at, 4)
  {
    Word32Bytes(b[at..at + 4]);
  }

  lemma LeOf16(b: seq<Byte>, at: nat)
    requires at + 2 <= |b|
    ensures U16At(b, at) == LeAt(b, at, 2)
  {
    Word16Bytes(b[at..at + 2]);
  }

  lemma HeaderBytes(b: seq<Byte>)
    requires |b| > HEADER_SIZE
    ensures HeaderOf(b) == Header(LeAt(b, 20, 4), LeAt(b, 24, 4), LeAt(b, 28, 4), LeAt(b, 32, 4), LeAt(b, 36, 4))
  {
    LeOf32(b, 20);
    LeOf32(b, 24);
    LeOf32(b, 28);
    LeOf32(b, 32);
    LeOf32(b, 36);
    hide U32At, LeAt;
  }

  lemma ErrorIsCode(d: Directory, b: seq<Byte>)
    requires |b| > HEADER_SIZE
    ensures Check(d, HeaderOf(b)) == ErrorCode(d, b)
  {
    HeaderBytes(b);
    hide HeaderOf, LeAt;
  }

  lemma NameBytes(d: Directory, b: seq<Byte>, i: nat)
    requires Checked(d, b) && i < HeaderOf(b).names
    ensures NameRva(d, b, i) - d.virtualAddress == NameAt(d, b, i)
  {
    var h := HeaderOf(b);
    HeaderBytes(b);
    FitsFrom(d, h.namesAt, h.names, 4);
    LeOf32(b, h.namesAt - d.virtualAddress + 4 * i);
    hide HeaderOf, LeAt, U32At, Wrap32;
  }

  lemma OrdinalBytes(d: Directory, b: seq<Byte>, i: nat)
    requires Checked(d, b) && NoWrap(d) && i < HeaderOf(b).names
    ensures Ordinal(d, b, i) == OrdinalAt(d, b, i)
  {
    var h := HeaderOf(b);
    HeaderBytes(b);
    FitsMeansInside(d, h.ordinalsAt, h.names, 2);
    LeOf16(b, h.ordinalsAt - d.virtualAddress + 2 * i);
    hide HeaderOf, LeAt, U16At, Wrap32;
  }

  lemma AcceptedIsTaken(d: Directory, b: seq<Byte>, i: nat)
    requires Checked(d, b) && i < HeaderOf(b).names
    ensures Accepted(d, b, i) <==> Taken(d, b, i)
  {
    HeaderBytes(b);
    NameBytes(d, b, i);
    hide HeaderOf, LeAt, NameRva, NameAt;
    if NameInRange(d, NameRva(d, b, i)) {
      InRangeMeansNoWrap(d, NameRva(d, b, i));
      OrdinalBytes(d, b, i);
      hide Ordinal, OrdinalAt;
    }
  }

  lemma EntryName(d: Directory, b: seq<Byte>, moduleBase: nat, i: nat)
    requires Checked(d, b) && i < HeaderOf(b).names && Accepted(d, b, i) && SlotInside(d, b, i)
    ensures ZeroTerminated(b, NameAt(d, b, i), EntryOf(d, b, moduleBase, i).name)
  {
    NameBytes(d, b, i);
    NameStarts(d, b, i);
    hide *;
    EntryOfName(d, b, moduleBase, i);
    StringIs(b, NameRva(d, b, i) - d.virtualAddress);
  }

  lemma NameStarts(d: Directory, b: seq<Byte>, i: nat)
    requires Checked(d, b) && i < HeaderOf(b).names && Accepted(d, b, i)
    ensures 0 <= NameRva(d, b, i) - d.virtualAddress < |b| && b[|b| - 1] == 0
  {
    WrapOnce(d.size + d.virtualAddress);
    hide HeaderOf, Wrap32, Ordinal, NameRva, Check;
  }

  lemma EntryOfName(d: Directory, b: seq<Byte>, moduleBase: nat, i: nat)
    requires Checked(d, b) && i < HeaderOf(b).names && Accepted(d, b, i) && SlotInside(d, b, i)
    requires 0 <= NameRva(d, b, i) - d.virtualAddress < |b| && b[|b| - 1] == 0
    ensures EntryOf(d, b, moduleBase, i).name == CString(b, NameRva(d, b, i) - d.virtualAddress)
  {
    hide HeaderOf, NameRva, Accepted, SlotInside, Checked, CString, FunctionRva;
  }

  lemma StringIs(b: seq<Byte>, at: nat)
    requires at < |b| && b[|b| - 1] == 0
    ensures ZeroTerminated(b, at, CString(b, at))
  {
    hide CString;
  }

  lemma FunctionsStart(d: Directory, b: seq<Byte>, i: nat)
    requires Checked(d, b) && i < HeaderOf(b).names && Accepted(d, b, i) && SlotInside(d, b, i)
    ensures d.virtualAddress <= HeaderOf(b).functionsAt
    ensures HeaderOf(b).functionsAt - d.virtualAddress + 4 * Ordinal(d, b, i) + 4 <= |b|
  {
    CopySize(d, b);
    hide *;
    FunctionsInside(d, b);
    WrapOnce(HeaderOf(b).functionsAt - d.virtualAddress);
    SlotInsideMeans(d, b, i);
  }

  lemma FunctionIs(d: Directory, b: seq<Byte>, i: nat)
    requires Checked(d, b) && i < HeaderOf(b).names && Accepted(d, b, i) && SlotInside(d, b, i)
    requires d.virtualAddress <= HeaderOf(b).functionsAt
    requires HeaderOf(b).functionsAt - d.virtualAddress + 4 * Ordinal(d, b, i) + 4 <= |b|
    ensures FunctionRva(d, b, i) == U32At(b, HeaderOf(b).functionsAt - d.virtualAddress + 4 * Ordinal(d, b, i))
  {
    hide HeaderOf, Ordinal, U32At, Wrap32, Accepted, SlotInside, Checked;
  }

  lemma FunctionBytes(d: Directory, b: seq<Byte>, i: nat)
    requires Checked(d, b) && i < HeaderOf(b).names && Accepted(d, b, i) && SlotInside(d, b, i)
    ensures FunctionRva(d, b, i) == LeAt(b, LeAt(b, 28, 4) - d.virtualAddress + 4 * OrdinalAt(d, b, i), 4)
  {
    CopySize(d, b);
    FunctionsStart(d, b, i);
    HeaderBytes(b);
    hide *;
    FunctionIs(d, b, i);
    OrdinalBytes(d, b, i);
    LeOf32(b, HeaderOf(b).functionsAt - d.virtualAddress + 4 * Ordinal(d, b, i));
  }

  lemma EntryAddress(d: Directory, b: seq<Byte>, moduleBase: nat, i: nat)
    requires Checked(d, b) && i < HeaderOf(b).names && Accepted(d, b, i) && SlotInside(d, b, i)
    ensures EntryOf(d, b, moduleBase, i).address == AddressAt(d, b, moduleBase, i)
  {
    hide *;
    CopySize(d, b);
    NameStarts(d, b, i);
    FunctionBytes(d, b, i);
    EntryOfAddress(d, b, moduleBase, i);
    AddressIs(d, b, moduleBase, i);
  }

  lemma AddressIs(d: Directory, b: seq<Byte>, moduleBase: nat, i: nat)
    ensures AddressAt(d, b, moduleBase, i)
         == Wrap64(moduleBase + LeAt(b, LeAt(b, 28, 4) - d.virtualAddress + 4 * OrdinalAt(d, b, i), 4))
  {
    hide LeAt, OrdinalAt;
  }

  lemma EntryOfAddress(d: Directory, b: seq<Byte>, moduleBase: nat, i: nat)
    requires Checked(d, b) && i < HeaderOf(b).names && Accepted(d, b, i) && SlotInside(d, b, i)
    requires 0 <= NameRva(d, b, i) - d.virtualAddress < |b| && b[|b| - 1] == 0
    ensures EntryOf(d, b, moduleBase, i).address == Wrap64(moduleBase + FunctionRva(d, b, i))
  {
    hide HeaderOf, NameRva, Accepted, SlotInside, Checked, CString, FunctionRva, Wrap64;
  }

  lemma {:induction false} CountIsTaken(d: Directory, b: seq<Byte>, n: nat)
    requires Checked(d, b) && n <= HeaderOf(b).names
    ensures AcceptedCount(d, b, n) == TakenCount(d, b, n)
    decreases n
  {
    hide Accepted, Taken, Checked, HeaderOf;
    if n > 0 {
      CountIsTaken(d, b, n - 1);
      AcceptedIsTaken(d, b, n - 1);
    }
  }

  /** The parsed list is the list the bytes mean. */
  lemma ExportsAreListed(d: Directory, b: seq<Byte>, moduleBase: nat)
    requires Checked(d, b) && SlotsInside(d, b)
    ensures IsExportList(d, b, moduleBase, Exports(d, b, moduleBase, HeaderOf(b).names))
  {
    var n := HeaderOf(b).names;
    var es := Exports(d, b, moduleBase, n);
    HeaderBytes(b);
    ExportAt(d, b, moduleBase, n);
    CountIsTaken(d, b, n);
    forall i | 0 <= i < n && Taken(d, b, i) ensures ExportAtPlace(d, b, moduleBase, es, i, TakenCount(d, b, i)) {
      AcceptedIsTaken(d, b, i);
      CountIsTaken(d, b, i);
      assert SlotInside(d, b, i);
      EntryName(d, b, moduleBase, i);
      EntryAddress(d, b, moduleBase, i);
      hide AddressAt, NameAt, ZeroTerminated, EntryOf, Taken, Accepted, HeaderOf, Checked;
    }
    hide Taken, Accepted, HeaderOf, Checked, Exports, TakenCount, AcceptedCount;
  }

  lemma {:induction false} PlaceOf(d: Directory, b: seq<Byte>, n: nat, k: nat) returns (i: nat)
    requires k < TakenCount(d, b, n)
    ensures i < n && Taken(d, b, i) && TakenCount(d, b, i) == k
    decreases n
  {
    hide Taken;
    if k < TakenCount(d, b, n - 1) { i := PlaceOf(d, b, n - 1, k); } else { i := n - 1; }
  }

  lemma {:induction false} TakenMonotone(d: Directory, b: seq<Byte>, i: nat, j: nat)
    requires i <= j
    ensures TakenCount(d, b, i) <= TakenCount(d, b, j)
    decreases j
  {
    hide Taken;
    if i < j { TakenMonotone(d, b, i, j - 1); }
  }

  /** Looking a name up in a parsed list gives the module base plus the address of the first taken entry
      with that name, and 0 if no taken entry has it. */
  lemma ParsedLookup(d: Directory, b: seq<Byte>, moduleBase: nat, list: seq<Export>, procName: seq<Byte>)
    requires IsExportList(d, b, moduleBase, list)
    ensures forall i :: FirstNamed(d, b, procName, i) ==> Find(list, procName) == AddressAt(d, b, moduleBase, i)
    ensures (forall i :: 0 <= i < LeAt(b, 24, 4) && Taken(d, b, i) ==> !ZeroTerminated(b, NameAt(d, b, i), procName))
            ==> Find(list, procName) == 0
  {
    hide Taken, NameAt, AddressAt, LeAt, Find;
    var n := LeAt(b, 24, 4);
    forall i | FirstNamed(d, b, procName, i) ensures Find(list, procName) == AddressAt(d, b, moduleBase, i) {
      var k := TakenCount(d, b, i);
      assert ExportAtPlace(d, b, moduleBase, list, i, k);
      OneName(b, NameAt(d, b, i), list[k].name, procName);
      forall j | 0 <= j < k ensures list[j].name != procName {
        var o := PlaceOf(d, b, n, j);
        if o >= i { TakenMonotone(d, b, i, o); }
        assert ExportAtPlace(d, b, moduleBase, list, o, j);
        hide ZeroTerminated;
      }
      hide ZeroTerminated;
      FindFirst(list, procName, k);
    }
    if forall i :: 0 <= i < n && Taken(d, b, i) ==> !ZeroTerminated(b, NameAt(d, b, i), procName) {
      hide ZeroTerminated;
      forall j | 0 <= j < |list| ensures list[j].name != procName {
        var o := PlaceOf(d, b, n, j);
        assert ExportAtPlace(d, b, moduleBase, list, o, j);
      }
      FindNone(list, procName);
    }
  }
}
