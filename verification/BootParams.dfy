/** The Linux boot-protocol zero page, at the byte offsets the kernel reads. */
module BootParams {
  import opened Basics
  import opened Bytes
  import opened MemoryMap

  const PAGE_SIZE := 4096
  const E820_ENTRIES_OFF := 0x1E8
  const SETUP_HEADER_OFF := 0x1F1
  const E820_TABLE_OFF := 0x2D0
  const E820_MAX_ENTRIES := 128
  const E820_ENTRY_SIZE := 20

  const LOADER_TYPE_UNDEFINED := 0xFF
  const HDRS_MAGIC := 0x5372_6448
  const BOOT_FLAG_MAGIC := 0xAA55

  const FIELD_COUNT := 39

  /** Width in bytes of the packed setup header's field number `i`, in declaration order. */
  function Width(i: nat): nat {
    if i == 0 || 13 <= i <= 14 || 21 <= i <= 22 || 26 <= i <= 27 then 1
    else if i == 1 || 3 <= i <= 7 || i == 9 || 11 <= i <= 12 || i == 15 || i == 20 || i == 28 then 2
    else if i == 31 || 34 <= i <= 35 then 8
    else 4
  }

  function Widths(): (w: seq<nat>)
    ensures |w| == FIELD_COUNT
    ensures forall i :: 0 <= i < FIELD_COUNT ==> w[i] == Width(i)
  {
    seq(FIELD_COUNT, i requires 0 <= i < FIELD_COUNT => Width(i))
  }

  /** Offset of field `i` inside the header. */
  function Offset(i: nat): nat { if i == 0 then 0 else Offset(i - 1) + Width(i - 1) }

  const BOOT_FLAG := 6
  const HEADER := 8
  const TYPE_OF_LOADER := 13
  const LOADFLAGS := 14
  const RAMDISK_IMAGE := 17
  const RAMDISK_SIZE := 18
  const CMD_LINE_PTR := 23
  const XLOADFLAGS := 28
  const HEADER_SIZE := 123

  function TotalWidth(widths: seq<nat>): (r: nat) {
    if widths == [] then 0 else widths[0] + TotalWidth(widths[1..])
  }

  predicate Holds(fields: seq<nat>, widths: seq<nat>) {
    |fields| == |widths| && forall i :: 0 <= i < |fields| ==> fields[i] < Capacity(widths[i])
  }

  /** Fields packed without padding, little-endian. */
  function Pack(fields: seq<nat>, widths: seq<nat>): (r: seq<byte>)
    requires |fields| == |widths|
    ensures |r| == TotalWidth(widths)
  {
    if widths == [] then [] else Le(fields[0], widths[0]) + Pack(fields[1..], widths[1..])
  }

  function Unpack(b: seq<byte>, widths: seq<nat>): (r: seq<nat>)
    requires |b| == TotalWidth(widths)
    ensures |r| == |widths|
  {
    if widths == [] then [] else [FromLe(b[..widths[0]])] + Unpack(b[widths[0]..], widths[1..])
  }

  lemma {:induction false} PackRoundTrip(fields: seq<nat>, widths: seq<nat>)
    requires Holds(fields, widths)
    ensures Unpack(Pack(fields, widths), widths) == fields
  {
    if widths == [] {
    } else {
      var b := Pack(fields, widths);
      LeRoundTrip(fields[0], widths[0]);
      PackRoundTrip(fields[1..], widths[1..]);
      assert b[..widths[0]] == Le(fields[0], widths[0]) && b[widths[0]..] == Pack(fields[1..], widths[1..]);
      assert [fields[0]] + fields[1..] == fields;
    }
  }

  lemma {:induction false} UnpackRoundTrip(b: seq<byte>, widths: seq<nat>)
    requires |b| == TotalWidth(widths)
    ensures Holds(Unpack(b, widths), widths)
    ensures Pack(Unpack(b, widths), widths) == b
  {
    if widths == [] {
    } else {
      LeExact(b[..widths[0]]);
      UnpackRoundTrip(b[widths[0]..], widths[1..]);
      var fields := Unpack(b, widths);
      assert fields[1..] == Unpack(b[widths[0]..], widths[1..]);
      assert b == b[..widths[0]] + b[widths[0]..];
    }
  }

  lemma {:induction false} TotalWidthSnoc(widths: seq<nat>, w: nat)
    ensures TotalWidth(widths + [w]) == TotalWidth(widths) + w
  {
    if widths == [] {
      assert [w][1..] == [];
    } else {
      assert (widths + [w])[1..] == widths[1..] + [w];
      TotalWidthSnoc(widths[1..], w);
    }
  }

  lemma WidthsPrefix(i: nat)
    requires i < FIELD_COUNT
    ensures Widths()[..i + 1] == Widths()[..i] + [Width(i)]
  {
    hide Width;
  }

  /** The packed fields before field `i` take up its offset. */
  lemma {:induction false} OffsetIsWidth(i: nat)
    requires i <= FIELD_COUNT
    ensures TotalWidth(Widths()[..i]) == Offset(i)
  {
    if i == 0 {
      assert Widths()[..0] == [];
    } else {
      hide TotalWidth, Width, Widths;
      OffsetIsWidth(i - 1);
      WidthsPrefix(i - 1);
      TotalWidthSnoc(Widths()[..i - 1], Width(i - 1));
    }
  }

  /** A setup header: one number per field. */
  datatype SetupHeader = SetupHeader(fields: seq<nat>) {
    predicate Valid() { Holds(fields, Widths()) }

    predicate IsBootable()
      requires Valid()
    {
      fields[HEADER] == HDRS_MAGIC && fields[BOOT_FLAG] == BOOT_FLAG_MAGIC
    }

    predicate Has64BitEntry()
      requires Valid()
    {
      fields[XLOADFLAGS] % 2 == 1
    }
  }

  /** `flags | LOADED_HIGH | CAN_USE_HEAP`: bits 0 and 7. */
  function WithLoadFlags(flags: nat): (r: nat)
    requires flags < 256
    ensures r < 256 && r % 2 == 1 && r >= 128 && (r - flags) in {0, 1, 128, 129}
  {
    var low := if flags % 2 == 0 then flags + 1 else flags;
    if low < 128 then low + 128 else low
  }

  function Patched(h: SetupHeader, cmdLine: u32, image: u32, size: u32): (r: SetupHeader)
    requires h.Valid()
    ensures r.Valid()
  {
    Capacities();
    SetupHeader(h.fields[TYPE_OF_LOADER := LOADER_TYPE_UNDEFINED]
                        [LOADFLAGS := WithLoadFlags(h.fields[LOADFLAGS])]
                        [CMD_LINE_PTR := cmdLine]
                        [RAMDISK_IMAGE := image]
                        [RAMDISK_SIZE := size])
  }

  /** The fields a loader fills in. */
  predicate LoaderField(i: nat) { i in {TYPE_OF_LOADER, LOADFLAGS, CMD_LINE_PTR, RAMDISK_IMAGE, RAMDISK_SIZE} }

  // ---- the page as a value ----

  type Page = p: seq<byte> | |p| == PAGE_SIZE witness seq(PAGE_SIZE, i => 0)

  function Overlay(p: Page, off: nat, data: seq<byte>): (r: Page)
    requires off + |data| <= PAGE_SIZE
    ensures r[off..off + |data|] == data
    ensures forall i :: 0 <= i < PAGE_SIZE && !(off <= i < off + |data|) ==> r[i] == p[i]
  {
    p[..off] + data + p[off + |data|..]
  }

  /** Six fields further on. */
  lemma OffsetSix(i: nat)
    ensures Offset(i + 6) ==
            Offset(i) + Width(i) + Width(i + 1) + Width(i + 2) + Width(i + 3) + Width(i + 4) + Width(i + 5)
    ensures Offset(i + 5) == Offset(i + 6) - Width(i + 5)
    ensures Offset(i + 4) == Offset(i + 5) - Width(i + 4)
    ensures Offset(i + 2) == Offset(i) + Width(i) + Width(i + 1)
    ensures Offset(i + 1) == Offset(i) + Width(i)
  {
    assert Offset(i + 1) == Offset(i) + Width(i);
    assert Offset(i + 2) == Offset(i + 1) + Width(i + 1);
    assert Offset(i + 3) == Offset(i + 2) + Width(i + 2);
    assert Offset(i + 4) == Offset(i + 3) + Width(i + 3);
    assert Offset(i + 5) == Offset(i + 4) + Width(i + 4);
  }

  lemma EarlyOffsets()
    ensures Offset(BOOT_FLAG) == 13 && Offset(HEADER) == 17
    ensures Offset(TYPE_OF_LOADER) == 31 && Offset(LOADFLAGS) == 32
    ensures Offset(RAMDISK_IMAGE) == 39 && Offset(RAMDISK_SIZE) == 43
  {
    OffsetSix(0);
    OffsetSix(6);
    OffsetSix(12);
  }

  lemma LateOffsets()
    requires Offset(RAMDISK_SIZE) == 43
    ensures Offset(CMD_LINE_PTR) == 55 && Offset(XLOADFLAGS) == 69 && Offset(FIELD_COUNT) == HEADER_SIZE
  {
    OffsetSix(18);
    OffsetSix(24);
    OffsetSix(30);
    OffsetSix(33);
  }

  /** Where the kernel's documentation places the fields a loader touches, and where the header ends. */
  lemma FieldOffsets()
    ensures SETUP_HEADER_OFF + Offset(BOOT_FLAG) == 0x1FE
    ensures SETUP_HEADER_OFF + Offset(HEADER) == 0x202
    ensures SETUP_HEADER_OFF + Offset(TYPE_OF_LOADER) == 0x210
    ensures SETUP_HEADER_OFF + Offset(LOADFLAGS) == 0x211
    ensures SETUP_HEADER_OFF + Offset(RAMDISK_IMAGE) == 0x218
    ensures SETUP_HEADER_OFF + Offset(RAMDISK_SIZE) == 0x21C
    ensures SETUP_HEADER_OFF + Offset(CMD_LINE_PTR) == 0x228
    ensures SETUP_HEADER_OFF + Offset(XLOADFLAGS) == 0x236
    ensures Offset(FIELD_COUNT) == HEADER_SIZE
  {
    hide Offset;
    EarlyOffsets();
    LateOffsets();
  }

  lemma HeaderWidth()
    ensures TotalWidth(Widths()) == HEADER_SIZE && |Widths()| == FIELD_COUNT
  {
    OffsetIsWidth(FIELD_COUNT);
    assert Widths()[..FIELD_COUNT] == Widths();
    FieldOffsets();
  }

  function HeaderBytes(h: SetupHeader): (r: seq<byte>)
    requires h.Valid()
    ensures |r| == HEADER_SIZE
  {
    HeaderWidth();
    Pack(h.fields, Widths())
  }

  function WithHeader(p: Page, h: SetupHeader): Page
    requires h.Valid()
  {
    Overlay(p, SETUP_HEADER_OFF, HeaderBytes(h))
  }

  function HeaderOf(p: Page): (h: SetupHeader)
    ensures h.Valid()
  {
    HeaderWidth();
    var b := p[SETUP_HEADER_OFF..SETUP_HEADER_OFF + HEADER_SIZE];
    UnpackRoundTrip(b, Widths());
    SetupHeader(Unpack(b, Widths()))
  }

  function WithLoaderFields(p: Page, cmdLine: u32, image: u32, size: u32): Page {
    WithHeader(p, Patched(HeaderOf(p), cmdLine, image, size))
  }

  function EntryBytes(e: E820Entry): (r: seq<byte>)
    ensures |r| == E820_ENTRY_SIZE
  {
    Le(e.addr, 8) + Le(e.size, 8) + Le(e.kind, 4)
  }

  function EntryAt(b: seq<byte>): E820Entry
    requires |b| == E820_ENTRY_SIZE
  {
    E820Entry(U64(b[0..8]), U64(b[8..16]), U32(b[16..20]))
  }

  function Table(es: seq<E820Entry>): (r: seq<byte>)
    ensures |r| == E820_ENTRY_SIZE * |es|
  {
    if es == [] then [] else Table(es[..|es| - 1]) + EntryBytes(es[|es| - 1])
  }

  function Recorded(es: seq<E820Entry>): seq<E820Entry> { es[..Min(|es|, E820_MAX_ENTRIES)] }

  function WithE820(p: Page, es: seq<E820Entry>): Page {
    var kept := Recorded(es);
    Overlay(Overlay(p, E820_ENTRIES_OFF, [|kept|]), E820_TABLE_OFF, Table(kept))
  }

  function Slot(p: Page, i: nat): E820Entry
    requires i < E820_MAX_ENTRIES
  {
    EntryAt(p[E820_TABLE_OFF + i * E820_ENTRY_SIZE..E820_TABLE_OFF + i * E820_ENTRY_SIZE + E820_ENTRY_SIZE])
  }

  // ---- the page as an array ----

  class BootParams {
    const bytes: array<byte>

    predicate Valid() { bytes.Length == PAGE_SIZE }

    constructor ()
      ensures Valid() && fresh(bytes)
      ensures forall i :: 0 <= i < PAGE_SIZE ==> bytes[i] == 0
    {
      bytes := new byte[PAGE_SIZE](_ => 0);
    }

    function Contents(): Page
      reads bytes
      requires Valid()
    {
      bytes[..]
    }

    /** `copy_from_slice` into the page. */
    method CopyIn(off: nat, src: seq<byte>)
      requires Valid() && off + |src| <= PAGE_SIZE
      modifies bytes
      ensures Contents() == Overlay(old(Contents()), off, src)
    {
      for i := 0 to |src|
        invariant forall k :: 0 <= k < i ==> bytes[off + k] == src[k]
        invariant forall k :: 0 <= k < PAGE_SIZE && !(off <= k < off + i) ==> bytes[k] == old(bytes[k])
      {
        bytes[off + i] := src[i];
      }
      OverlayUnique(old(Contents()), Contents(), off, src);
    }

    method SetSetupHeader(h: SetupHeader)
      requires Valid() && h.Valid()
      modifies bytes
      ensures Contents() == WithHeader(old(Contents()), h)
    {
      CopyIn(SETUP_HEADER_OFF, HeaderBytes(h));
    }

    method SetLoaderFields(cmdLine: u32, image: u32, size: u32)
      requires Valid()
      modifies bytes
      ensures Contents() == WithLoaderFields(old(Contents()), cmdLine, image, size)
    {
      var h := HeaderOf(Contents());
      h := Patched(h, cmdLine, image, size);
      SetSetupHeader(h);
    }

    method SetE820(entries: seq<E820Entry>)
      requires Valid()
      modifies bytes
      ensures Contents() == WithE820(old(Contents()), entries)
    {
      hide Overlay, EntryBytes, Table;
      TableNone();
      var n := Min(|entries|, E820_MAX_ENTRIES);
      ghost var before := Contents();
      bytes[E820_ENTRIES_OFF] := n;
      ghost var counted := Overlay(before, E820_ENTRIES_OFF, [n]);
      OverlayUnique(before, Contents(), E820_ENTRIES_OFF, [n]);
      OverlayNothing(counted, E820_TABLE_OFF);
      for i := 0 to n
        invariant Contents() == Overlay(counted, E820_TABLE_OFF, Table(entries[..i]))
      {
        TableNext(entries, i);
        OverlayAppend(counted, E820_TABLE_OFF, Table(entries[..i]), EntryBytes(entries[i]));
        CopyIn(E820_TABLE_OFF + i * E820_ENTRY_SIZE, EntryBytes(entries[i]));
      }
    }

    method E820Count() returns (n: byte)
      requires Valid()
      ensures n == Contents()[E820_ENTRIES_OFF]
      ensures n <= E820_MAX_ENTRIES ==> n == |KernelTable(Contents())|
    {
      n := bytes[E820_ENTRIES_OFF];
    }
  }

  lemma TableNone()
    ensures forall es: seq<E820Entry> :: Table(es[..0]) == []
  {
  }

  lemma TableNext(es: seq<E820Entry>, i: nat)
    requires i < |es|
    ensures Table(es[..i + 1]) == Table(es[..i]) + EntryBytes(es[i])
  {
    hide EntryBytes;
    assert es[..i + 1][..i] == es[..i];
  }

  lemma OverlayUnique(p: Page, q: Page, off: nat, data: seq<byte>)
    requires off + |data| <= PAGE_SIZE
    requires forall k :: 0 <= k < |data| ==> q[off + k] == data[k]
    requires forall k :: 0 <= k < PAGE_SIZE && !(off <= k < off + |data|) ==> q[k] == p[k]
    ensures q == Overlay(p, off, data)
  {
    var r := Overlay(p, off, data);
    forall k | 0 <= k < PAGE_SIZE ensures q[k] == r[k] {
      if off <= k < off + |data| { assert r[off..off + |data|][k - off] == data[k - off]; }
    }
  }

  lemma OverlayNothing(p: Page, off: nat)
    requires off <= PAGE_SIZE
    ensures Overlay(p, off, []) == p
  {
  }

  lemma OverlayAppend(p: Page, off: nat, a: seq<byte>, b: seq<byte>)
    requires off + |a| + |b| <= PAGE_SIZE
    ensures Overlay(Overlay(p, off, a), off + |a|, b) == Overlay(p, off, a + b)
  {
  }

  /** Writes to disjoint ranges commute. */
  lemma OverlayCommutes(p: Page, a: nat, x: seq<byte>, b: nat, y: seq<byte>)
    requires a + |x| <= b && b + |y| <= PAGE_SIZE
    ensures Overlay(Overlay(p, a, x), b, y) == Overlay(Overlay(p, b, y), a, x)
  {
    var q, r := Overlay(Overlay(p, a, x), b, y), Overlay(Overlay(p, b, y), a, x);
    forall k | 0 <= k < PAGE_SIZE ensures q[k] == r[k] {
      if a <= k < a + |x| {
        assert q[a..a + |x|][k - a] == q[k];
      }
    }
  }

  // ---- what reads back ----

  lemma HeaderReadsBack(p: Page, h: SetupHeader)
    requires h.Valid()
    ensures HeaderOf(WithHeader(p, h)) == h
  {
    HeaderWidth();
    PackRoundTrip(h.fields, Widths());
  }

  /** Patching changes the loader's fields of the header that was there, and nothing else in it. */
  lemma LoaderFieldsPatched(p: Page, cmdLine: u32, image: u32, size: u32)
    ensures var before, after := HeaderOf(p).fields, HeaderOf(WithLoaderFields(p, cmdLine, image, size)).fields;
            && after[TYPE_OF_LOADER] == LOADER_TYPE_UNDEFINED
            && after[LOADFLAGS] == WithLoadFlags(before[LOADFLAGS])
            && after[CMD_LINE_PTR] == cmdLine && after[RAMDISK_IMAGE] == image && after[RAMDISK_SIZE] == size
            && forall i :: 0 <= i < |Widths()| && !LoaderField(i) ==> after[i] == before[i]
    ensures var h, g := HeaderOf(p), HeaderOf(WithLoaderFields(p, cmdLine, image, size));
            g.IsBootable() == h.IsBootable() && g.Has64BitEntry() == h.Has64BitEntry()
  {
    HeaderReadsBack(p, Patched(HeaderOf(p), cmdLine, image, size));
  }

  lemma EntryRoundTrip(e: E820Entry)
    ensures EntryAt(EntryBytes(e)) == e
  {
    var b := EntryBytes(e);
    assert b[0..8] == Le(e.addr, 8) && b[8..16] == Le(e.size, 8) && b[16..20] == Le(e.kind, 4);
    Capacities();
    LeRoundTrip(e.addr, 8);
    LeRoundTrip(e.size, 8);
    LeRoundTrip(e.kind, 4);
  }

  lemma SliceOfAppend(a: seq<byte>, b: seq<byte>, lo: nat, hi: nat)
    requires lo <= hi <= |a|
    ensures (a + b)[lo..hi] == a[lo..hi]
  {
  }

  lemma {:induction false} TableSlot(es: seq<E820Entry>, i: nat)
    requires i < |es|
    ensures i * E820_ENTRY_SIZE + E820_ENTRY_SIZE <= |Table(es)|
    ensures Table(es)[i * E820_ENTRY_SIZE..i * E820_ENTRY_SIZE + E820_ENTRY_SIZE] == EntryBytes(es[i])
  {
    hide EntryBytes;
    var front := es[..|es| - 1];
    if i < |es| - 1 {
      TableSlot(front, i);
      SliceOfAppend(Table(front), EntryBytes(es[|es| - 1]), i * E820_ENTRY_SIZE, i * E820_ENTRY_SIZE + E820_ENTRY_SIZE);
    }
  }

  /** The memory table as the kernel reads it. */
  function KernelTable(p: Page): (r: seq<E820Entry>)
    ensures |r| == Min(p[E820_ENTRIES_OFF], E820_MAX_ENTRIES)
  {
    var n := Min(p[E820_ENTRIES_OFF], E820_MAX_ENTRIES);
    seq(n, i requires 0 <= i < n => Slot(p, i))
  }

  /** The count byte holds the number recorded, and the kernel reads back just the entries recorded. */
  lemma TableReadsBack(p: Page, es: seq<E820Entry>)
    ensures WithE820(p, es)[E820_ENTRIES_OFF] == Min(|es|, E820_MAX_ENTRIES)
    ensures KernelTable(WithE820(p, es)) == es[..Min(|es|, E820_MAX_ENTRIES)]
  {
    hide Slot, EntryAt, Table;
    var page := WithE820(p, es);
    CountReadsBack(p, es);
    forall i | 0 <= i < Min(|es|, E820_MAX_ENTRIES) ensures Slot(page, i) == es[i] { SlotReadsBack(p, es, i); }
  }

  lemma CountReadsBack(p: Page, es: seq<E820Entry>)
    ensures WithE820(p, es)[E820_ENTRIES_OFF] == Min(|es|, E820_MAX_ENTRIES)
  {
    var kept := Recorded(es);
    var counted := Overlay(p, E820_ENTRIES_OFF, [|kept|]);
    assert counted[E820_ENTRIES_OFF..E820_ENTRIES_OFF + 1][0] == |kept|;
  }

  lemma SlotReadsBack(p: Page, es: seq<E820Entry>, i: nat)
    requires i < Min(|es|, E820_MAX_ENTRIES)
    ensures Slot(WithE820(p, es), i) == es[i]
  {
    SlotBytes(p, es, i);
    EntryRoundTrip(es[i]);
  }

  /**
   * From the firmware's map to what the kernel reads in the zero page: the same memory, kind by kind, if and only
   * if the map can be coalesced without loss and the table has at most 128 entries.
   */
  lemma KernelSeesFirmwareMap(p: Page, ds: seq<Descriptor>)
    requires forall i :: 0 <= i < |ds| ==> DescriptorFits(ds[i])
    ensures var table := Coalesce(Map(ds, RegionOf));
            SameAsFirmware(ds, KernelTable(WithE820(p, table))) <==> Coalescible(ds) && |table| <= E820_MAX_ENTRIES
  {
    var table := Coalesce(Map(ds, RegionOf));
    hide KernelTable, WithE820, Coalesce, SameAsFirmware, Coalescible;
    TableReadsBack(p, table);
    TruncatedExactly(ds, Min(|table|, E820_MAX_ENTRIES));
  }

  lemma SlotBytes(p: Page, es: seq<E820Entry>, i: nat)
    requires i < Min(|es|, E820_MAX_ENTRIES)
    ensures var lo := E820_TABLE_OFF + i * E820_ENTRY_SIZE;
            WithE820(p, es)[lo..lo + E820_ENTRY_SIZE] == EntryBytes(es[i])
  {
    hide EntryBytes, Table;
    var table := Table(Recorded(es));
    var page := WithE820(p, es);
    TableSlot(Recorded(es), i);
    assert page[E820_TABLE_OFF..E820_TABLE_OFF + |table|] == table;
    hide WithE820;
    SliceOfSlice(page, E820_TABLE_OFF, E820_TABLE_OFF + |table|, i * E820_ENTRY_SIZE,
        i * E820_ENTRY_SIZE + E820_ENTRY_SIZE);
  }

  // ---- independence of the three writers ----

  lemma HeaderThenTable(p: Page, h: SetupHeader, es: seq<E820Entry>)
    requires h.Valid()
    ensures WithE820(WithHeader(p, h), es) == WithHeader(WithE820(p, es), h)
  {
    var kept := Recorded(es);
    var b, n, t := HeaderBytes(h), [|kept| as byte], Table(kept);
    OverlayCommutes(p, E820_ENTRIES_OFF, n, SETUP_HEADER_OFF, b);
    OverlayCommutes(Overlay(p, E820_ENTRIES_OFF, n), SETUP_HEADER_OFF, b, E820_TABLE_OFF, t);
  }

  lemma TableKeepsHeader(p: Page, es: seq<E820Entry>)
    ensures HeaderOf(WithE820(p, es)) == HeaderOf(p)
  {
    var q := WithE820(p, es);
    assert q[SETUP_HEADER_OFF..SETUP_HEADER_OFF + HEADER_SIZE] == p[SETUP_HEADER_OFF..SETUP_HEADER_OFF + HEADER_SIZE];
  }

  /** Header, then its patch, with the memory table written at any point: the same page results. */
  lemma WriterOrderIrrelevant(p: Page, h: SetupHeader, cmdLine: u32, image: u32, size: u32, es: seq<E820Entry>)
    requires h.Valid()
    ensures var last := WithE820(WithLoaderFields(WithHeader(p, h), cmdLine, image, size), es);
            && WithLoaderFields(WithE820(WithHeader(p, h), es), cmdLine, image, size) == last
            && WithLoaderFields(WithHeader(WithE820(p, es), h), cmdLine, image, size) == last
            && HeaderOf(last) == Patched(h, cmdLine, image, size)
  {
    var q := WithHeader(p, h);
    HeaderReadsBack(p, h);
    TableKeepsHeader(q, es);
    HeaderThenTable(q, Patched(h, cmdLine, image, size), es);
    HeaderThenTable(p, h, es);
    HeaderReadsBack(q, Patched(h, cmdLine, image, size));
    TableKeepsHeader(WithLoaderFields(q, cmdLine, image, size), es);
  }

  /** Every byte outside the count, the header and the recorded slots stays as it was. */
  lemma OtherBytesUntouched(p: Page, h: SetupHeader, cmdLine: u32, image: u32, size: u32, es: seq<E820Entry>, k: nat)
    requires h.Valid() && k < PAGE_SIZE
    requires k != E820_ENTRIES_OFF && !(SETUP_HEADER_OFF <= k < SETUP_HEADER_OFF + HEADER_SIZE)
    requires !(E820_TABLE_OFF <= k < E820_TABLE_OFF + E820_ENTRY_SIZE * Min(|es|, E820_MAX_ENTRIES))
    ensures WithE820(WithLoaderFields(WithHeader(p, h), cmdLine, image, size), es)[k] == p[k]
  {
  }

  // ---- at the very bytes ----

  lemma {:induction false} UnpackAt(b: seq<byte>, widths: seq<nat>, i: nat)
    requires |b| == TotalWidth(widths) && i < |widths|
    ensures var at := TotalWidth(widths[..i]);
            at + widths[i] <= |b| && Unpack(b, widths)[i] == NumberAt(b, at, widths[i])
  {
    hide FromLe;
    if i == 0 {
      assert widths[..0] == [] && b[..widths[0]] == b[0..widths[0]];
    } else {
      var w := widths[0];
      UnpackAt(b[w..], widths[1..], i - 1);
      assert widths[..i][1..] == widths[1..][..i - 1] && b[w..|b|] == b[w..];
      assert Unpack(b, widths) == [FromLe(b[..w])] + Unpack(b[w..], widths[1..]);
      hide NumberAt;
      NumberInside(b, w, |b|, TotalWidth(widths[1..][..i - 1]), widths[i]);
    }
  }

  /** Field `i` of the header is the little-endian number at its offset from 0x1F1. */
  lemma FieldRead(p: Page, i: nat)
    requires i < FIELD_COUNT
    ensures var at := 0x1F1 + Offset(i);
            at + Width(i) <= PAGE_SIZE && HeaderOf(p).fields[i] == NumberAt(p, at, Width(i))
  {
    HeaderWidth();
    OffsetIsWidth(i);
    var widths := Widths();
    var b := p[SETUP_HEADER_OFF..SETUP_HEADER_OFF + HEADER_SIZE];
    assert HeaderOf(p).fields == Unpack(b, widths) && widths[i] == Width(i);
    hide Offset, Width, TotalWidth, Unpack, NumberAt, HeaderOf, Widths;
    UnpackAt(b, widths, i);
    NumberInside(p, SETUP_HEADER_OFF, SETUP_HEADER_OFF + HEADER_SIZE, Offset(i), Width(i));
  }

  /** The fields a loader and a kernel look at, at the offsets the boot protocol gives them. */
  lemma FieldsPlaced(p: Page)
    ensures var f := HeaderOf(p).fields;
            && f[BOOT_FLAG] == NumberAt(p, 0x1FE, 2) && f[HEADER] == NumberAt(p, 0x202, 4)
            && f[TYPE_OF_LOADER] == p[0x210] && f[LOADFLAGS] == p[0x211]
            && f[RAMDISK_IMAGE] == NumberAt(p, 0x218, 4) && f[RAMDISK_SIZE] == NumberAt(p, 0x21C, 4)
            && f[CMD_LINE_PTR] == NumberAt(p, 0x228, 4) && f[XLOADFLAGS] == NumberAt(p, 0x236, 2)
  {
    FieldOffsets();
    hide NumberAt, Offset, HeaderOf;
    FieldRead(p, BOOT_FLAG);
    FieldRead(p, HEADER);
    FieldRead(p, TYPE_OF_LOADER);
    FieldRead(p, LOADFLAGS);
    FieldRead(p, RAMDISK_IMAGE);
    FieldRead(p, RAMDISK_SIZE);
    FieldRead(p, CMD_LINE_PTR);
    FieldRead(p, XLOADFLAGS);
    OneByte(p, 0x210);
    OneByte(p, 0x211);
  }

  /** What a loader writes, at the offsets the boot protocol gives: type 0xFF, two flags, command line and initrd. */
  lemma LoaderBytes(p: Page, cmdLine: u32, image: u32, size: u32)
    ensures var q := WithLoaderFields(p, cmdLine, image, size);
            && q[0x210] == 0xFF && q[0x211] == WithLoadFlags(p[0x211])
            && NumberAt(q, 0x218, 4) == image && NumberAt(q, 0x21C, 4) == size && NumberAt(q, 0x228, 4) == cmdLine
  {
    LoaderFieldsPatched(p, cmdLine, image, size);
    hide NumberAt, HeaderOf, WithLoaderFields, WithLoadFlags;
    FieldsPlaced(p);
    FieldsPlaced(WithLoaderFields(p, cmdLine, image, size));
  }

  /** A kernel image is one that says `HdrS` at 0x202 after the boot flag 0x55 0xAA; bit 0 of 0x236 is 64-bit entry. */
  lemma KernelMarks(p: Page)
    ensures HeaderOf(p).IsBootable() <==>
            p[0x1FE..0x200] == [0x55, 0xAA] && p[0x202..0x206] == ['H' as int, 'd' as int, 'r' as int, 'S' as int]
    ensures HeaderOf(p).Has64BitEntry() <==> p[0x236] % 2 == 1
  {
    FieldsPlaced(p);
    hide HeaderOf, FromLe;
    Weights(p[0x1FE..0x200]);
    Weights(p[0x202..0x206]);
    Weights(p[0x236..0x238]);
    assert NumberAt(p, 0x1FE, 2) == p[0x1FE] as int + p[0x1FF] as int * 0x100;
    assert NumberAt(p, 0x236, 2) == p[0x236] as int + p[0x237] as int * 0x100;
  }

  /** The memory table at the offsets the boot protocol gives: a count, then 20 bytes an entry. */
  lemma TableBytes(p: Page, es: seq<E820Entry>, i: nat)
    requires i < |es| && i < 128
    ensures var q, at := WithE820(p, es), 0x2D0 + 20 * i;
            && q[0x1E8] == Min(|es|, 128)
            && NumberAt(q, at, 8) == es[i].addr && NumberAt(q, at + 8, 8) == es[i].size
            && NumberAt(q, at + 16, 4) == es[i].kind
  {
    CountReadsBack(p, es);
    SlotReadsBack(p, es, i);
    hide WithE820, NumberAt, Slot;
    SlotFields(WithE820(p, es), i, 0x2D0 + 20 * i);
  }

  lemma SlotFields(q: Page, i: nat, at: nat)
    requires i < 128 && at == 0x2D0 + 20 * i
    ensures var e := Slot(q, i);
            e.addr == NumberAt(q, at, 8) && e.size == NumberAt(q, at + 8, 8) && e.kind == NumberAt(q, at + 16, 4)
  {
    var slot := q[at..at + 20];
    assert E820_TABLE_OFF + i * E820_ENTRY_SIZE == at;
    assert Slot(q, i) == EntryAt(slot);
    hide FromLe, NumberAt, EntryAt, Slot;
    SlotNumbers(slot);
    NumberInside(q, at, at + 20, 0, 8);
    NumberInside(q, at, at + 20, 8, 8);
    NumberInside(q, at, at + 20, 16, 4);
  }

  lemma SlotNumbers(b: seq<byte>)
    requires |b| == 20
    ensures var e := EntryAt(b);
            e.addr == NumberAt(b, 0, 8) && e.size == NumberAt(b, 8, 8) && e.kind == NumberAt(b, 16, 4)
  {
    hide FromLe;
  }
}
