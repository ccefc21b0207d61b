/** Turning the firmware memory map into a compact E820 table. */
module MemoryMap {
  import opened Basics

  datatype MemoryType =
    | Conventional | BootServicesCode | BootServicesData | LoaderCode | LoaderData
    | AcpiReclaim | AcpiNonVolatile | Unusable | OtherType(code: u32)

  datatype Descriptor = Descriptor(ty: MemoryType, physStart: u64, pageCount: u64)

  datatype E820Entry = E820Entry(addr: u64, size: u64, kind: u32)

  const RAM: u32 := 1
  const RESERVED: u32 := 2
  const ACPI: u32 := 3
  const NVS: u32 := 4
  const UNUSABLE: u32 := 5

  function E820Type(ty: MemoryType): u32 {
    match ty
    case Conventional => RAM
    case BootServicesCode => RAM
    case BootServicesData => RAM
    case LoaderCode => RAM
    case LoaderData => RAM
    case AcpiReclaim => ACPI
    case AcpiNonVolatile => NVS
    case Unusable => UNUSABLE
    case OtherType(_) => RESERVED
  }

  /** 64-bit arithmetic wraps. */
  function Wrap(v: nat): u64 { v % U64_SIZE }

  function RegionOf(d: Descriptor): E820Entry {
    E820Entry(d.physStart, Wrap(d.pageCount as int * 0x1000), E820Type(d.ty))
  }

  predicate Mergeable(a: E820Entry, b: E820Entry) {
    a.kind == b.kind && Wrap(a.addr as int + a.size as int) == b.addr
  }

  /** Grow the last entry when the region continues it, or append. */
  function Absorb(out: seq<E820Entry>, r: E820Entry): seq<E820Entry> {
    if out != [] && Mergeable(out[|out| - 1], r) then
      var last := out[|out| - 1];
      out[|out| - 1 := last.(size := Wrap(last.size as int + r.size as int))]
    else out + [r]
  }

  /** The table a list of regions coalesces to; empty regions leave no trace. */
  function Coalesce(rs: seq<E820Entry>): seq<E820Entry> {
    if rs == [] then []
    else
      var out := Coalesce(rs[..|rs| - 1]);
      if rs[|rs| - 1].size == 0 then out else Absorb(out, rs[|rs| - 1])
  }

  method ToE820(descriptors: seq<Descriptor>) returns (out: seq<E820Entry>)
    ensures out == Coalesce(Map(descriptors, RegionOf))
  {
    out := [];
    ghost var regions := Map(descriptors, RegionOf);
    for i := 0 to |descriptors|
      invariant out == Coalesce(regions[..i])
    {
      assert regions[..i + 1][..i] == regions[..i];
      var d := descriptors[i];
      var kind, addr, size := E820Type(d.ty), d.physStart, Wrap(d.pageCount as int * 0x1000);
      if size == 0 { continue; }
      if out != [] {
        var last := out[|out| - 1];
        var lastEnd := Wrap(last.addr as int + last.size as int);
        if last.kind == kind && lastEnd == addr {
          out := out[|out| - 1 := last.(size := Wrap(last.size as int + size as int))];
          continue;
        }
      }
      out := out + [E820Entry(addr, size, kind)];
    }
    assert regions[..|descriptors|] == regions;
  }

  /** The region lies inside the address space; it may reach the very top. */
  predicate Fits(e: E820Entry) { e.addr as int + e.size as int <= U64_SIZE }

  /** The firmware's description stays inside the 64-bit address space. */
  predicate DescriptorFits(d: Descriptor) { d.physStart as int + d.pageCount as int * 0x1000 <= U64_SIZE }

  /** One descriptor for the whole address space: its size in bytes does not fit 64 bits. */
  predicate Whole(d: Descriptor) { d.pageCount as int * 0x1000 >= U64_SIZE }

  predicate NoneWhole(ds: seq<Descriptor>) { forall i :: 0 <= i < |ds| ==> !Whole(ds[i]) }

  /** A maximal stretch of contiguous regions of one kind, in unbounded arithmetic. */
  datatype Run = Run(start: int, end: int, kind: u32)

  function RunOf(e: E820Entry): Run { Run(e.addr, e.addr as int + e.size as int, e.kind) }

  function Extended(run: Option<Run>, r: E820Entry): Run {
    if run.Some? && run.value.kind == r.kind && run.value.end == r.addr then
      Run(run.value.start, r.addr as int + r.size as int, r.kind)
    else RunOf(r)
  }

  /** The stretch that the last non-empty region ends. */
  function LastRun(rs: seq<E820Entry>): Option<Run> {
    if rs == [] then None
    else
      var run, r := LastRun(rs[..|rs| - 1]), rs[|rs| - 1];
      if r.size == 0 then run else Some(Extended(run, r))
  }

  /** The region is where wrapping arithmetic puts the end of the stretch, or it makes the stretch 2^64 bytes long. */
  predicate GoesRound(run: Option<Run>, r: E820Entry) {
    && run.Some? && run.value.kind == r.kind
    && (|| run.value.end - U64_SIZE == r.addr
        || (run.value.end == r.addr && r.addr as int + r.size as int - run.value.start >= U64_SIZE))
  }

  /** No stretch goes round the address space. */
  predicate StaysBelow(rs: seq<E820Entry>) {
    rs == [] ||
    var front, r := rs[..|rs| - 1], rs[|rs| - 1];
    StaysBelow(front) && (r.size == 0 || !GoesRound(LastRun(front), r))
  }

  predicate Covers(e: E820Entry, a: int, kind: u32) {
    e.kind == kind && e.addr as int <= a < e.addr as int + e.size as int
  }

  ghost predicate Covered(es: seq<E820Entry>, a: int, kind: u32) {
    exists i :: 0 <= i < |es| && Covers(es[i], a, kind)
  }

  /**
   * What the operating system must be told memory of a type is: 1 for memory it may use, 3 for ACPI tables it may
   * reclaim, 4 for ACPI non-volatile storage, 5 for unusable memory, 2 for everything else.
   */
  predicate ReportedAs(ty: MemoryType, kind: int) {
    || (kind == 1 && (ty.Conventional? || ty.BootServicesCode? || ty.BootServicesData?))
    || (kind == 1 && (ty.LoaderCode? || ty.LoaderData?))
    || (kind == 2 && ty.OtherType?)
    || (kind == 3 && ty.AcpiReclaim?)
    || (kind == 4 && ty.AcpiNonVolatile?)
    || (kind == 5 && ty.Unusable?)
  }

  /** The descriptor's pages, of 4096 bytes each, take in this address. */
  predicate Spans(d: Descriptor, a: int) {
    d.physStart as int <= a < d.physStart as int + d.pageCount as int * 4096
  }

  predicate Describes(d: Descriptor, a: int, kind: int) { ReportedAs(d.ty, kind) && Spans(d, a) }

  /** The mapping of types is the one the operating system needs. */
  lemma TypesReported(ty: MemoryType, kind: int)
    ensures ReportedAs(ty, kind) <==> E820Type(ty) == kind
  {
  }

  ghost predicate CoveredByFirmware(ds: seq<Descriptor>, a: int, kind: u32) {
    exists i :: 0 <= i < |ds| && Describes(ds[i], a, kind)
  }

  function TotalSize(es: seq<E820Entry>): nat {
    if es == [] then 0 else TotalSize(es[..|es| - 1]) + es[|es| - 1].size as int
  }

  function TotalPages(ds: seq<Descriptor>): nat {
    if ds == [] then 0 else TotalPages(ds[..|ds| - 1]) + ds[|ds| - 1].pageCount as int
  }

  /** No entry could have been merged into the one before it. */
  ghost predicate Compact(es: seq<E820Entry>) {
    && (forall i :: 0 <= i < |es| ==> es[i].size != 0)
    && (forall i :: 0 < i < |es| ==> !Mergeable(es[i - 1], es[i]))
  }

  /** What the last entry of a table covers together with a region it absorbs. */
  lemma LastGrows(last: E820Entry, r: E820Entry)
    requires Fits(last) && Fits(r) && Mergeable(last, r) && !GoesRound(Some(RunOf(last)), r)
    ensures var grown := last.(size := Wrap(last.size as int + r.size as int));
            && Fits(grown)
            && grown.size as int == last.size as int + r.size as int
            && forall a: int, k: u32 :: Covers(grown, a, k) <==> Covers(last, a, k) || Covers(r, a, k)
  {
  }

  function LastEntry(out: seq<E820Entry>): Option<Run> {
    if out == [] then None else Some(RunOf(out[|out| - 1]))
  }

  ghost predicate AllFit(es: seq<E820Entry>) { forall i :: 0 <= i < |es| ==> Fits(es[i]) }

  lemma CoveredGrown(out: seq<E820Entry>, grown: E820Entry, r: E820Entry, a: int, k: u32)
    requires out != [] && (Covers(grown, a, k) <==> Covers(out[|out| - 1], a, k) || Covers(r, a, k))
    ensures Covered(out[|out| - 1 := grown], a, k) <==> Covered(out, a, k) || Covers(r, a, k)
  {
    var n, next := |out|, out[|out| - 1 := grown];
    if Covered(next, a, k) {
      var i :| 0 <= i < |next| && Covers(next[i], a, k);
      assert i < n - 1 ==> Covers(out[i], a, k);
    }
    if Covered(out, a, k) {
      var i :| 0 <= i < n && Covers(out[i], a, k);
      assert Covers(next[i], a, k);
    } else if Covers(r, a, k) {
      assert Covers(next[n - 1], a, k);
    }
  }

  lemma TotalGrown(out: seq<E820Entry>, grown: E820Entry)
    requires out != []
    ensures TotalSize(out[|out| - 1 := grown]) == TotalSize(out) - out[|out| - 1].size as int + grown.size as int
  {
    assert out[|out| - 1 := grown][..|out| - 1] == out[..|out| - 1];
  }

  lemma AbsorbFaithful(out: seq<E820Entry>, r: E820Entry)
    requires Fits(r) && AllFit(out) && !GoesRound(LastEntry(out), r)
    ensures var next := Absorb(out, r);
            && AllFit(next) && LastEntry(next) == Some(Extended(LastEntry(out), r))
            && TotalSize(next) == TotalSize(out) + r.size as int
            && (forall a: int, k: u32 :: Covered(next, a, k) <==> Covered(out, a, k) || Covers(r, a, k))
  {
    hide Covers, Covered;
    var next := Absorb(out, r);
    var n := |out|;
    if n != 0 && Mergeable(out[n - 1], r) {
      hide TotalSize;
      LastGrows(out[n - 1], r);
      TotalGrown(out, next[n - 1]);
      forall a: int, k: u32 ensures Covered(next, a, k) <==> Covered(out, a, k) || Covers(r, a, k) {
        CoveredGrown(out, next[n - 1], r, a, k);
      }
    } else {
      assert next[..n] == out;
      forall a: int, k: u32 ensures Covered(next, a, k) <==> Covered(out, a, k) || Covers(r, a, k) {
        CoveredSnoc(next, a, k);
      }
    }
  }

  lemma CoveredSnoc(rs: seq<E820Entry>, a: int, k: u32)
    requires rs != []
    ensures Covered(rs, a, k) <==> Covered(rs[..|rs| - 1], a, k) || Covers(rs[|rs| - 1], a, k)
  {
    var front := rs[..|rs| - 1];
    if Covered(front, a, k) {
      var i :| 0 <= i < |front| && Covers(front[i], a, k);
      assert Covers(rs[i], a, k);
    }
    if Covered(rs, a, k) {
      var i :| 0 <= i < |rs| && Covers(rs[i], a, k);
      assert i < |front| ==> Covers(front[i], a, k);
    }
  }

  /** Coalescing keeps which addresses have which kind, and the total size. */
  lemma {:induction false} CoalesceFaithful(rs: seq<E820Entry>)
    requires AllFit(rs) && StaysBelow(rs)
    ensures AllFit(Coalesce(rs)) && LastEntry(Coalesce(rs)) == LastRun(rs)
    ensures TotalSize(Coalesce(rs)) == TotalSize(rs)
    ensures forall a: int, k: u32 :: Covered(Coalesce(rs), a, k) <==> Covered(rs, a, k)
  {
    if rs != [] {
      hide Covered, Absorb;
      var front, r := rs[..|rs| - 1], rs[|rs| - 1];
      CoalesceFaithful(front);
      if r.size != 0 { AbsorbFaithful(Coalesce(front), r); }
      forall a: int, k: u32 ensures Covered(Coalesce(rs), a, k) <==> Covered(rs, a, k) {
        CoveredSnoc(rs, a, k);
      }
    } else {
      assert Coalesce(rs) == rs;
    }
  }

  /** Absorbing a region keeps a compact table compact. */
  lemma AbsorbCompact(out: seq<E820Entry>, r: E820Entry)
    requires Compact(out) && r.size != 0 && Fits(r) && AllFit(out) && !GoesRound(LastEntry(out), r)
    ensures Compact(Absorb(out, r))
  {
    var n, next := |out|, Absorb(out, r);
    if n != 0 && Mergeable(out[n - 1], r) {
      LastGrows(out[n - 1], r);
      hide Mergeable, Fits;
      assert n > 1 ==> (Mergeable(next[n - 2], next[n - 1]) <==> Mergeable(out[n - 2], out[n - 1])) by {
        if n > 1 { MergeableLooks(out[n - 2], out[n - 1], next[n - 1]); }
      }
    }
  }

  /** Whether an entry is mergeable into the one before does not depend on its size. */
  lemma MergeableLooks(a: E820Entry, b: E820Entry, c: E820Entry)
    requires b.addr == c.addr && b.kind == c.kind
    ensures Mergeable(a, b) <==> Mergeable(a, c)
  {
  }

  /** Consecutive output entries are never mergeable. */
  lemma {:induction false} CoalesceCompact(rs: seq<E820Entry>)
    requires AllFit(rs) && StaysBelow(rs)
    ensures Compact(Coalesce(rs))
  {
    if rs == [] {
    } else {
      hide Compact, Absorb, Covered;
      var front, r := rs[..|rs| - 1], rs[|rs| - 1];
      CoalesceCompact(front);
      CoalesceFaithful(front);
      if r.size != 0 { AbsorbCompact(Coalesce(front), r); }
    }
  }

  lemma {:induction false} CompactStays(rs: seq<E820Entry>)
    requires Compact(rs)
    ensures Coalesce(rs) == rs
  {
    if rs == [] {
    } else {
      CompactStays(rs[..|rs| - 1]);
      assert rs == rs[..|rs| - 1] + [rs[|rs| - 1]];
    }
  }

  /** Coalescing an already coalesced table changes nothing. */
  lemma CoalesceIdempotent(rs: seq<E820Entry>)
    requires AllFit(rs) && StaysBelow(rs)
    ensures Coalesce(Coalesce(rs)) == Coalesce(rs)
  {
    CoalesceCompact(rs);
    CompactStays(Coalesce(rs));
  }

  // ---- what happens when a stretch goes round ----

  /** Some entry claims addresses beyond the address space. */
  ghost predicate Overshoots(es: seq<E820Entry>) { !AllFit(es) }

  /** The damage going round does: bytes are lost, or claimed that do not exist. */
  ghost predicate Damaged(rs: seq<E820Entry>, table: seq<E820Entry>) {
    TotalSize(table) < TotalSize(rs) || (TotalSize(table) == TotalSize(rs) && Overshoots(table))
  }

  lemma AbsorbTotal(out: seq<E820Entry>, r: E820Entry)
    ensures var next := Absorb(out, r);
            || TotalSize(next) == TotalSize(out) + r.size as int
            || TotalSize(next) == TotalSize(out) + r.size as int - U64_SIZE
    ensures Overshoots(out) && TotalSize(Absorb(out, r)) == TotalSize(out) + r.size as int ==>
            Overshoots(Absorb(out, r))
  {
    var n, next := |out|, Absorb(out, r);
    if n != 0 && Mergeable(out[n - 1], r) {
      hide TotalSize;
      TotalGrown(out, next[n - 1]);
      if Overshoots(out) && TotalSize(next) == TotalSize(out) + r.size as int {
        var i :| 0 <= i < n && !Fits(out[i]);
        assert !Fits(next[i]);
      }
    } else {
      assert next[..n] == out;
      if Overshoots(out) {
        var i :| 0 <= i < n && !Fits(out[i]);
        assert !Fits(next[i]);
      }
    }
  }

  lemma AbsorbGoesRound(out: seq<E820Entry>, r: E820Entry)
    requires GoesRound(LastEntry(out), r) && r.size != 0
    requires TotalSize(Absorb(out, r)) == TotalSize(out) + r.size as int
    ensures Overshoots(Absorb(out, r))
  {
    var n, next := |out|, Absorb(out, r);
    TotalGrown(out, next[n - 1]);
    assert !Fits(next[n - 1]);
  }

  lemma {:induction false} CoalesceDamages(rs: seq<E820Entry>)
    requires AllFit(rs) && !StaysBelow(rs)
    ensures Damaged(rs, Coalesce(rs))
  {
    hide Overshoots, Absorb;
    var front, r := rs[..|rs| - 1], rs[|rs| - 1];
    AbsorbTotal(Coalesce(front), r);
    if StaysBelow(front) {
      CoalesceFaithful(front);
      if TotalSize(Coalesce(rs)) == TotalSize(rs) { AbsorbGoesRound(Coalesce(front), r); }
    } else {
      CoalesceDamages(front);
    }
  }

  /** A table with an entry beyond the address space covers what no fitting region covers. */
  lemma OvershootSeen(rs: seq<E820Entry>, table: seq<E820Entry>)
    requires AllFit(rs) && Overshoots(table)
    ensures exists a: int, k: u32 :: Covered(table, a, k) && !Covered(rs, a, k)
  {
    var i :| 0 <= i < |table| && !Fits(table[i]);
    var a, k := table[i].addr as int + table[i].size as int - 1, table[i].kind;
    assert Covers(table[i], a, k);
    assert Covered(table, a, k) && !Covered(rs, a, k);
  }

  /** The table covers, kind by kind, exactly what the regions do, in as many bytes. */
  ghost predicate SameMemory(rs: seq<E820Entry>, table: seq<E820Entry>) {
    TotalSize(table) == TotalSize(rs) && forall a: int, k: u32 :: Covered(table, a, k) <==> Covered(rs, a, k)
  }

  /** Coalescing keeps the memory described exactly when no stretch goes round the address space. */
  lemma CoalesceExactly(rs: seq<E820Entry>)
    requires AllFit(rs)
    ensures SameMemory(rs, Coalesce(rs)) <==> StaysBelow(rs)
  {
    if StaysBelow(rs) {
      CoalesceFaithful(rs);
    } else {
      CoalesceDamages(rs);
      if Overshoots(Coalesce(rs)) { OvershootSeen(rs, Coalesce(rs)); }
    }
  }

  lemma RegionExact(d: Descriptor)
    requires DescriptorFits(d)
    ensures Fits(RegionOf(d))
    ensures Whole(d) ==> RegionOf(d).size == 0 && d.pageCount > 0
    ensures !Whole(d) ==> RegionOf(d).size as int == d.pageCount as int * 0x1000
  {
  }

  /** A descriptor of the whole address space is lost; every other keeps its size. */
  lemma {:induction false} SizeIsPages(ds: seq<Descriptor>)
    requires forall i :: 0 <= i < |ds| ==> DescriptorFits(ds[i])
    ensures TotalSize(Map(ds, RegionOf)) <= TotalPages(ds) * 0x1000
    ensures TotalSize(Map(ds, RegionOf)) == TotalPages(ds) * 0x1000 <==> NoneWhole(ds)
  {
    if ds == [] {
    } else {
      hide RegionOf, Whole, DescriptorFits;
      var front, d := ds[..|ds| - 1], ds[|ds| - 1];
      SizeIsPages(front);
      RegionExact(d);
      assert Map(ds, RegionOf)[..|ds| - 1] == Map(front, RegionOf);
      assert NoneWhole(ds) <==> NoneWhole(front) && !Whole(d);
    }
  }

  lemma RegionsCover(ds: seq<Descriptor>, a: int, kind: u32)
    requires NoneWhole(ds) && forall i :: 0 <= i < |ds| ==> DescriptorFits(ds[i])
    ensures Covered(Map(ds, RegionOf), a, kind) <==> CoveredByFirmware(ds, a, kind)
  {
    var rs := Map(ds, RegionOf);
    forall i | 0 <= i < |ds| ensures Covers(rs[i], a, kind) <==> Describes(ds[i], a, kind) {
      RegionExact(ds[i]);
      TypesReported(ds[i].ty, kind);
    }
    hide Covers, Describes;
    if Covered(rs, a, kind) {
      var i :| 0 <= i < |rs| && Covers(rs[i], a, kind);
      assert Describes(ds[i], a, kind);
    }
    if CoveredByFirmware(ds, a, kind) {
      var i :| 0 <= i < |ds| && Describes(ds[i], a, kind);
      assert Covers(rs[i], a, kind);
    }
  }

  // ---- the table against the firmware's map ----

  lemma {:induction false} CoalesceTotal(rs: seq<E820Entry>)
    ensures TotalSize(Coalesce(rs)) <= TotalSize(rs)
  {
    if rs == [] {
    } else {
      hide Absorb;
      CoalesceTotal(rs[..|rs| - 1]);
      AbsorbTotal(Coalesce(rs[..|rs| - 1]), rs[|rs| - 1]);
    }
  }

  /** A prefix is smaller than the whole by at least any entry left out. */
  lemma {:induction false} PrefixTotal(es: seq<E820Entry>, n: nat, i: nat)
    requires n <= i < |es|
    ensures TotalSize(es[..n]) + es[i].size as int <= TotalSize(es)
  {
    var front := es[..|es| - 1];
    if i == |es| - 1 {
      if n < i { PrefixTotal(front, n, i - 1); }
      assert front[..n] == es[..n];
      assert n == i ==> es[..n] == front;
    } else {
      PrefixTotal(front, n, i);
      assert front[..n] == es[..n];
    }
  }

  /** The table says of every address exactly what the firmware's map says, in as many bytes. */
  ghost predicate SameAsFirmware(ds: seq<Descriptor>, table: seq<E820Entry>) {
    && TotalSize(table) == TotalPages(ds) * 0x1000
    && forall a: int, kind: u32 :: Covered(table, a, kind) <==> CoveredByFirmware(ds, a, kind)
  }

  /** Without a descriptor of everything, being the firmware's map is being the regions' map. */
  lemma SameByRegions(ds: seq<Descriptor>, table: seq<E820Entry>)
    requires NoneWhole(ds) && forall i :: 0 <= i < |ds| ==> DescriptorFits(ds[i])
    ensures SameAsFirmware(ds, table) <==> SameMemory(Map(ds, RegionOf), table)
  {
    hide Covered, CoveredByFirmware, TotalSize, TotalPages, RegionOf;
    SizeIsPages(ds);
    forall a: int, kind: u32 ensures Covered(Map(ds, RegionOf), a, kind) <==> CoveredByFirmware(ds, a, kind) {
      RegionsCover(ds, a, kind);
    }
  }

  lemma RegionsFit(ds: seq<Descriptor>)
    requires forall i :: 0 <= i < |ds| ==> DescriptorFits(ds[i])
    ensures AllFit(Map(ds, RegionOf))
  {
    forall i | 0 <= i < |ds| ensures Fits(Map(ds, RegionOf)[i]) { RegionExact(ds[i]); }
  }

  /** A map that can be coalesced without losing or inventing memory. */
  predicate Coalescible(ds: seq<Descriptor>) { NoneWhole(ds) && StaysBelow(Map(ds, RegionOf)) }

  /**
   * The table says of every address exactly what the firmware map says, in as many bytes, if and only if no
   * descriptor is the whole address space and no stretch of regions of one kind goes round it. It is then compact.
   */
  lemma TableFaithful(ds: seq<Descriptor>)
    requires forall i :: 0 <= i < |ds| ==> DescriptorFits(ds[i])
    ensures SameAsFirmware(ds, Coalesce(Map(ds, RegionOf))) <==> Coalescible(ds)
    ensures Coalescible(ds) ==> Compact(Coalesce(Map(ds, RegionOf)))
  {
    hide Covered, CoveredByFirmware, Coalesce, StaysBelow, Compact, TotalSize, TotalPages, RegionOf, NoneWhole;
    var rs := Map(ds, RegionOf);
    RegionsFit(ds);
    SizeIsPages(ds);
    CoalesceTotal(rs);
    if NoneWhole(ds) {
      SameByRegions(ds, Coalesce(rs));
      CoalesceExactly(rs);
    }
    if Coalescible(ds) { CoalesceCompact(rs); }
  }

  /** Keeping only the first `n` entries keeps the firmware's map exactly when none is left out. */
  lemma TruncatedExactly(ds: seq<Descriptor>, n: nat)
    requires forall i :: 0 <= i < |ds| ==> DescriptorFits(ds[i])
    requires n <= |Coalesce(Map(ds, RegionOf))|
    ensures SameAsFirmware(ds, Coalesce(Map(ds, RegionOf))[..n]) <==>
            Coalescible(ds) && n == |Coalesce(Map(ds, RegionOf))|
  {
    var rs := Map(ds, RegionOf);
    var table := Coalesce(rs);
    TableFaithful(ds);
    if n == |table| {
      assert table[..n] == table;
    } else if SameAsFirmware(ds, table[..n]) {
      CutLosesMemory(ds, n);
    }
  }

  lemma CutLosesMemory(ds: seq<Descriptor>, n: nat)
    requires forall i :: 0 <= i < |ds| ==> DescriptorFits(ds[i])
    requires n < |Coalesce(Map(ds, RegionOf))|
    ensures !SameAsFirmware(ds, Coalesce(Map(ds, RegionOf))[..n])
  {
    hide Covered, CoveredByFirmware, Coalesce, StaysBelow, TotalSize, TotalPages, RegionOf, NoneWhole;
    var rs := Map(ds, RegionOf);
    var table := Coalesce(rs);
    RegionsFit(ds);
    SizeIsPages(ds);
    CoalesceTotal(rs);
    PrefixTotal(table, n, n);
    if SameAsFirmware(ds, table[..n]) {
      SameByRegions(ds, table[..n]);
      if StaysBelow(rs) {
        CoalesceCompact(rs);
      } else {
        CoalesceDamages(rs);
        OvershootStays(table, n);
        OvershootSeen(rs, table[..n]);
      }
    }
  }

  /** What is left out has no size, so an entry beyond the address space is among what is kept. */
  lemma OvershootStays(table: seq<E820Entry>, n: nat)
    requires n <= |table| && Overshoots(table) && TotalSize(table[..n]) == TotalSize(table)
    ensures Overshoots(table[..n])
  {
    var i :| 0 <= i < |table| && !Fits(table[i]);
    if i >= n { PrefixTotal(table, n, i); }
    assert !Fits(table[..n][i]);
  }

  /** Two pages, at the top of the address space and at zero: the page at zero disappears from the table. */
  lemma TopOfMemoryMerges()
    ensures var top := Descriptor(Conventional, (U64_SIZE - 0x1000) as u64, 1);
            var low := Descriptor(Conventional, 0, 1);
            var table := Coalesce(Map([top, low], RegionOf));
            CoveredByFirmware([top, low], 0, RAM) && !Covered(table, 0, RAM)
  {
    var top := Descriptor(Conventional, (U64_SIZE - 0x1000) as u64, 1);
    var low := Descriptor(Conventional, 0, 1);
    var rs := Map([top, low], RegionOf);
    assert rs[..1] == [RegionOf(top)] && rs[..1][..0] == [];
    assert Coalesce(rs[..1]) == [RegionOf(top)];
    assert [top, low][1] == low;
    assert Describes([top, low][1], 0, RAM);
  }
}
