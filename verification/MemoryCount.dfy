/**
 * The memory table against the firmware's map, counted: how often each address is described as each kind. Counting
 * makes the comparison exact for every list of descriptors, overlapping or beyond the address space as they may be.
 */
module MemoryCount {
  import opened Basics
  import opened MemoryMap
  import opened BootParams

  predicate InRun(run: Run, a: int, k: u32) { run.kind == k && run.start <= a < run.end }

  /** How many runs describe this address as this kind. */
  function Count(runs: seq<Run>, a: int, k: u32): nat {
    if runs == [] then 0
    else Count(runs[..|runs| - 1], a, k) + if InRun(runs[|runs| - 1], a, k) then 1 else 0
  }

  ghost predicate SameCounts(x: seq<Run>, y: seq<Run>) {
    forall a: int, k: u32 :: Count(x, a, k) == Count(y, a, k)
  }

  function Runs(es: seq<E820Entry>): seq<Run> { Map(es, RunOf) }

  function DescriptorRun(d: Descriptor): Run {
    Run(d.physStart, d.physStart as int + d.pageCount as int * 0x1000, E820Type(d.ty))
  }

  /** How many descriptors say that this address is memory of a type to be reported as this kind. */
  function Described(ds: seq<Descriptor>, a: int, k: u32): nat {
    if ds == [] then 0
    else Described(ds[..|ds| - 1], a, k) + if Describes(ds[|ds| - 1], a, k) then 1 else 0
  }

  /** The table describes every address, kind by kind, as often as the firmware does. */
  ghost predicate Agrees(table: seq<E820Entry>, ds: seq<Descriptor>) {
    forall a: int, k: u32 :: Count(Runs(table), a, k) == Described(ds, a, k)
  }

  lemma {:induction false} DescribedRuns(ds: seq<Descriptor>, a: int, k: u32)
    ensures Described(ds, a, k) == Count(Map(ds, DescriptorRun), a, k)
  {
    if ds == [] {
    } else {
      var front, d := ds[..|ds| - 1], ds[|ds| - 1];
      DescribedRuns(front, a, k);
      TypesReported(d.ty, k);
      assert Map(ds, DescriptorRun) == Map(front, DescriptorRun) + [DescriptorRun(d)];
      CountSnoc(Map(front, DescriptorRun), DescriptorRun(d), a, k);
    }
  }

  lemma AgreesByRuns(table: seq<E820Entry>, ds: seq<Descriptor>)
    ensures Agrees(table, ds) <==> SameCounts(Runs(table), Map(ds, DescriptorRun))
  {
    forall a: int, k: u32 ensures Described(ds, a, k) == Count(Map(ds, DescriptorRun), a, k) {
      DescribedRuns(ds, a, k);
    }
    hide Count, Described, Runs, DescriptorRun;
  }

  lemma CountSnoc(runs: seq<Run>, r: Run, a: int, k: u32)
    ensures Count(runs + [r], a, k) == Count(runs, a, k) + if InRun(r, a, k) then 1 else 0
  {
    assert (runs + [r])[..|runs|] == runs;
  }

  lemma RunsSnoc(es: seq<E820Entry>, e: E820Entry)
    ensures Runs(es + [e]) == Runs(es) + [RunOf(e)]
  {
  }

  // ---- coalescing without going round ----

  /** An entry grown by the region behind it. */
  lemma GrownRun(last: E820Entry, r: E820Entry)
    requires Mergeable(last, r) && !GoesRound(Some(RunOf(last)), r)
    ensures RunOf(last.(size := Wrap(last.size as int + r.size as int))) ==
            Run(last.addr, r.addr as int + r.size as int, r.kind)
    ensures RunOf(last).end == r.addr
  {
  }

  lemma AbsorbCounts(out: seq<E820Entry>, r: E820Entry, a: int, k: u32)
    requires !GoesRound(LastEntry(out), r)
    ensures Count(Runs(Absorb(out, r)), a, k) == Count(Runs(out), a, k) + if InRun(RunOf(r), a, k) then 1 else 0
    ensures LastEntry(Absorb(out, r)) == Some(Extended(LastEntry(out), r))
  {
    hide Count, Runs;
    if out != [] && Mergeable(out[|out| - 1], r) {
      var front, last := out[..|out| - 1], out[|out| - 1];
      var grown := last.(size := Wrap(last.size as int + r.size as int));
      GrownRun(last, r);
      assert out == front + [last] && Absorb(out, r) == front + [grown];
      RunsSnoc(front, last);
      RunsSnoc(front, grown);
      CountSnoc(Runs(front), RunOf(last), a, k);
      CountSnoc(Runs(front), RunOf(grown), a, k);
    } else {
      RunsSnoc(out, r);
      CountSnoc(Runs(out), RunOf(r), a, k);
    }
  }

  lemma {:induction false} CoalesceCounts(rs: seq<E820Entry>)
    requires StaysBelow(rs)
    ensures SameCounts(Runs(Coalesce(rs)), Runs(rs)) && LastEntry(Coalesce(rs)) == LastRun(rs)
  {
    if rs == [] {
    } else {
      hide Count, Runs, Absorb, GoesRound, RunOf;
      var front, r := rs[..|rs| - 1], rs[|rs| - 1];
      CoalesceCounts(front);
      assert rs == front + [r];
      RunsSnoc(front, r);
      EmptyRun(r);
      if r.size != 0 { AbsorbCounts(Coalesce(front), r, 0, 0); }
      forall a: int, k: u32 ensures Count(Runs(Coalesce(rs)), a, k) == Count(Runs(rs), a, k) {
        CountSnoc(Runs(front), RunOf(r), a, k);
        if r.size != 0 { AbsorbCounts(Coalesce(front), r, a, k); }
      }
    }
  }

  lemma EmptyRun(r: E820Entry)
    ensures r.size == 0 ==> forall a: int, k: u32 :: !InRun(RunOf(r), a, k)
  {
  }

  /** Entries of the table are never empty. */
  lemma {:induction false} NeverEmpty(rs: seq<E820Entry>)
    requires StaysBelow(rs)
    ensures forall i :: 0 <= i < |Coalesce(rs)| ==> Coalesce(rs)[i].size != 0
  {
    if rs == [] {
    } else {
      var front, r := rs[..|rs| - 1], rs[|rs| - 1];
      NeverEmpty(front);
      CoalesceCounts(front);
      hide StaysBelow, Coalesce, LastRun;
      var out := Coalesce(front);
      if r.size != 0 && out != [] && Mergeable(out[|out| - 1], r) { GrownRun(out[|out| - 1], r); }
    }
  }

  // ---- bytes ----

  const HORIZON: int := 0x100_0000_0000_0000_0000

  /** Bytes of one run between two addresses. */
  function Overlap(run: Run, lo: int, hi: int): nat {
    var from, to := if run.start < lo then lo else run.start, if run.end < hi then run.end else hi;
    if from < to then to - from else 0
  }

  /** Bytes of one kind between two addresses, counted as often as they are described. */
  function Bytes(runs: seq<Run>, k: u32, lo: int, hi: int): nat {
    if runs == [] then 0
    else
      var last := runs[|runs| - 1];
      Bytes(runs[..|runs| - 1], k, lo, hi) + if last.kind == k then Overlap(last, lo, hi) else 0
  }

  function Total(es: seq<E820Entry>, k: u32): nat { Bytes(Runs(es), k, 0, HORIZON) }

  /** Bytes beyond the address space. */
  function High(es: seq<E820Entry>, k: u32): nat { Bytes(Runs(es), k, U64_SIZE, HORIZON) }

  lemma BytesSnoc(runs: seq<Run>, r: Run, k: u32, lo: int, hi: int)
    ensures Bytes(runs + [r], k, lo, hi) == Bytes(runs, k, lo, hi) + if r.kind == k then Overlap(r, lo, hi) else 0
  {
    assert (runs + [r])[..|runs|] == runs;
  }

  /** One more address is described as often as the count says. */
  lemma {:induction false} BytesStep(runs: seq<Run>, k: u32, lo: int, hi: int)
    requires lo <= hi
    ensures Bytes(runs, k, lo, hi + 1) == Bytes(runs, k, lo, hi) + Count(runs, hi, k)
  {
    if runs == [] {
    } else {
      BytesStep(runs[..|runs| - 1], k, lo, hi);
    }
  }

  lemma {:induction false} NoBytes(runs: seq<Run>, k: u32, lo: int)
    ensures Bytes(runs, k, lo, lo) == 0
  {
    if runs == [] {
    } else {
      NoBytes(runs[..|runs| - 1], k, lo);
    }
  }

  /** Equal counts make equal bytes, in every range. */
  lemma {:induction false} SameBytes(x: seq<Run>, y: seq<Run>, k: u32, lo: int, n: nat)
    requires SameCounts(x, y)
    ensures Bytes(x, k, lo, lo + n) == Bytes(y, k, lo, lo + n)
    decreases n
  {
    if n == 0 {
      NoBytes(x, k, lo);
      NoBytes(y, k, lo);
    } else {
      hide Bytes, Count;
      SameBytes(x, y, k, lo, n - 1);
      BytesStep(x, k, lo, lo + n - 1);
      BytesStep(y, k, lo, lo + n - 1);
    }
  }

  lemma TotalSnoc(es: seq<E820Entry>, e: E820Entry, k: u32)
    ensures Total(es + [e], k) == Total(es, k) + if e.kind == k then e.size as int else 0
    ensures High(es + [e], k) == High(es, k) + if e.kind == k then Over(e) else 0
  {
    RunsSnoc(es, e);
    hide Bytes, Runs;
    BytesSnoc(Runs(es), RunOf(e), k, 0, HORIZON);
    BytesSnoc(Runs(es), RunOf(e), k, U64_SIZE, HORIZON);
  }

  /** Bytes of an entry beyond the address space. */
  function Over(e: E820Entry): nat {
    var end := e.addr as int + e.size as int;
    if end > U64_SIZE then end - U64_SIZE else 0
  }

  // ---- what going round does ----

  /** Absorbing never gains bytes; when it loses none it never brings any back, and going round moves some beyond. */
  lemma AbsorbBytes(out: seq<E820Entry>, r: E820Entry, k: u32)
    ensures var next := Absorb(out, r);
            var t, h := if r.kind == k then r.size as int else 0, if r.kind == k then Over(r) else 0;
            && Total(next, k) <= Total(out, k) + t
            && (Total(next, k) == Total(out, k) + t ==> High(next, k) >= High(out, k) + h)
            && (k == r.kind && r.size != 0 && GoesRound(LastEntry(out), r) && Total(next, k) == Total(out, k) + t ==>
                  High(next, k) > High(out, k) + h)
  {
    hide Total, High;
    if out != [] && Mergeable(out[|out| - 1], r) {
      var front, last := out[..|out| - 1], out[|out| - 1];
      var grown := last.(size := Wrap(last.size as int + r.size as int));
      assert out == front + [last] && Absorb(out, r) == front + [grown];
      TotalSnoc(front, last, k);
      TotalSnoc(front, grown, k);
    } else {
      TotalSnoc(out, r, k);
    }
  }

  lemma {:induction false} CoalesceBytes(rs: seq<E820Entry>, k: u32)
    ensures Total(Coalesce(rs), k) <= Total(rs, k)
    ensures Total(Coalesce(rs), k) == Total(rs, k) ==> High(Coalesce(rs), k) >= High(rs, k)
  {
    if rs == [] {
    } else {
      hide Total, High, Absorb;
      var front, r := rs[..|rs| - 1], rs[|rs| - 1];
      assert rs == front + [r];
      CoalesceBytes(front, k);
      TotalSnoc(front, r, k);
      AbsorbBytes(Coalesce(front), r, k);
    }
  }

  /** Bytes are lost, or moved beyond the address space. */
  predicate Harmed(rs: seq<E820Entry>, table: seq<E820Entry>, k: u32) {
    Total(table, k) < Total(rs, k) || High(table, k) > High(rs, k)
  }

  lemma {:induction false} GoingRoundHarms(rs: seq<E820Entry>) returns (k: u32)
    requires !StaysBelow(rs)
    ensures Harmed(rs, Coalesce(rs), k)
  {
    var front, r := rs[..|rs| - 1], rs[|rs| - 1];
    assert rs == front + [r];
    if StaysBelow(front) {
      CoalesceCounts(front);
      k := r.kind;
    } else {
      k := GoingRoundHarms(front);
    }
    hide Total, High, Absorb, GoesRound, StaysBelow;
    CoalesceBytes(front, k);
    TotalSnoc(front, r, k);
    AbsorbBytes(Coalesce(front), r, k);
  }

  // ---- the firmware's side ----

  function TotalDescribed(ds: seq<Descriptor>, k: u32): nat { Bytes(Map(ds, DescriptorRun), k, 0, HORIZON) }

  lemma RegionRun(d: Descriptor)
    ensures RunOf(RegionOf(d)).start == DescriptorRun(d).start && RunOf(RegionOf(d)).kind == DescriptorRun(d).kind
    ensures Overlap(RunOf(RegionOf(d)), 0, HORIZON) <= Overlap(DescriptorRun(d), 0, HORIZON)
    ensures if Whole(d) then Overlap(RunOf(RegionOf(d)), 0, HORIZON) < Overlap(DescriptorRun(d), 0, HORIZON)
            else RunOf(RegionOf(d)) == DescriptorRun(d)
  {
  }

  /** Turning descriptors into regions never gains bytes, and loses some of a kind as soon as one is too large. */
  lemma {:induction false} RegionBytes(ds: seq<Descriptor>, k: u32)
    ensures Total(Map(ds, RegionOf), k) <= TotalDescribed(ds, k)
    ensures (exists i :: 0 <= i < |ds| && Whole(ds[i]) && E820Type(ds[i].ty) == k) ==>
              Total(Map(ds, RegionOf), k) < TotalDescribed(ds, k)
  {
    if ds == [] {
    } else {
      hide Whole, RegionOf, RunOf, Overlap, E820Type, Bytes;
      var front, d := ds[..|ds| - 1], ds[|ds| - 1];
      assert ds == front + [d];
      RegionBytes(front, k);
      RegionRun(d);
      KindOfRun(d);
      assert Runs(Map(ds, RegionOf)) == Runs(Map(front, RegionOf)) + [RunOf(RegionOf(d))];
      assert Map(ds, DescriptorRun) == Map(front, DescriptorRun) + [DescriptorRun(d)];
      BytesSnoc(Runs(Map(front, RegionOf)), RunOf(RegionOf(d)), k, 0, HORIZON);
      BytesSnoc(Map(front, DescriptorRun), DescriptorRun(d), k, 0, HORIZON);
      if i :| 0 <= i < |ds| && Whole(ds[i]) && E820Type(ds[i].ty) == k {
        if i < |front| { assert front[i] == ds[i]; }
      }
    }
  }

  lemma KindOfRun(d: Descriptor)
    ensures DescriptorRun(d).kind == E820Type(d.ty)
  {
  }

  lemma ExactRegions(ds: seq<Descriptor>)
    requires NoneWhole(ds)
    ensures Runs(Map(ds, RegionOf)) == Map(ds, DescriptorRun)
  {
    hide RegionOf, RunOf, DescriptorRun, Whole, Overlap;
    forall i | 0 <= i < |ds| ensures RunOf(RegionOf(ds[i])) == DescriptorRun(ds[i]) { RegionRun(ds[i]); }
  }

  // ---- the main results ----

  lemma {:induction false} PrefixBytes(es: seq<E820Entry>, n: nat, k: u32)
    requires n <= |es|
    ensures Total(es[..n], k) <= Total(es, k) && High(es, k) - High(es[..n], k) <= Total(es, k) - Total(es[..n], k)
    ensures n < |es| && k == es[n].kind && es[n].size != 0 ==> Total(es[..n], k) < Total(es, k)
  {
    if n == |es| {
      assert es[..n] == es;
    } else {
      hide Total, High;
      var front := es[..|es| - 1];
      PrefixBytes(front, n, k);
      assert front[..n] == es[..n] && es == front + [es[|es| - 1]];
      TotalSnoc(front, es[|es| - 1], k);
      assert n == |es| - 1 ==> es[..n] == front;
    }
  }

  /** A table that agrees with the firmware has all its bytes, and none elsewhere. */
  lemma AgreementBytes(table: seq<E820Entry>, ds: seq<Descriptor>, k: u32)
    requires Agrees(table, ds)
    ensures Total(table, k) == TotalDescribed(ds, k)
    ensures NoneWhole(ds) ==> High(table, k) == High(Map(ds, RegionOf), k)
  {
    AgreesByRuns(table, ds);
    hide Bytes, Count, RegionOf, DescriptorRun, RunOf, SameCounts, Agrees;
    SameBytes(Runs(table), Map(ds, DescriptorRun), k, 0, HORIZON);
    SameBytes(Runs(table), Map(ds, DescriptorRun), k, U64_SIZE, HORIZON - U64_SIZE);
    if NoneWhole(ds) { ExactRegions(ds); }
  }

  /**
   * For every list of descriptors: the first `n` entries of the table describe each address, kind by kind, exactly as
   * often as the firmware does, if and only if none is left out and the map can be coalesced without going round.
   */
  lemma TableFaithful(ds: seq<Descriptor>, n: nat)
    requires n <= |Coalesce(Map(ds, RegionOf))|
    ensures Agrees(Coalesce(Map(ds, RegionOf))[..n], ds) <==> Coalescible(ds) && n == |Coalesce(Map(ds, RegionOf))|
  {
    var rs := Map(ds, RegionOf);
    var table := Coalesce(rs);
    AgreesByRuns(table[..n], ds);
    hide Count, Total, High, Coalesce, StaysBelow, NoneWhole, RegionOf, RunOf, DescriptorRun, Agrees;
    if Coalescible(ds) && n == |table| {
      assert table[..n] == table;
      CoalesceCounts(rs);
      ExactRegions(ds);
    }
    if Agrees(table[..n], ds) { AgreementForces(ds, n); }
  }

  lemma AgreementForces(ds: seq<Descriptor>, n: nat)
    requires n <= |Coalesce(Map(ds, RegionOf))| && Agrees(Coalesce(Map(ds, RegionOf))[..n], ds)
    ensures Coalescible(ds) && n == |Coalesce(Map(ds, RegionOf))|
  {
    var rs := Map(ds, RegionOf);
    var table := Coalesce(rs);
    hide Total, High, Coalesce, StaysBelow, RegionOf, TotalDescribed, Agrees, Whole;
    forall k: u32
      ensures Total(table[..n], k) == Total(table, k) == Total(rs, k) == TotalDescribed(ds, k)
      ensures High(table, k) <= High(table[..n], k)
    {
      AgreementBytes(table[..n], ds, k);
      PrefixBytes(table, n, k);
      CoalesceBytes(rs, k);
      RegionBytes(ds, k);
    }
    forall i | 0 <= i < |ds| ensures !Whole(ds[i]) { RegionBytes(ds, E820Type(ds[i].ty)); }
    if !StaysBelow(rs) {
      var k := GoingRoundHarms(rs);
      AgreementBytes(table[..n], ds, k);
    } else if n < |table| {
      NeverEmpty(rs);
      PrefixBytes(table, n, table[n].kind);
    }
  }

  /**
   * From any firmware map to what the kernel reads in the zero page: every address described equally often, kind by
   * kind, if and only if the map can be coalesced without going round and the table has at most 128 entries.
   */
  lemma KernelAgrees(p: Page, ds: seq<Descriptor>)
    ensures var table := Coalesce(Map(ds, RegionOf));
            Agrees(KernelTable(WithE820(p, table)), ds) <==> Coalescible(ds) && |table| <= E820_MAX_ENTRIES
  {
    var table := Coalesce(Map(ds, RegionOf));
    hide KernelTable, WithE820, Coalesce, Agrees, Coalescible;
    TableReadsBack(p, table);
    TableFaithful(ds, Min(|table|, E820_MAX_ENTRIES));
  }

  // ---- address by address ----

  lemma {:induction false} CountCovers(es: seq<E820Entry>, a: int, k: u32)
    ensures Covered(es, a, k) <==> Count(Runs(es), a, k) > 0
  {
    if es == [] {
    } else {
      var front, e := es[..|es| - 1], es[|es| - 1];
      CountCovers(front, a, k);
      CoveredSnoc(es, a, k);
      assert es == front + [e];
      RunsSnoc(front, e);
      CountSnoc(Runs(front), RunOf(e), a, k);
    }
  }

  lemma {:induction false} DescribedCovers(ds: seq<Descriptor>, a: int, k: u32)
    ensures CoveredByFirmware(ds, a, k) <==> Described(ds, a, k) > 0
  {
    if ds == [] {
    } else {
      hide Describes;
      var front, d := ds[..|ds| - 1], ds[|ds| - 1];
      DescribedCovers(front, a, k);
      if i :| 0 <= i < |front| && Describes(front[i], a, k) { assert Describes(ds[i], a, k); }
      if i :| 0 <= i < |ds| && Describes(ds[i], a, k) { assert i < |front| ==> Describes(front[i], a, k); }
    }
  }

  /**
   * What the kernel is told of an address: each kind exactly where a descriptor of a type to be reported so takes it
   * in, and nothing else.
   */
  lemma KernelKinds(p: Page, ds: seq<Descriptor>, a: int, k: u32)
    requires Coalescible(ds) && |Coalesce(Map(ds, RegionOf))| <= 128
    ensures var told := KernelTable(WithE820(p, Coalesce(Map(ds, RegionOf))));
            && (Covered(told, a, k) <==> exists i :: 0 <= i < |ds| && ReportedAs(ds[i].ty, k) && Spans(ds[i], a))
            && (Covered(told, a, k) ==> 1 <= k <= 5)
  {
    var told := KernelTable(WithE820(p, Coalesce(Map(ds, RegionOf))));
    KernelAgrees(p, ds);
    hide KernelTable, WithE820, Coalesce, Coalescible;
    CountCovers(told, a, k);
    DescribedCovers(ds, a, k);
    hide Count, Runs, Described, Covered, Spans;
    if i :| 0 <= i < |ds| && ReportedAs(ds[i].ty, k) && Spans(ds[i], a) { assert Describes(ds[i], a, k); }
  }
}
