/** Which entry to boot by default, which to try next, and how healthy each one is. */
module Policy {
  import opened Basics
  import opened Ids
  import opened Sorting
  import opened Graph

  datatype Strategy = PreferDefault | LastGoodThenDefault

  datatype History = History(configuredDefault: Option<EntryId>, lastGood: Option<EntryId>, oneShot: Option<EntryId>)

  datatype Reason =
    | OneShot
    | ConfiguredDefault
    | LastGood
    | FellBackToHealthiest(skipped: string)
    | HealthiestAvailable

  datatype Decision = Decision(chosen: EntryId, reason: Reason)

  /** Healthier first. */
  predicate HealthLe(a: BootEntry, b: BootEntry) { a.health.Rank() >= b.health.Rank() }

  function IdOf(e: BootEntry): EntryId { e.id }

  function RankedEntries(es: seq<BootEntry>): seq<BootEntry> { Sort(BootableEntries(es), HealthLe) }

  function RankedCandidates(es: seq<BootEntry>): seq<EntryId> { Map(RankedEntries(es), IdOf) }

  predicate IsBootable(es: seq<BootEntry>, id: EntryId) {
    Find(es, id).Some? && Find(es, id).value.Bootable()
  }

  /** `best` is the first of the healthiest among `s`. */
  ghost predicate Healthiest(s: seq<BootEntry>, i: int) {
    && 0 <= i < |s|
    && (forall j :: 0 <= j < |s| ==> s[j].health.Rank() <= s[i].health.Rank())
    && (forall j :: 0 <= j < i ==> s[j].health.Rank() < s[i].health.Rank())
  }

  method PickHealthiest(graph: BootGraph) returns (best: Option<BootEntry>)
    ensures best.None? <==> RankedCandidates(graph.Entries()) == []
    ensures best.Some? ==> best.value == RankedEntries(graph.Entries())[0]
    ensures best.Some? ==> exists i :: Healthiest(BootableEntries(graph.Entries()), i)
                             && BootableEntries(graph.Entries())[i] == best.value
  {
    var s := BootableEntries(graph.Entries());
    best := None;
    ghost var at := 0;
    for k := 0 to |s|
      invariant best.None? <==> k == 0
      invariant best.Some? ==> Healthiest(s[..k], at) && s[at] == best.value
    {
      if best.None? || s[k].health.Rank() > best.value.health.Rank() {
        best := Some(s[k]);
        at := k;
      }
    }
    assert s[..|s|] == s;
    if s != [] {
      var i := SortedHead(s);
      assert i == at;
    }
  }

  /** The head of the stable ranking is the first of the healthiest. */
  lemma {:induction false} SortedHead(s: seq<BootEntry>) returns (i: nat)
    requires s != []
    ensures Healthiest(s, i) && Sort(s, HealthLe)[0] == s[i]
  {
    i := 0;
    if |s| == 1 {
    } else {
      var x, t := s[0], s[1..];
      var k := SortedHead(t);
      assert s == [x] + t;
      hide Healthiest, HealthLe, Insert;
      HealthiestCons(x, t, k);
      InsertHead(x, Sort(t, HealthLe), HealthLe);
      if !HealthLe(x, t[k]) { i := k + 1; }
    }
  }

  lemma HealthiestCons(x: BootEntry, t: seq<BootEntry>, k: nat)
    requires Healthiest(t, k)
    ensures Healthiest([x] + t, if HealthLe(x, t[k]) then 0 else k + 1)
  {
    var s := [x] + t;
    assert forall j :: 0 < j < |s| ==> s[j] == t[j - 1];
  }

  function Preferred(history: History, strategy: Strategy): Option<EntryId> {
    match strategy
    case LastGoodThenDefault => FirstOf(history.lastGood, history.configuredDefault)
    case PreferDefault => history.configuredDefault
  }

  /** None exactly when nothing is bootable; otherwise one-shot, preferred, healthiest, each only if bootable. */
  ghost predicate Decided(es: seq<BootEntry>, history: History, strategy: Strategy, r: Option<Decision>) {
    && (r.None? <==> RankedCandidates(es) == [])
    && (r.Some? ==> r.value.chosen in RankedCandidates(es))
    && (r.Some? && UniqueIds(es) ==> IsBootable(es, r.value.chosen))
    && if history.oneShot.Some? && IsBootable(es, history.oneShot.value) then
         r == Some(Decision(history.oneShot.value, OneShot))
       else
         var preferred := Preferred(history, strategy);
         if preferred.Some? && IsBootable(es, preferred.value) then
           r == Some(Decision(preferred.value,
                              if strategy == LastGoodThenDefault && history.lastGood.Some? then LastGood
                              else ConfiguredDefault))
         else
           r.Some? ==> r.value == Decision(
                         RankedCandidates(es)[0],
                         if preferred.Some? then FellBackToHealthiest(preferred.value.text) else HealthiestAvailable)
  }

  method Decide(graph: BootGraph, history: History, strategy: Strategy) returns (r: Option<Decision>)
    ensures Decided(graph.Entries(), history, strategy, r)
  {
    forall id
      ensures IsBootable(graph.Entries(), id) ==> id in RankedCandidates(graph.Entries())
      ensures UniqueIds(graph.Entries()) && id in RankedCandidates(graph.Entries()) ==> IsBootable(graph.Entries(), id)
    {
      BootableRanked(graph.Entries(), id);
    }
    if history.oneShot.Some? {
      if IsBootable(graph.Entries(), history.oneShot.value) {
        return Some(Decision(history.oneShot.value, OneShot));
      }
    }
    var preferred := Preferred(history, strategy);
    if preferred.Some? {
      if IsBootable(graph.Entries(), preferred.value) {
        var why := if strategy == LastGoodThenDefault && history.lastGood.Some? then LastGood else ConfiguredDefault;
        return Some(Decision(preferred.value, why));
      }
    }
    var healthiest := PickHealthiest(graph);
    if healthiest.None? { return None; }
    var reason := if preferred.Some? then FellBackToHealthiest(preferred.value.text) else HealthiestAvailable;
    r := Some(Decision(healthiest.value.id, reason));
    assert RankedCandidates(graph.Entries())[0] == healthiest.value.id;
  }

  /** Everything bootable by id is ranked, and on a graph with unique ids nothing else is. */
  lemma BootableRanked(es: seq<BootEntry>, id: EntryId)
    ensures IsBootable(es, id) ==> id in RankedCandidates(es)
    ensures UniqueIds(es) && id in RankedCandidates(es) ==> IsBootable(es, id)
  {
    var b, r := BootableEntries(es), RankedEntries(es);
    BootableMembers(es);
    if IsBootable(es, id) {
      var e := Find(es, id).value;
      assert e in b && e in multiset(r);
      var i :| 0 <= i < |r| && r[i] == e;
      assert RankedCandidates(es)[i] == id;
    }
    if UniqueIds(es) && id in RankedCandidates(es) {
      var i :| 0 <= i < |r| && r[i].id == id;
      assert r[i] in multiset(b);
      assert r[i] in b;
      assert r[i] in es;
      var k :| 0 <= k < |es| && es[k] == r[i];
      FirstFound(es, k);
    }
  }

  /** The ranking is a stable, health-descending permutation of the bootable entries. */
  lemma RankingFaithful(es: seq<BootEntry>, tie: BootEntry)
    ensures multiset(RankedEntries(es)) == multiset(BootableEntries(es))
    ensures Sorted(RankedEntries(es), HealthLe)
    ensures Ties(RankedEntries(es), tie, HealthLe) == Ties(BootableEntries(es), tie, HealthLe)
  {
    SortSorted(BootableEntries(es), HealthLe);
    SortStable(BootableEntries(es), tie, HealthLe);
  }

  function Others(ranked: seq<EntryId>, chosen: EntryId): seq<EntryId> { Filter(ranked, id => id != chosen) }

  /** The entry the user chose first, then every other candidate in rank order. */
  function AttemptOrder(es: seq<BootEntry>, chosen: EntryId): seq<EntryId> {
    [chosen] + Others(RankedCandidates(es), chosen)
  }

  lemma OthersNext(ranked: seq<EntryId>, chosen: EntryId, i: nat)
    requires i < |ranked|
    ensures Others(ranked[..i + 1], chosen) ==
            Others(ranked[..i], chosen) + if ranked[i] != chosen then [ranked[i]] else []
  {
    FilterNext(ranked, i, id => id != chosen);
  }

  method BuildCandidates(graph: BootGraph, chosen: EntryId) returns (candidates: seq<EntryId>)
    ensures candidates == AttemptOrder(graph.Entries(), chosen)
  {
    var ranked := RankedCandidates(graph.Entries());
    candidates := [chosen];
    assert Others(ranked[..0], chosen) == [];
    hide RankedCandidates, Others;
    for i := 0 to |ranked|
      invariant candidates == [chosen] + Others(ranked[..i], chosen)
    {
      OthersNext(ranked, chosen, i);
      if ranked[i] != chosen { candidates := candidates + [ranked[i]]; }
    }
    assert ranked[..|ranked|] == ranked;
  }

  /** No candidate is listed twice, and every bootable entry is listed. */
  lemma AttemptOrderComplete(es: seq<BootEntry>, chosen: EntryId)
    requires UniqueIds(es)
    ensures Distinct(AttemptOrder(es, chosen))
    ensures forall id :: IsBootable(es, id) ==> id in AttemptOrder(es, chosen)
    ensures forall id :: id in AttemptOrder(es, chosen) ==> id == chosen || IsBootable(es, id)
  {
    FilterKeepsUnique(es, (e: BootEntry) => e.Bootable());
    PermutationUnique(BootableEntries(es), RankedEntries(es));
    assert Distinct(RankedCandidates(es));
    FilterDistinct(RankedCandidates(es), id => id != chosen);
    var others := Others(RankedCandidates(es), chosen);
    FilterMembers(RankedCandidates(es), id => id != chosen);
    assert chosen !in others;
    assert forall j :: 0 < j < |AttemptOrder(es, chosen)| ==> AttemptOrder(es, chosen)[j] == others[j - 1];
    forall id ensures IsBootable(es, id) <==> id in RankedCandidates(es) { BootableRanked(es, id); }
  }

  // ---- health ----

  function AssessEntry(e: BootEntry, fileExists: string -> bool): Health {
    if e.loader.Some? && !fileExists(e.loader.value) then Unbootable("loader missing: " + e.loader.value)
    else if e.kernel.Some? && !fileExists(e.kernel.value) then Unbootable("kernel missing: " + e.kernel.value)
    else if e.initrd.Some? && !fileExists(e.initrd.value) then Degraded("initrd missing: " + e.initrd.value)
    else if e.lastResult == Some(ResultFailed) then Degraded("previous boot did not confirm")
    else Healthy
  }

  predicate Missing(path: Option<string>, fileExists: string -> bool) { path.Some? && !fileExists(path.value) }

  /** The verdict an entry deserves, and the words for it: nothing can be launched without loader and kernel. */
  predicate Verdict(e: BootEntry, fileExists: string -> bool) {
    var gone := Missing(e.loader, fileExists) || Missing(e.kernel, fileExists);
    var doubtful := Missing(e.initrd, fileExists) || e.lastResult == Some(ResultFailed);
    && (e.health.Unbootable? <==> gone) && (e.health.Degraded? <==> !gone && doubtful)
    && (e.health.Healthy? <==> !gone && !doubtful)
    && (Missing(e.loader, fileExists) ==> e.health.reason == "loader missing: " + e.loader.value)
    && (gone && !Missing(e.loader, fileExists) ==> e.health.reason == "kernel missing: " + e.kernel.value)
    && (!gone && Missing(e.initrd, fileExists) ==> e.health.reason == "initrd missing: " + e.initrd.value)
    && (!gone && doubtful && !Missing(e.initrd, fileExists) ==> e.health.reason == "previous boot did not confirm")
  }

  lemma VerdictGiven(e: BootEntry, fileExists: string -> bool)
    ensures Verdict(e.(health := AssessEntry(e, fileExists)), fileExists)
  {
  }

  /** The graph as one assessment leaves it: each id's first entry carries its own verdict. */
  ghost predicate Assessed(before: seq<BootEntry>, after: seq<BootEntry>, n: nat, fileExists: string -> bool) {
    && |after| == |before|
    && forall i :: 0 <= i < |before| ==>
         after[i] ==
         if First(before, i) && i < n then before[i].(health := AssessEntry(before[i], fileExists)) else before[i]
  }

  lemma {:induction false} AnnotateAt(es: seq<BootEntry>, id: EntryId, h: Health, i: nat)
    requires i < |es|
    ensures Annotate(es, id, h)[i] == if es[i].id == id && First(es, i) then es[i].(health := h) else es[i]
  {
    if es[0].id != id && i > 0 {
      AnnotateAt(es[1..], id, h, i - 1);
      assert forall j :: 0 <= j < i ==> es[1..][j] == es[j + 1];
      if es[i].id == id && First(es[1..], i - 1) {
        forall j | 0 <= j < i ensures es[j].id != es[i].id {
          if j > 0 { assert es[1..][j - 1].id != es[1..][i - 1].id; }
        }
      }
    }
  }

  lemma AssessStep(before: seq<BootEntry>, after: seq<BootEntry>, n: nat, fileExists: string -> bool)
    requires n < |before| && Assessed(before, after, n, fileExists)
    ensures Find(after, before[n].id).Some?
    ensures var e := Find(after, before[n].id).value;
            Assessed(before, Annotate(after, before[n].id, AssessEntry(e, fileExists)), n + 1, fileExists)
  {
    var id := before[n].id;
    assert after[n].id == id;
    var k := FindAt(after, id);
    var h := AssessEntry(after[k], fileExists);
    assert forall i :: 0 <= i < |after| ==> after[i].id == before[i].id;
    assert First(before, k) && k <= n;
    assert h == AssessEntry(before[k], fileExists);
    forall i | 0 <= i < |after|
      ensures Annotate(after, id, h)[i] ==
              if First(before, i) && i < n + 1 then before[i].(health := AssessEntry(before[i], fileExists))
              else before[i]
    {
      AnnotateAt(after, id, h, i);
      if i == k {
        assert First(after, i);
      } else if after[i].id == id {
        assert !First(after, i) && !First(before, i);
      } else {
        assert i != n;
      }
    }
  }

  /** Same disks, systems and entry counts. */
  ghost predicate SameTree(a: seq<DiskNode>, b: seq<DiskNode>) {
    && |a| == |b|
    && forall i :: 0 <= i < |a| ==>
        a[i].id == b[i].id && a[i].caption == b[i].caption && SameSystems(a[i].systems, b[i].systems)
  }

  ghost predicate SameSystems(a: seq<OsNode>, b: seq<OsNode>) {
    && |a| == |b|
    && forall i :: 0 <= i < |a| ==> a[i].kind == b[i].kind && a[i].name == b[i].name && |a[i].entries| == |b[i].entries|
  }

  lemma {:induction false} AnnotateSystemsShape(systems: seq<OsNode>, id: EntryId, h: Health)
    ensures SameSystems(systems, AnnotateSystems(systems, id, h))
  {
    if systems == [] {
    } else {
      AnnotateSystemsShape(systems[1..], id, h);
    }
  }

  lemma {:induction false} AnnotateShape(disks: seq<DiskNode>, id: EntryId, h: Health)
    ensures SameTree(disks, AnnotateDisks(disks, id, h))
  {
    if disks == [] {
    } else {
      AnnotateShape(disks[1..], id, h);
      AnnotateSystemsShape(disks[0].systems, id, h);
    }
  }

  method AssessAll(graph: BootGraph, fileExists: string -> bool)
    modifies graph
    ensures Assessed(old(graph.Entries()), graph.Entries(), |old(graph.Entries())|, fileExists)
    ensures SameTree(old(graph.disks), graph.disks)
    ensures UniqueIds(old(graph.Entries())) ==> UniqueIds(graph.Entries())
  {
    ghost var before := graph.Entries();
    var ids := Map(graph.Entries(), IdOf);
    for n := 0 to |ids|
      invariant Assessed(before, graph.Entries(), n, fileExists)
      invariant SameTree(old(graph.disks), graph.disks)
    {
      AssessStep(before, graph.Entries(), n, fileExists);
      var entry := Find(graph.Entries(), ids[n]).value;
      var health := AssessEntry(entry, fileExists);
      AnnotateShape(graph.disks, ids[n], health);
      graph.SetHealth(ids[n], health);
    }
  }

  /** With unique ids every entry gets exactly its own verdict. */
  lemma AssessedEverywhere(before: seq<BootEntry>, after: seq<BootEntry>, fileExists: string -> bool, i: nat)
    requires UniqueIds(before) && Assessed(before, after, |before|, fileExists) && i < |before|
    ensures after[i] == before[i].(health := AssessEntry(before[i], fileExists))
    ensures Verdict(after[i], fileExists)
    ensures after[i].Bootable() <==>
            (before[i].loader.Some? ==> fileExists(before[i].loader.value))
            && (before[i].kernel.Some? ==> fileExists(before[i].kernel.value))
  {
    assert First(before, i);
    VerdictGiven(before[i], fileExists);
  }
}
