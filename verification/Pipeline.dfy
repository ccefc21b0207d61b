/** One boot: reconcile the previous marker, decide, then try candidates until one takes over. */
module Pipeline {
  import opened Basics
  import opened Ids
  import opened Graph
  import opened Journal
  import opened Store
  import opened Policy
  import opened Choices
  import Tx = Transaction
  import opened CrossBoot
  import opened PowerCut
  import opened Discovery
  import opened Descriptions
  import Utf8

  /** What the machine looked like when control was handed to a candidate. */
  datatype HandOff = HandOff(id: EntryId, marker: Option<seq<byte>>, triesLeft: byte)

  datatype Outcome = TookOver(id: EntryId) | NoBootableEntries

  type Variables = map<string, seq<byte>>

  function HandedTo(h: HandOff): EntryId { h.id }

  /** A candidate the loop really hands off: bootable in the graph and plannable. */
  predicate Eligible(es: seq<BootEntry>, hasPlan: EntryId -> bool, id: EntryId) {
    IsBootable(es, id) && hasPlan(id)
  }

  function EligibleOf(es: seq<BootEntry>, hasPlan: EntryId -> bool, candidates: seq<EntryId>): seq<EntryId> {
    Filter(candidates, id => Eligible(es, hasPlan, id))
  }

  function Budget(maxTries: byte): byte { if maxTries == 0 then 1 else maxTries }

  function ArmedValue(id: EntryId): seq<byte> { MarkerBytes(Marker(id, false)) }

  /** The store and program counter as the protocol sees them. */
  function SysOf(vars: Variables, pc: Pc): Sys {
    Sys(pc, Lookup(vars, VAR_BOOT_ATTEMPT), Lookup(vars, VAR_LAST_GOOD))
  }

  /**
   * The events are a run of the protocol between these two states of the store, and what was done in
   * between, in order, is exactly what the events stand for.
   */
  ghost predicate Follows(
    before: Variables, start: Pc, events: seq<Event>, after: Variables, end: Pc, done: seq<Record>, all: seq<Record>)
  {
    && Exec(SysOf(before, start), events) == Some(SysOf(after, end))
    && all == done + Trace(SysOf(before, start), events)
  }

  function Armings(events: seq<Event>): seq<EntryId> {
    if events == [] then []
    else Armings(events[..|events| - 1]) + match events[|events| - 1] case ArmEntry(id) => [id] case _ => []
  }

  /** The hand-offs made, and the store they left: a marker for the last of them. */
  ghost predicate Tried(log: seq<HandOff>, before: Variables, after: Variables, budget: int) {
    && (forall h :: h in log ==> h.marker == Some(ArmedValue(h.id)) && h.triesLeft == budget - 1)
    && after == if log == [] then before else before[VAR_BOOT_ATTEMPT := ArmedValue(log[|log| - 1].id)]
  }

  /** `outcomes` says of each hand-off, by its number, whether it takes over. */
  ghost predicate UpToTakeOver(log: seq<HandOff>, eligible: seq<EntryId>, outcome: Outcome, outcomes: nat -> bool) {
    && |log| <= |eligible|
    && Map(log, HandedTo) == eligible[..|log|]
    && (forall k :: 0 <= k < |log| - 1 ==> !outcomes(k))
    && match outcome
       case TookOver(id) => log != [] && log[|log| - 1].id == id && outcomes(|log| - 1)
       case NoBootableEntries => |log| == |eligible| && forall k :: 0 <= k < |log| ==> !outcomes(k)
  }

  // ---- single events ----

  lemma FollowsNothing(vars: Variables, pc: Pc, done: seq<Record>)
    ensures Follows(vars, pc, [], vars, pc, done, done)
    ensures Armings([]) == []
  {
    assert done + [] == done;
  }

  /** One more event, with the record it leaves. */
  lemma FollowsSnoc(
    before: Variables, start: Pc, events: seq<Event>, mid: Variables, at: Pc, e: Event, after: Variables, end: Pc,
    done: seq<Record>, all: seq<Record>, r: seq<Record>)
    requires Follows(before, start, events, mid, at, done, all)
    requires Fire(SysOf(mid, at), e) == Some(SysOf(after, end)) && RecordsOf(SysOf(mid, at), e) == r
    ensures Follows(before, start, events + [e], after, end, done, all + r)
    ensures Armings(events + [e]) == Armings(events) + match e case ArmEntry(id) => [id] case _ => []
  {
    hide Fire, RecordsOf, SysOf;
    ExecSnoc(SysOf(before, start), events, e);
    TraceSnoc(SysOf(before, start), events, e);
    AppendAssociative(done, Trace(SysOf(before, start), events), r);
    assert (events + [e])[..|events|] == events;
  }

  lemma {:induction false} ArmingsAppend(a: seq<Event>, b: seq<Event>)
    ensures Armings(a + b) == Armings(a) + Armings(b)
  {
    if b == [] {
      assert a + b == a;
      assert Armings(a) + [] == Armings(a);
    } else {
      var c := b[..|b| - 1];
      ArmingsAppend(a, c);
      assert (a + b)[..|a + b| - 1] == a + c;
      AppendAssociative(Armings(a), Armings(c), Armings(b)[|Armings(c)|..]);
    }
  }

  /** One run after another. */
  lemma FollowsAppend(
    before: Variables, start: Pc, a: seq<Event>, mid: Variables, at: Pc, b: seq<Event>, after: Variables, end: Pc,
    r0: seq<Record>, r1: seq<Record>, r2: seq<Record>)
    requires Follows(before, start, a, mid, at, r0, r1) && Follows(mid, at, b, after, end, r1, r2)
    ensures Follows(before, start, a + b, after, end, r0, r2)
    ensures Armings(a + b) == Armings(a) + Armings(b)
  {
    hide SysOf, Exec, Trace;
    TraceAppend(SysOf(before, start), a, b);
    ExecAppend(SysOf(before, start), a, b);
    AppendAssociative(r0, Trace(SysOf(before, start), a), Trace(SysOf(mid, at), b));
    ArmingsAppend(a, b);
  }

  lemma FireRecord(vars: Variables, m: Marker)
    requires m.confirmed
    ensures Fire(SysOf(vars, Booting(Some(m))), RecordGood) ==
            Some(SysOf(vars[VAR_LAST_GOOD := IdBytes(m.entry)], Recorded))
    ensures RecordsOf(SysOf(vars, Booting(Some(m))), RecordGood) == [Wrote(Vendor, VAR_LAST_GOOD, IdBytes(m.entry))]
  {
  }

  lemma FireClear(vars: Variables, pc: Pc)
    requires pc.Recorded? || (pc.Booting? && pc.pending.Some? && !pc.pending.value.confirmed)
    ensures Fire(SysOf(vars, pc), ClearMarker) == Some(SysOf(vars - {VAR_BOOT_ATTEMPT}, Ready))
    ensures RecordsOf(SysOf(vars, pc), ClearMarker) == [Deleted(Vendor, VAR_BOOT_ATTEMPT)]
  {
  }

  lemma FireQuietly(vars: Variables, before: Pc)
    ensures Fire(SysOf(vars, before), PowerOn) == Some(SysOf(vars, Booting(ReadMarker(Lookup(vars, VAR_BOOT_ATTEMPT)))))
    ensures RecordsOf(SysOf(vars, before), PowerOn) == []
    ensures Fire(SysOf(vars, Booting(None)), NoPending) == Some(SysOf(vars, Ready))
    ensures RecordsOf(SysOf(vars, Booting(None)), NoPending) == []
    ensures Fire(SysOf(vars, Ready), GiveUp) == Some(SysOf(vars, Running))
    ensures RecordsOf(SysOf(vars, Ready), GiveUp) == []
  {
  }

  lemma FireAttempt(vars: Variables, id: EntryId)
    ensures Fire(SysOf(vars, Ready), ChargeEntry(id)) == Some(SysOf(vars, Pc.Charged(id)))
    ensures RecordsOf(SysOf(vars, Ready), ChargeEntry(id)) == [Record.Charged(id)]
    ensures Fire(SysOf(vars, Pc.Charged(id)), ArmEntry(id)) ==
            Some(SysOf(vars[VAR_BOOT_ATTEMPT := ArmedValue(id)], Armed(id)))
    ensures RecordsOf(SysOf(vars, Pc.Charged(id)), ArmEntry(id)) == [Wrote(Vendor, VAR_BOOT_ATTEMPT, ArmedValue(id))]
    ensures Fire(SysOf(vars, Armed(id)), TakeOver) == Some(SysOf(vars, Running))
    ensures RecordsOf(SysOf(vars, Armed(id)), TakeOver) == [HandedOver(id, true)]
    ensures Fire(SysOf(vars, Armed(id)), HandOffFailed) == Some(SysOf(vars, Ready))
    ensures RecordsOf(SysOf(vars, Armed(id)), HandOffFailed) == [HandedOver(id, false)]
  {
  }

  // ---- the attempt loop ----

  /** A new transaction takes a bootable candidate to launched, and refuses any other at `select`. */
  lemma DrivenToLaunch(es: seq<BootEntry>, s: Tx.TxState, id: EntryId)
    requires Tx.Fresh(s) && s.tries == map[]
    ensures Tx.Step(es, s, Tx.Select(id)).Ok? <==> IsBootable(es, id)
    ensures IsBootable(es, id) ==>
              var s1 := Tx.Step(es, s, Tx.Select(id)).value.next;
              && Tx.Step(es, s1, Tx.Validate).Ok?
              && var s2 := Tx.Step(es, s1, Tx.Validate).value.next;
              && Tx.Step(es, s2, Tx.Stage).Ok?
              && Tx.Step(es, s2, Tx.Stage).value.effect == Some(Tx.ChargeAttempt(id))
              && var s3 := Tx.Step(es, s2, Tx.Stage).value.next;
              && Tx.Step(es, s3, Tx.Launch).Ok?
              && Tx.TriesLeft(Tx.Step(es, s3, Tx.Launch).value.next, id) == s.maxTries - 1
  {
  }

  /** What preparing a hand-off does, in this order: the charge, then the marker. */
  function Prepared(id: EntryId): seq<Record> {
    [Record.Charged(id)] + [Wrote(Vendor, VAR_BOOT_ATTEMPT, ArmedValue(id))]
  }

  /**
   * Drive one candidate through the transaction up to the hand-off: `select` and `validate`, charge,
   * arm the marker, launch. The budgets start from the defaults in every attempt.
   */
  method PrepareHandOff(vars: VarStore, graph: BootGraph, candidate: EntryId, maxTries: byte, lastGood: Option<EntryId>)
    returns (handOff: Option<HandOff>)
    modifies vars, vars.journal
    ensures vars.globals == old(vars.globals)
    ensures handOff.Some? <==> IsBootable(graph.Entries(), candidate)
    ensures handOff.None? ==> vars.vendor == old(vars.vendor) && vars.journal.records == old(vars.journal.records)
    ensures handOff.Some? ==>
              && vars.vendor == old(vars.vendor)[VAR_BOOT_ATTEMPT := ArmedValue(candidate)]
              && handOff.value == HandOff(candidate, Some(ArmedValue(candidate)), Budget(maxTries) - 1)
              && vars.journal.records == old(vars.journal.records) + Prepared(candidate)
  {
    hide MarkerBytes, IsBootable, Tx.Step;
    ghost var done := vars.journal.records;
    var tries: map<EntryId, byte> := map[];
    var tx := new Tx.Transaction(maxTries, tries, lastGood);
    DrivenToLaunch(graph.Entries(), tx.Value(), candidate);
    var selected := tx.Select(graph, candidate);
    if selected.Err? { return None; }
    var validated := tx.Validate(graph);
    if validated.Err? { return None; }
    var staged := tx.Stage(graph.Entries(), vars.journal);
    if staged.Ok? {
      Arm(vars, staged.value.id);
    }
    AppendAssociative(done, [Record.Charged(candidate)], [Wrote(Vendor, VAR_BOOT_ATTEMPT, ArmedValue(candidate))]);
    var launched := tx.Launch(graph.Entries());
    assert launched.Ok?;
    handOff := Some(HandOff(candidate, Lookup(vars.vendor, VAR_BOOT_ATTEMPT), Tx.TriesLeft(tx.Value(), candidate)));
  }

  /** Control leaves the boot manager. It comes back only when the hand-off fails. */
  method Launch(id: EntryId, takesOver: bool, ghost journal: Journal) returns (took: bool)
    modifies journal
    ensures took == takesOver && journal.records == old(journal.records) + [HandedOver(id, takesOver)]
  {
    journal.Add(HandedOver(id, takesOver));
    took := takesOver;
  }

  /** One turn of the loop: skip the candidate without a trace, or charge, arm and hand off. */
  method AttemptOne(
    vars: VarStore, graph: BootGraph, candidate: EntryId, maxTries: byte, lastGood: Option<EntryId>,
    hasPlan: EntryId -> bool, takesOver: bool)
    returns (tried: Option<HandOff>, took: bool, events: seq<Event>)
    modifies vars, vars.journal
    ensures vars.globals == old(vars.globals)
    ensures tried.Some? <==> Eligible(graph.Entries(), hasPlan, candidate)
    ensures tried.Some? ==> hasPlan(candidate)
    ensures took <==> tried.Some? && takesOver
    ensures tried.None? ==> vars.vendor == old(vars.vendor)
    ensures tried.Some? ==>
              && vars.vendor == old(vars.vendor)[VAR_BOOT_ATTEMPT := ArmedValue(candidate)]
              && tried.value == HandOff(candidate, Some(ArmedValue(candidate)), Budget(maxTries) - 1)
    ensures Follows(old(vars.vendor), Ready, events, vars.vendor, if took then Running else Ready,
                    old(vars.journal.records), vars.journal.records)
    ensures Armings(events) == if tried.Some? then [candidate] else []
  {
    hide Exec, Trace, Follows, Fire, RecordsOf, SysOf, Armings, MarkerBytes, IsBootable;
    ghost var before, done := vars.vendor, vars.journal.records;
    tried, took, events := None, false, [];
    FollowsNothing(before, Ready, done);
    if !hasPlan(candidate) { return; }
    tried := PrepareHandOff(vars, graph, candidate, maxTries, lastGood);
    if tried.None? { return; }
    ghost var armed := vars.vendor;
    ghost var charge, arming := [Record.Charged(candidate)], [Wrote(Vendor, VAR_BOOT_ATTEMPT, ArmedValue(candidate))];
    FireAttempt(before, candidate);
    FireAttempt(armed, candidate);
    FollowsSnoc(before, Ready, [], before, Ready, ChargeEntry(candidate), before, Pc.Charged(candidate), done, done,
        charge);
    events := [] + [ChargeEntry(candidate)];
    FollowsSnoc(before, Ready, events, before, Pc.Charged(candidate), ArmEntry(candidate), armed, Armed(candidate),
                done, done + charge, arming);
    events := events + [ArmEntry(candidate)];
    AppendAssociative(done, charge, arming);
    took := Launch(candidate, takesOver, vars.journal);
    var last := if took then TakeOver else HandOffFailed;
    FollowsSnoc(before, Ready, events, armed, Armed(candidate), last, armed, if took then Running else Ready,
                done, done + charge + arming, [HandedOver(candidate, took)]);
    events := events + [last];
    assert [] + [candidate] + [] == [candidate];
  }

  /**
   * The hand-offs are the eligible candidates, in order, up to the first that takes over; the error is
   * returned only when every one of them failed. What is done in between is a run of the protocol.
   */
  method AttemptCandidates(
    vars: VarStore, graph: BootGraph, candidates: seq<EntryId>, maxTries: byte, lastGood: Option<EntryId>,
    hasPlan: EntryId -> bool, outcomes: nat -> bool)
    returns (outcome: Outcome, log: seq<HandOff>, events: seq<Event>)
    modifies vars, vars.journal
    ensures vars.globals == old(vars.globals)
    ensures Tried(log, old(vars.vendor), vars.vendor, Budget(maxTries))
    ensures UpToTakeOver(log, EligibleOf(graph.Entries(), hasPlan, candidates), outcome, outcomes)
    ensures Follows(old(vars.vendor), Ready, events, vars.vendor, Running, old(vars.journal.records),
            vars.journal.records)
    ensures Armings(events) == Map(log, HandedTo)
  {
    hide *;
    ghost var es := graph.Entries();
    ghost var start, done := vars.vendor, vars.journal.records;
    log, events := [], [];
    NothingTried(es, hasPlan, outcomes, start, Budget(maxTries));
    FollowsNothing(start, Ready, done);
    assert candidates[..0] == [];
    for i := 0 to |candidates|
      invariant vars.globals == old(vars.globals)
      invariant Tried(log, start, vars.vendor, Budget(maxTries))
      invariant AllFailed(log, EligibleOf(es, hasPlan, candidates[..i]), outcomes)
      invariant Follows(start, Ready, events, vars.vendor, Ready, done, vars.journal.records)
      invariant Armings(events) == Map(log, HandedTo)
    {
      ghost var before, records := vars.vendor, vars.journal.records;
      var tried, took, more := AttemptOne(vars, graph, candidates[i], maxTries, lastGood, hasPlan, outcomes(|log|));
      FollowsAppend(start, Ready, events, before, Ready, more, vars.vendor, if took then Running else Ready,
                    done, records, vars.journal.records);
      events := events + more;
      EligibleNext(es, hasPlan, candidates, i);
      if tried.Some? {
        TriedNext(log, tried.value, start, before, vars.vendor, Budget(maxTries));
        LogNext(log, tried.value, EligibleOf(es, hasPlan, candidates[..i]), outcomes);
        log := log + [tried.value];
      } else {
        assert EligibleOf(es, hasPlan, candidates[..i]) + [] == EligibleOf(es, hasPlan, candidates[..i]);
        assert Map(log, HandedTo) + [] == Map(log, HandedTo);
      }
      if took {
        outcome := TookOver(candidates[i]);
        return;
      }
    }
    assert candidates[..|candidates|] == candidates;
    AllTried(log, EligibleOf(es, hasPlan, candidates), outcomes);
    FireQuietly(vars.vendor, Ready);
    FollowsSnoc(start, Ready, events, vars.vendor, Ready, GiveUp, vars.vendor, Running, done, vars.journal.records, []);
    assert vars.journal.records + [] == vars.journal.records;
    assert Map(log, HandedTo) + [] == Map(log, HandedTo);
    events := events + [GiveUp];
    outcome := NoBootableEntries;
  }

  lemma NothingTried(
    es: seq<BootEntry>, hasPlan: EntryId -> bool, outcomes: nat -> bool, start: Variables, budget: int)
    ensures Tried([], start, start, budget)
    ensures AllFailed([], EligibleOf(es, hasPlan, []), outcomes)
    ensures Map([], HandedTo) == []
  {
  }

  /** Every eligible candidate so far was handed control and gave it back. */
  ghost predicate AllFailed(log: seq<HandOff>, eligible: seq<EntryId>, outcomes: nat -> bool) {
    Map(log, HandedTo) == eligible && forall k :: 0 <= k < |log| ==> !outcomes(k)
  }

  lemma AllTried(log: seq<HandOff>, eligible: seq<EntryId>, outcomes: nat -> bool)
    requires AllFailed(log, eligible, outcomes)
    ensures UpToTakeOver(log, eligible, NoBootableEntries, outcomes)
  {
    assert eligible[..|log|] == eligible;
  }

  lemma LogNext(log: seq<HandOff>, h: HandOff, eligible: seq<EntryId>, outcomes: nat -> bool)
    requires AllFailed(log, eligible, outcomes)
    ensures Map(log + [h], HandedTo) == Map(log, HandedTo) + [h.id]
    ensures !outcomes(|log|) ==> AllFailed(log + [h], eligible + [h.id], outcomes)
    ensures outcomes(|log|) ==> forall rest: seq<EntryId> ::
              UpToTakeOver(log + [h], eligible + [h.id] + rest, TookOver(h.id), outcomes)
  {
    var next := log + [h];
    assert Map(next, HandedTo) == eligible + [h.id];
    forall rest: seq<EntryId> | outcomes(|log|)
      ensures UpToTakeOver(next, eligible + [h.id] + rest, TookOver(h.id), outcomes)
    {
      assert (eligible + [h.id] + rest)[..|next|] == eligible + [h.id];
    }
  }

  lemma TriedNext(log: seq<HandOff>, h: HandOff, start: Variables, before: Variables, after: Variables, budget: int)
    requires Tried(log, start, before, budget)
    requires after == before[VAR_BOOT_ATTEMPT := ArmedValue(h.id)]
    requires h.marker == Some(ArmedValue(h.id)) && h.triesLeft == budget - 1
    ensures Tried(log + [h], start, after, budget)
  {
    assert after == start[VAR_BOOT_ATTEMPT := ArmedValue(h.id)];
  }

  lemma EligibleNext(es: seq<BootEntry>, hasPlan: EntryId -> bool, candidates: seq<EntryId>, i: nat)
    requires i < |candidates|
    ensures EligibleOf(es, hasPlan, candidates[..i + 1]) == EligibleOf(es, hasPlan, candidates[..i])
              + if Eligible(es, hasPlan, candidates[i]) then [candidates[i]] else []
    ensures EligibleOf(es, hasPlan, candidates) ==
            EligibleOf(es, hasPlan, candidates[..i + 1]) + EligibleOf(es, hasPlan, candidates[i + 1..])
  {
    FilterNext(candidates, i, id => Eligible(es, hasPlan, id));
    FilterPrefix(candidates, i + 1, id => Eligible(es, hasPlan, id));
  }

  /** With unique ids no entry is handed control twice in one boot. */
  lemma HandOffsDistinct(es: seq<BootEntry>, hasPlan: EntryId -> bool, chosen: EntryId, n: nat)
    requires UniqueIds(es)
    requires n <= |EligibleOf(es, hasPlan, AttemptOrder(es, chosen))|
    ensures Distinct(EligibleOf(es, hasPlan, AttemptOrder(es, chosen))[..n])
    ensures forall id :: Eligible(es, hasPlan, id) <==> id in EligibleOf(es, hasPlan, AttemptOrder(es, chosen))
  {
    AttemptOrderComplete(es, chosen);
    FilterDistinct(AttemptOrder(es, chosen), id => Eligible(es, hasPlan, id));
    FilterMembers(AttemptOrder(es, chosen), id => Eligible(es, hasPlan, id));
  }

  /** Among these ids no degraded entry stands before a healthy one. */
  ghost predicate HealthyFirst(es: seq<BootEntry>, ids: seq<EntryId>) {
    forall i, j :: 0 <= i < j < |ids| && HealthyId(es, ids[j]) ==> HealthyId(es, ids[i])
  }

  predicate HealthyId(es: seq<BootEntry>, id: EntryId) { Find(es, id).Some? && Find(es, id).value.health.Healthy? }

  lemma {:induction false} FilterHealthyFirst(es: seq<BootEntry>, ids: seq<EntryId>, p: EntryId -> bool)
    requires HealthyFirst(es, ids)
    ensures HealthyFirst(es, Filter(ids, p))
  {
    hide HealthyId;
    if ids == [] {
    } else {
      var rest, kept := ids[1..], Filter(ids[1..], p);
      FilterHealthyFirst(es, rest, p);
      FilterMembers(rest, p);
      forall j | 0 <= j < |kept| && HealthyId(es, kept[j]) ensures HealthyId(es, ids[0]) {
        assert kept[j] in rest;
        var k :| 0 <= k < |rest| && rest[k] == kept[j];
        assert ids[k + 1] == kept[j];
      }
      assert forall j :: 0 < j < |[ids[0]] + kept| ==> ([ids[0]] + kept)[j] == kept[j - 1];
    }
  }

  lemma RankedHealthyFirst(es: seq<BootEntry>)
    requires UniqueIds(es)
    ensures HealthyFirst(es, RankedCandidates(es))
  {
    RankedExactly(es);
    FilterMembers(es, IsHealthy);
    FilterMembers(es, IsDegraded);
    var h, d := Filter(es, IsHealthy), Filter(es, IsDegraded);
    var ranked: seq<BootEntry> := h + d;
    hide Filter, RankedEntries;
    forall i | 0 <= i < |ranked| ensures HealthyId(es, ranked[i].id) <==> i < |h| {
      var e := ranked[i];
      assert i < |h| ==> e == h[i] && e in h;
      assert i >= |h| ==> e == d[i - |h|] && e in d;
      var k :| 0 <= k < |es| && es[k] == e;
      FirstFound(es, k);
    }
    assert forall i :: 0 <= i < |ranked| ==> RankedCandidates(es)[i] == ranked[i].id;
  }

  /** The entry that was chosen, when it can be launched, and behind it the others that can, the healthy ones first. */
  lemma EligibleOrder(es: seq<BootEntry>, hasPlan: EntryId -> bool, chosen: EntryId) returns (rest: seq<EntryId>)
    requires UniqueIds(es)
    ensures HealthyFirst(es, rest)
    ensures EligibleOf(es, hasPlan, AttemptOrder(es, chosen)) ==
            (if Eligible(es, hasPlan, chosen) then [chosen] else []) + rest
  {
    var ranked := RankedCandidates(es);
    RankedHealthyFirst(es);
    hide HealthyFirst, RankedCandidates, Filter, Eligible;
    FilterHealthyFirst(es, ranked, id => id != chosen);
    var others := Others(ranked, chosen);
    FilterHealthyFirst(es, others, id => Eligible(es, hasPlan, id));
    rest := EligibleOf(es, hasPlan, others);
    FilterCons(chosen, others, id => Eligible(es, hasPlan, id));
    assert [] + rest == rest;
  }

  /**
   * The order in which control is handed over: to the entry that was chosen, when it can be launched at all, and then
   * to no degraded entry before a healthy one.
   */
  lemma HandOffOrder(
    es: seq<BootEntry>, hasPlan: EntryId -> bool, chosen: EntryId, log: seq<HandOff>, outcome: Outcome,
    outcomes: nat -> bool)
    requires UniqueIds(es)
    requires UpToTakeOver(log, EligibleOf(es, hasPlan, AttemptOrder(es, chosen)), outcome, outcomes)
    ensures Eligible(es, hasPlan, chosen) ==> log != [] && log[0].id == chosen
    ensures forall i, j :: 0 <= i < j < |log| && log[i].id != chosen ==>
              HealthyId(es, log[j].id) ==> HealthyId(es, log[i].id)
  {
    var rest := EligibleOrder(es, hasPlan, chosen);
    var eligible := EligibleOf(es, hasPlan, AttemptOrder(es, chosen));
    LogIsPrefix(log, eligible, outcome, outcomes);
    hide EligibleOf, AttemptOrder, Eligible, HealthyId, UpToTakeOver, HealthyFirst;
    ChosenThenHealthy(es, chosen, Eligible(es, hasPlan, chosen), rest);
  }

  lemma ChosenThenHealthy(es: seq<BootEntry>, chosen: EntryId, front: bool, rest: seq<EntryId>)
    requires HealthyFirst(es, rest)
    ensures var ids := (if front then [chosen] else []) + rest;
            forall i, j :: 0 <= i < j < |ids| && ids[i] != chosen ==> HealthyId(es, ids[j]) ==> HealthyId(es, ids[i])
  {
    hide HealthyId;
    var ids, n := (if front then [chosen] else []) + rest, if front then 1 else 0;
    assert forall i :: n <= i < |ids| ==> ids[i] == rest[i - n];
  }

  lemma LogIsPrefix(log: seq<HandOff>, eligible: seq<EntryId>, outcome: Outcome, outcomes: nat -> bool)
    requires UpToTakeOver(log, eligible, outcome, outcomes)
    ensures |log| <= |eligible| && forall i :: 0 <= i < |log| ==> log[i].id == eligible[i]
    ensures eligible != [] ==> log != []
  {
    assert forall i :: 0 <= i < |log| ==> Map(log, HandedTo)[i] == eligible[i];
  }

  // ---- the previous boot ----

  function Reconciled(vars: Variables, pending: Option<Marker>): Variables {
    match pending
    case None => vars
    case Some(m) => (if m.confirmed then vars[VAR_LAST_GOOD := IdBytes(m.entry)] else vars) - {VAR_BOOT_ATTEMPT}
  }

  /** Commit a confirmed marker, drop an unconfirmed one. */
  method ReconcilePreviousBoot(vars: VarStore, pending: Option<Marker>) returns (events: seq<Event>)
    modifies vars, vars.journal
    ensures vars.globals == old(vars.globals)
    ensures vars.vendor == Reconciled(old(vars.vendor), pending)
    ensures Follows(old(vars.vendor), Booting(pending), events, vars.vendor, Ready,
                    old(vars.journal.records), vars.journal.records)
    ensures Armings(events) == []
  {
    hide Exec, Trace, Follows, Fire, RecordsOf, SysOf, Armings, IdBytes;
    ghost var before, done := vars.vendor, vars.journal.records;
    ghost var pc := Booting(pending);
    events := [];
    FollowsNothing(before, pc, done);
    if pending.Some? {
      if pending.value.confirmed {
        FireRecord(vars.vendor, pending.value);
        ghost var wrote := [Wrote(Vendor, VAR_LAST_GOOD, IdBytes(pending.value.entry))];
        SetLastGood(vars, pending.value.entry);
        FollowsSnoc(before, Booting(pending), [], before, Booting(pending), RecordGood, vars.vendor, Recorded, done,
            done, wrote);
        events := events + [RecordGood];
        pc := Recorded;
      }
      ghost var mid, records := vars.vendor, vars.journal.records;
      FireClear(mid, pc);
      Clear(vars);
      FollowsSnoc(before, Booting(pending), events, mid, pc, ClearMarker, vars.vendor, Ready, done, records,
                  [Deleted(Vendor, VAR_BOOT_ATTEMPT)]);
      events := events + [ClearMarker];
    } else {
      FireQuietly(before, Running);
      FollowsSnoc(before, Booting(None), [], before, Booting(None), NoPending, before, Ready, done, done, []);
      assert done + [] == done;
      events := events + [NoPending];
    }
  }

  /** The decision's inputs, as the store holds them. */
  function HistoryOf(vars: Variables, configuredDefault: Option<EntryId>): History {
    var readable := ReadId(Lookup(vars, VAR_LAST_GOOD));
    History(configuredDefault, if readable.Ok? then readable.value else None, None)
  }

  /** What the decision is given is what the store holds and the configuration says. */
  lemma HistoryRight(
    es: seq<BootEntry>, store: Variables, configuredDefault: Option<EntryId>, strategy: Strategy,
    decision: Option<Decision>)
    requires Decided(es, HistoryOf(store, configuredDefault), strategy, decision)
    ensures RightChoice(es, store, configuredDefault, strategy, decision)
  {
    var history := HistoryOf(store, configuredDefault);
    forall id ensures LastGoodIs(store, id) <==> history.lastGood == Some(id) { LastGoodRead(store, id); }
    hide Decided, RightChoice, LastGoodIs;
    DecidedRight(es, store, history, strategy, decision);
  }

  /** An entry that was blessed is the default of the next boot, as long as it is bootable. */
  lemma BlessedPreferred(
    es: seq<BootEntry>, before: Variables, m: Marker, configuredDefault: Option<EntryId>, decision: Option<Decision>)
    requires m.confirmed && IsBootable(es, m.entry)
    requires Decided(es, HistoryOf(Reconciled(before, Some(m)), configuredDefault), LastGoodThenDefault, decision)
    ensures decision == Some(Decision(m.entry, LastGood))
  {
    IdRoundTrip(m.entry);
    assert Lookup(Reconciled(before, Some(m)), VAR_LAST_GOOD) == Some(IdBytes(m.entry));
  }

  /** The store a boot decides on. */
  function ReadyStore(vars: Variables): Variables { Reconciled(vars, ReadMarker(Lookup(vars, VAR_BOOT_ATTEMPT))) }

  /**
   * The store a boot decides on, from the marker's very bytes: a confirmed marker moves into the last-good variable,
   * any other readable one is dropped, an unreadable one is left, and nothing else changes.
   */
  lemma ReadyExactly(vars: Variables)
    ensures forall flag, text :: "BootAttempt" in vars && SaysMarker(vars["BootAttempt"], flag, text) ==>
              ReadyStore(vars) ==
              (if flag == "1" then vars["LastGood" := Utf8.Encode(text)] else vars) - {"BootAttempt"}
    ensures ("BootAttempt" in vars ==> forall flag, text :: !SaysMarker(vars["BootAttempt"], flag, text)) ==>
              ReadyStore(vars) == vars
  {
    hide SaysMarker, DecodeMarker, Utf8.Encode;
    if "BootAttempt" in vars {
      var bytes := vars["BootAttempt"];
      forall flag, text | SaysMarker(bytes, flag, text)
        ensures DecodeMarker(bytes) == Ok(Marker(EntryId(text), flag == "1"))
      {
        MarkerSaid(bytes, flag, text);
      }
      if DecodeMarker(bytes).Ok? { var flag, text := MarkerReadable(bytes); }
    }
  }

  lemma DecidedOnce(
    es: seq<BootEntry>, history: History, strategy: Strategy, a: Option<Decision>, b: Option<Decision>)
    requires Decided(es, history, strategy, a) && Decided(es, history, strategy, b)
    ensures a == b
  {
    hide RankedCandidates, IsBootable;
  }

  predicate NotConfirmed(vars: Variables) {
    var pending := ReadMarker(Lookup(vars, VAR_BOOT_ATTEMPT));
    pending.Some? ==> !pending.value.confirmed
  }

  /** What a boot leaves is unconfirmed until something blesses it. */
  lemma LeftUnconfirmed(log: seq<HandOff>, vars: Variables, after: Variables, budget: int)
    requires Tried(log, ReadyStore(vars), after, budget)
    ensures NotConfirmed(after) && Lookup(after, VAR_LAST_GOOD) == Lookup(ReadyStore(vars), VAR_LAST_GOOD)
  {
    if log == [] {
    } else {
      MarkerRoundTrip(Marker(log[|log| - 1].id, false));
    }
  }

  lemma UnconfirmedIgnored(vars: Variables)
    requires NotConfirmed(vars)
    ensures Lookup(ReadyStore(vars), VAR_LAST_GOOD) == Lookup(vars, VAR_LAST_GOOD)
  {
  }

  /** Boots in a row over one graph, each deciding on what the one before it left, none of them blessed. */
  ghost predicate Unblessed(
    es: seq<BootEntry>, configuredDefault: Option<EntryId>, strategy: Strategy, budget: int,
    stores: seq<Variables>, logs: seq<seq<HandOff>>, decisions: seq<Option<Decision>>)
  {
    && |stores| == |logs| + 1 && |decisions| == |logs|
    && forall i :: 0 <= i < |logs| ==>
         && Tried(logs[i], ReadyStore(stores[i]), stores[i + 1], budget)
         && Decided(es, HistoryOf(ReadyStore(stores[i]), configuredDefault), strategy, decisions[i])
  }

  /**
   * However many boots in a row fail to be blessed, each decides as the first did: a failed boot never makes the
   * next one roll back.
   */
  lemma {:induction false} UnblessedRepeats(
    es: seq<BootEntry>, configuredDefault: Option<EntryId>, strategy: Strategy, budget: int,
    stores: seq<Variables>, logs: seq<seq<HandOff>>, decisions: seq<Option<Decision>>, n: nat)
    requires Unblessed(es, configuredDefault, strategy, budget, stores, logs, decisions) && n < |logs|
    ensures Lookup(ReadyStore(stores[n]), VAR_LAST_GOOD) == Lookup(ReadyStore(stores[0]), VAR_LAST_GOOD)
    ensures decisions[n] == decisions[0]
  {
    hide Tried, Decided, ReadyStore;
    if n == 0 {
    } else {
      UnblessedRepeats(es, configuredDefault, strategy, budget, stores, logs, decisions, n - 1);
      assert Tried(logs[n - 1], ReadyStore(stores[n - 1]), stores[n - 1 + 1], budget);
      LeftUnconfirmed(logs[n - 1], stores[n - 1], stores[n], budget);
      UnconfirmedIgnored(stores[n]);
    }
    DecidedOnce(es, HistoryOf(ReadyStore(stores[0]), configuredDefault), strategy, decisions[n], decisions[0]);
  }

  // ---- a whole boot ----

  /**
   * A boot over one graph. Whatever state the machine was in, what it does is a run of the cross-boot
   * protocol, action by action, so that protocol's guarantees hold of any number of boots. `present`
   * stands for the menu.
   */
  method Boot(
    vars: VarStore, graph: BootGraph, strategy: Strategy, configuredDefault: Option<EntryId>,
    present: Option<Decision> -> Option<EntryId>, maxTries: byte, hasPlan: EntryId -> bool, outcomes: nat -> bool,
    ghost before: Pc)
    returns (outcome: Outcome, log: seq<HandOff>, decision: Option<Decision>, events: seq<Event>)
    modifies vars, vars.journal
    ensures vars.globals == old(vars.globals)
    ensures Follows(old(vars.vendor), before, events, vars.vendor, Running, old(vars.journal.records),
            vars.journal.records)
    ensures Armings(events) == Map(log, HandedTo)
    ensures var ready := ReadyStore(old(vars.vendor));
            && Decided(graph.Entries(), HistoryOf(ready, configuredDefault), strategy, decision)
            && RightChoice(graph.Entries(), ready, configuredDefault, strategy, decision)
            && Tried(log, ready, vars.vendor, Budget(maxTries))
    ensures var chosen := present(decision);
            UpToTakeOver(
              log,
              if chosen.None? then []
              else EligibleOf(graph.Entries(), hasPlan, AttemptOrder(graph.Entries(), chosen.value)),
              outcome, outcomes)
  {
    hide Exec, Trace, Follows, Fire, RecordsOf, SysOf, Armings, EligibleOf, AttemptOrder, Decided, Reconciled;
    hide ReadMarker, RightChoice, HistoryOf;
    ghost var start, done := vars.vendor, vars.journal.records;
    var pending := ReadMarker(Lookup(vars.vendor, VAR_BOOT_ATTEMPT));
    FollowsNothing(start, before, done);
    FireQuietly(start, before);
    FollowsSnoc(start, before, [], start, before, PowerOn, start, Booting(pending), done, done, []);
    events := [] + [PowerOn];
    assert done + [] == done;
    var reconciled := ReconcilePreviousBoot(vars, pending);
    ghost var ready, records := vars.vendor, vars.journal.records;
    FollowsAppend(start, before, events, start, Booting(pending), reconciled, ready, Ready, done, done, records);
    events := events + reconciled;
    assert Armings(events) == [];
    var history := HistoryOf(vars.vendor, configuredDefault);
    decision := Decide(graph, history, strategy);
    HistoryRight(graph.Entries(), ready, configuredDefault, strategy, decision);
    var chosen := present(decision);
    if chosen.None? {
      FireQuietly(ready, Ready);
      FollowsSnoc(start, before, events, ready, Ready, GiveUp, ready, Running, done, records, []);
      assert records + [] == records;
      return NoBootableEntries, [], decision, events + [GiveUp];
    }
    var candidates := BuildCandidates(graph, chosen.value);
    var attempts: seq<Event>;
    outcome, log, attempts := AttemptCandidates(vars, graph, candidates, maxTries, history.lastGood, hasPlan, outcomes);
    FollowsAppend(start, before, events, ready, Ready, attempts, vars.vendor, Running, done, records,
        vars.journal.records);
    events := events + attempts;
    assert [] + Armings(attempts) == Armings(attempts);
  }

  /**
   * A boot cut short after any number of its records, in any life of the machine so far: the store is one the
   * protocol reaches, its last-good variable is still earned, and the machine can be powered on again.
   */
  lemma BootCutSafe(
    s0: Sys, past: seq<Event>, before: Variables, start: Pc, events: seq<Event>, after: Variables, end: Pc,
    done: seq<Record>, all: seq<Record>, m: nat) returns (n: nat)
    requires s0.pc == Running && Exec(s0, past) == Some(SysOf(before, start))
    requires Follows(before, start, events, after, end, done, all) && |done| <= m <= |all|
    ensures n <= |events| && Exec(s0, past + events[..n]).Some?
    ensures var cut := Replay(before, all[|done|..m]);
            Shows(Exec(s0, past + events[..n]).value, cut) && LastGoodEarned(s0, past + events[..n], cut)
    ensures Exec(s0, past + events[..n] + [PowerOn]).Some?
  {
    var records := Trace(SysOf(before, start), events);
    assert all[|done|..m] == records[..m - |done|];
    assert Exec(SysOf(before, start), events).Some?;
    hide Follows, Exec, Trace, SysOf, Replay, Shows, LastGoodEarned;
    n := PowerCutSafe(s0, past, before, events, m - |done|);
  }

  /** The entry is what its descriptions say, with the verdict its files deserve. */
  ghost predicate FromDiscovery(raw: seq<RawEntry>, fileExists: string -> bool, e: BootEntry) {
    Describe(DescriptionsOf(raw, e.id), e.(health := Unknown)) && Verdict(e, fileExists)
  }

  lemma AssessedFromDiscovery(
    raw: seq<RawEntry>, assessed: seq<BootEntry>, fileExists: string -> bool, e: BootEntry)
    requires forall r :: r in raw ==> Taggable(r)
    requires Assessed(SystemEntries(SystemsOf(raw)), assessed, |assessed|, fileExists) && e in assessed
    ensures FromDiscovery(raw, fileExists, e)
  {
    var before := SystemEntries(SystemsOf(raw));
    var i :| 0 <= i < |assessed| && assessed[i] == e;
    GraphUnique(raw);
    AssessedEverywhere(before, assessed, fileExists, i);
    hide SystemsOf, SystemEntries, Describe, Verdict, AssessEntry, Assessed;
    GraphDescribed(raw, before[i]);
    assert before[i].health == Unknown by { DescribedUnknown(DescriptionsOf(raw, before[i].id), before[i]); }
    assert e.(health := Unknown) == before[i];
  }

  lemma DescribedUnknown(g: seq<RawEntry>, e: BootEntry)
    requires Describe(g, e)
    ensures e.health == Unknown
  {
  }

  /** The entries the health check and the menu see, once the boot manager's own loader is dropped. */
  method PrepareGraph(raw: seq<RawEntry>, fileExists: string -> bool, isSelf: BootEntry -> bool)
    returns (graph: BootGraph)
    requires forall r :: r in raw ==> Taggable(r)
    ensures fresh(graph) && UniqueIds(graph.Entries())
    ensures exists assessed ::
              && Assessed(SystemEntries(SystemsOf(raw)), assessed, |assessed|, fileExists)
              && graph.Entries() == Filter(assessed, e => !isSelf(e))
    ensures forall e :: e in graph.Entries() ==> !isSelf(e) && FromDiscovery(raw, fileExists, e)
  {
    graph := BuildGraph(raw);
    GraphUnique(raw);
    AssessAll(graph, fileExists);
    ghost var assessed := graph.Entries();
    graph.RetainEntries(e => !isSelf(e));
    assert graph.Entries() == Filter(assessed, e => !isSelf(e));
    FilterMembers(assessed, e => !isSelf(e));
    forall e | e in assessed ensures FromDiscovery(raw, fileExists, e) {
      AssessedFromDiscovery(raw, assessed, fileExists, e);
    }
  }

  /**
   * Discovery, health, self-exclusion and one boot. No entry is handed control twice, and when a choice was
   * made the error is returned only after every bootable entry with a launch plan was handed control.
   */
  method Run(
    vars: VarStore, raw: seq<RawEntry>, fileExists: string -> bool, isSelf: BootEntry -> bool,
    strategy: Strategy, configuredDefault: Option<EntryId>, present: Option<Decision> -> Option<EntryId>,
    maxTries: byte, hasPlan: EntryId -> bool, outcomes: nat -> bool, ghost before: Pc)
    returns (graph: BootGraph, outcome: Outcome, log: seq<HandOff>, decision: Option<Decision>, events: seq<Event>)
    requires forall r :: r in raw ==> Taggable(r)
    modifies vars, vars.journal
    ensures fresh(graph) && UniqueIds(graph.Entries())
    ensures forall e :: e in graph.Entries() ==> !isSelf(e) && FromDiscovery(raw, fileExists, e)
    ensures Follows(old(vars.vendor), before, events, vars.vendor, Running, old(vars.journal.records),
            vars.journal.records)
    ensures Armings(events) == Map(log, HandedTo) && Distinct(Map(log, HandedTo))
    ensures RightChoice(graph.Entries(), ReadyStore(old(vars.vendor)), configuredDefault, strategy, decision)
    ensures forall h :: h in log ==> Usable(graph.Entries(), h.id) && hasPlan(h.id)
    ensures outcome.NoBootableEntries? && present(decision).Some? ==>
              forall id :: Usable(graph.Entries(), id) && hasPlan(id) ==> id in Map(log, HandedTo)
    ensures var chosen := present(decision);
            && (chosen.None? ==> log == [])
            && (chosen.Some? && Usable(graph.Entries(), chosen.value) && hasPlan(chosen.value) ==>
                  log != [] && log[0].id == chosen.value)
            && (forall i, j :: 0 <= i < j < |log| && Some(log[i].id) != chosen ==>
                  HealthyId(graph.Entries(), log[j].id) ==> HealthyId(graph.Entries(), log[i].id))
  {
    hide *;
    graph := PrepareGraph(raw, fileExists, isSelf);
    outcome, log, decision, events :=
      Boot(vars, graph, strategy, configuredDefault, present, maxTries, hasPlan, outcomes, before);
    var chosen := present(decision);
    HandOffsComplete(graph.Entries(), hasPlan, chosen, log, outcome, outcomes);
    forall id ensures Eligible(graph.Entries(), hasPlan, id) <==> Usable(graph.Entries(), id) && hasPlan(id) {
      EligibleExactly(graph.Entries(), hasPlan, id);
    }
    if chosen.Some? {
      HandOffOrder(graph.Entries(), hasPlan, chosen.value, log, outcome, outcomes);
    } else {
      NothingChosen(log, outcome, outcomes);
    }
  }

  lemma EligibleExactly(es: seq<BootEntry>, hasPlan: EntryId -> bool, id: EntryId)
    ensures Eligible(es, hasPlan, id) <==> Usable(es, id) && hasPlan(id)
  {
    UsableExactly(es, id);
    hide Usable, IsBootable;
  }

  lemma NothingChosen(log: seq<HandOff>, outcome: Outcome, outcomes: nat -> bool)
    requires UpToTakeOver(log, [], outcome, outcomes)
    ensures log == []
  {
  }

  /** What the order of the hand-offs means on a graph with unique ids. */
  lemma HandOffsComplete(
    es: seq<BootEntry>, hasPlan: EntryId -> bool, chosen: Option<EntryId>, log: seq<HandOff>, outcome: Outcome,
    outcomes: nat -> bool)
    requires UniqueIds(es)
    requires UpToTakeOver(
               log,
               if chosen.None? then [] else EligibleOf(es, hasPlan, AttemptOrder(es, chosen.value)),
               outcome, outcomes)
    ensures Distinct(Map(log, HandedTo))
    ensures forall h :: h in log ==> Eligible(es, hasPlan, h.id)
    ensures outcome.NoBootableEntries? && chosen.Some? ==>
              forall id :: Eligible(es, hasPlan, id) ==> id in Map(log, HandedTo)
  {
    hide EligibleOf, AttemptOrder, Eligible;
    if chosen.Some? {
      var eligible := EligibleOf(es, hasPlan, AttemptOrder(es, chosen.value));
      HandOffsDistinct(es, hasPlan, chosen.value, |log|);
      assert |log| == |eligible| ==> eligible[..|log|] == eligible;
      forall h | h in log ensures Eligible(es, hasPlan, h.id) {
        var k :| 0 <= k < |log| && log[k] == h;
        assert Map(log, HandedTo)[k] == h.id && eligible[k] == h.id;
      }
    }
  }
}
