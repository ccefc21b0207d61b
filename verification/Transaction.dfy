/** The boot transaction: charge an attempt, hand off, confirm or fall back. */
module Transaction {
  import opened Basics
  import opened Ids
  import opened Graph
  import opened Journal

  datatype Phase = Idle | Selected | Validated | Staged | Launched | Confirmed | Failed | Recovery {
    predicate IsTerminal() { Confirmed? || Recovery? }
  }

  /** What the engine must persist at a transition. */
  datatype Effect = ChargeAttempt(id: EntryId) | RecordLastGood(id: EntryId)

  datatype TxError = WrongPhase | NotBootable | NoEntrySelected

  datatype TxState = TxState(
    phase: Phase,
    selected: Option<EntryId>,
    tries: map<EntryId, byte>,
    lastGood: Option<EntryId>,
    committed: Option<EntryId>,
    maxTries: byte)

  datatype Call =
    | Select(id: EntryId) | Validate | Stage | Launch | ConfirmSuccess | DetectFailure | Resolve

  datatype Accepted = Accepted(next: TxState, effect: Option<Effect>, fallback: Option<EntryId>)

  /** Ids absent from the persisted budgets count as untouched. */
  function TriesLeft(s: TxState, id: EntryId): byte {
    if id in s.tries then s.tries[id] else s.maxTries
  }

  /** The graph finds the id, its entry is bootable, and attempts remain. */
  predicate CanBoot(es: seq<BootEntry>, s: TxState, id: EntryId) {
    Find(es, id).Some? && Find(es, id).value.Bootable() && TriesLeft(s, id) > 0
  }

  /** First bootable entry from position `k` on whose id is not the failed one. */
  function OtherFrom(es: seq<BootEntry>, s: TxState, k: nat): (r: Option<EntryId>)
    requires k <= |es|
    decreases |es| - k
  {
    if k == |es| then None
    else if Some(es[k].id) != s.selected && CanBoot(es, s, es[k].id) then Some(es[k].id)
    else OtherFrom(es, s, k + 1)
  }

  function PickFallback(es: seq<BootEntry>, s: TxState): Option<EntryId> {
    if s.lastGood.Some? && CanBoot(es, s, s.lastGood.value) then s.lastGood
    else
      var other := OtherFrom(es, s, 0);
      if other.Some? then other
      else if s.selected.Some? && CanBoot(es, s, s.selected.value) then s.selected
      else None
  }

  /** The whole transition relation: what one call answers and which state it leaves. */
  function Step(es: seq<BootEntry>, s: TxState, call: Call): (r: Result<Accepted, TxError>) {
    match call
    case Select(id) =>
      if s.phase != Idle then Err(WrongPhase)
      else if !CanBoot(es, s, id) then Err(NotBootable)
      else Ok(Accepted(s.(selected := Some(id), phase := Selected), None, None))
    case Validate =>
      if s.phase != Selected then Err(WrongPhase)
      else if s.selected.None? then Err(NoEntrySelected)
      else if !CanBoot(es, s, s.selected.value) then Err(NotBootable)
      else Ok(Accepted(s.(phase := Validated), None, None))
    case Stage =>
      if s.phase != Validated then Err(WrongPhase)
      else if s.selected.None? then Err(NoEntrySelected)
      else
        var id, n := s.selected.value, TriesLeft(s, s.selected.value);
        var charged := s.tries[id := if n == 0 then 0 else n - 1];
        Ok(Accepted(s.(tries := charged, phase := Staged), Some(ChargeAttempt(id)), None))
    case Launch =>
      if s.phase != Staged then Err(WrongPhase)
      else Ok(Accepted(s.(phase := Launched), None, None))
    case ConfirmSuccess =>
      if s.phase != Launched then Err(WrongPhase)
      else if s.selected.None? then Err(NoEntrySelected)
      else
        var id := s.selected.value;
        var next := s.(tries := s.tries[id := s.maxTries], lastGood := Some(id),
                       committed := Some(id), phase := Confirmed);
        Ok(Accepted(next, Some(RecordLastGood(id)), None))
    case DetectFailure =>
      if s.phase != Launched then Err(WrongPhase)
      else Ok(Accepted(s.(phase := Failed), None, None))
    case Resolve =>
      if s.phase != Failed then Err(WrongPhase)
      else
        var fallback := PickFallback(es, s);
        if fallback.Some? then Ok(Accepted(s.(selected := fallback, phase := Selected), None, fallback))
        else Ok(Accepted(s.(phase := Recovery), None, None))
  }

  /** The phase a call belongs to. */
  function Required(call: Call): Phase {
    match call
    case Select(_) => Idle
    case Validate => Selected
    case Stage => Validated
    case Launch => Staged
    case ConfirmSuccess => Launched
    case DetectFailure => Launched
    case Resolve => Failed
  }

  class Transaction {
    var phase: Phase
    var selected: Option<EntryId>
    var tries: map<EntryId, byte>
    var lastGood: Option<EntryId>
    var committed: Option<EntryId>
    const maxTries: byte

    constructor (maxTries: byte, tries: map<EntryId, byte>, lastGood: Option<EntryId>)
      ensures Value() == TxState(Idle, None, tries, lastGood, None, if maxTries == 0 then 1 else maxTries)
      ensures Fresh(Value())
    {
      this.phase := Idle;
      this.selected := None;
      this.tries := tries;
      this.lastGood := lastGood;
      this.committed := None;
      this.maxTries := if maxTries == 0 then 1 else maxTries;
    }

    function Value(): TxState
      reads this
    {
      TxState(phase, selected, tries, lastGood, committed, maxTries)
    }

    /** The fields after a call are those `Step` prescribes; a refused call changes nothing. */
    ghost predicate Took(before: TxState, es: seq<BootEntry>, call: Call, ok: bool, error: TxError)
      reads this
    {
      match Step(es, before, call)
      case Ok(a) => ok && Value() == a.next
      case Err(e) => !ok && error == e && Value() == before
    }

    predicate Bootable(graph: BootGraph, id: EntryId)
      reads this, graph
    {
      CanBoot(graph.Entries(), Value(), id)
    }

    method Select(graph: BootGraph, id: EntryId) returns (r: Result<(), TxError>)
      modifies this
      ensures Took(old(Value()), graph.Entries(), Call.Select(id), r.Ok?, if r.Ok? then WrongPhase else r.error)
    {
      if phase != Phase.Idle { return Err(WrongPhase); }
      if !Bootable(graph, id) { return Err(NotBootable); }
      selected := Some(id);
      phase := Phase.Selected;
      r := Ok(());
    }

    method Validate(graph: BootGraph) returns (r: Result<(), TxError>)
      modifies this
      ensures Took(old(Value()), graph.Entries(), Call.Validate, r.Ok?, if r.Ok? then WrongPhase else r.error)
    {
      if phase != Phase.Selected { return Err(WrongPhase); }
      if selected.None? { return Err(NoEntrySelected); }
      if !Bootable(graph, selected.value) { return Err(NotBootable); }
      phase := Phase.Validated;
      r := Ok(());
    }

    method Stage(ghost es: seq<BootEntry>, ghost journal: Journal) returns (r: Result<Effect, TxError>)
      modifies this, journal
      ensures Took(old(Value()), es, Call.Stage, r.Ok?, if r.Ok? then WrongPhase else r.error)
      ensures r.Ok? ==> Some(r.value) == Step(es, old(Value()), Call.Stage).value.effect
      ensures r.Ok? ==> r.value.ChargeAttempt? && journal.records == old(journal.records) + [Charged(r.value.id)]
      ensures r.Err? ==> journal.records == old(journal.records)
    {
      if phase != Phase.Validated { return Err(WrongPhase); }
      if selected.None? { return Err(NoEntrySelected); }
      var id := selected.value;
      if id !in tries { tries := tries[id := maxTries]; }
      var n := tries[id];
      tries := tries[id := if n == 0 then 0 else n - 1];
      journal.Add(Charged(id));
      phase := Phase.Staged;
      r := Ok(ChargeAttempt(id));
    }

    method Launch(ghost es: seq<BootEntry>) returns (r: Result<(), TxError>)
      modifies this
      ensures Took(old(Value()), es, Call.Launch, r.Ok?, if r.Ok? then WrongPhase else r.error)
    {
      if phase != Phase.Staged { return Err(WrongPhase); }
      phase := Phase.Launched;
      r := Ok(());
    }

    method ConfirmSuccess(ghost es: seq<BootEntry>) returns (r: Result<Effect, TxError>)
      modifies this
      ensures Took(old(Value()), es, Call.ConfirmSuccess, r.Ok?, if r.Ok? then WrongPhase else r.error)
      ensures r.Ok? ==> Some(r.value) == Step(es, old(Value()), Call.ConfirmSuccess).value.effect
    {
      if phase != Phase.Launched { return Err(WrongPhase); }
      if selected.None? { return Err(NoEntrySelected); }
      var id := selected.value;
      tries := tries[id := maxTries];
      lastGood := Some(id);
      committed := Some(id);
      phase := Phase.Confirmed;
      r := Ok(RecordLastGood(id));
    }

    method DetectFailure(ghost es: seq<BootEntry>) returns (r: Result<(), TxError>)
      modifies this
      ensures Took(old(Value()), es, Call.DetectFailure, r.Ok?, if r.Ok? then WrongPhase else r.error)
    {
      if phase != Phase.Launched { return Err(WrongPhase); }
      phase := Phase.Failed;
      r := Ok(());
    }

    method Resolve(graph: BootGraph) returns (r: Result<Option<EntryId>, TxError>)
      modifies this
      ensures Took(old(Value()), graph.Entries(), Call.Resolve, r.Ok?, if r.Ok? then WrongPhase else r.error)
      ensures r.Ok? ==> r.value == Step(graph.Entries(), old(Value()), Call.Resolve).value.fallback
    {
      if phase != Phase.Failed { return Err(WrongPhase); }
      var fallback := PickFallback(graph.Entries(), Value());
      if fallback.Some? {
        selected := fallback;
        phase := Phase.Selected;
      } else {
        phase := Phase.Recovery;
      }
      r := Ok(fallback);
    }
  }

  /** A transaction as `new` leaves it. */
  predicate Fresh(s: TxState) {
    s.phase == Idle && s.selected.None? && s.committed.None? && s.maxTries >= 1
  }

  /** What every accepted call keeps, over one graph. */
  predicate Inv(es: seq<BootEntry>, s: TxState) {
    && s.maxTries >= 1
    && (s.phase == Idle <==> s.selected.None?)
    && (s.selected.Some? ==> s.selected.value in HealthyIds(es))
    && (s.phase == Selected || s.phase == Validated ==> CanBoot(es, s, s.selected.value))
    && s.committed == (if s.phase == Confirmed then s.selected else None)
    && (s.phase == Confirmed ==> s.lastGood == s.selected)
  }

  /** Ids whose entry, as looked up, is bootable: the entries the specification quantifies over. */
  function HealthyIds(es: seq<BootEntry>): (r: set<EntryId>) {
    set e | e in es && Find(es, e.id).value.Bootable() :: e.id
  }

  function BootableIds(es: seq<BootEntry>, s: TxState): (r: set<EntryId>) {
    set id | id in HealthyIds(es) && TriesLeft(s, id) > 0
  }

  lemma CanBootIds(es: seq<BootEntry>, s: TxState, id: EntryId)
    ensures CanBoot(es, s, id) <==> id in BootableIds(es, s)
    ensures Find(es, id).Some? && Find(es, id).value.Bootable() <==> id in HealthyIds(es)
  {
    if Find(es, id).Some? && Find(es, id).value.Bootable() {
      var e := Find(es, id).value;
      assert e in es && e.id == id;
    }
  }

  // ---- the fallback search ----

  lemma {:induction false} OtherFromFirst(es: seq<BootEntry>, s: TxState, k: nat)
    requires k <= |es|
    ensures match OtherFrom(es, s, k)
            case None => forall i :: k <= i < |es| ==> Some(es[i].id) == s.selected || !CanBoot(es, s, es[i].id)
            case Some(id) =>
              exists i :: k <= i < |es| && es[i].id == id && Some(id) != s.selected && CanBoot(es, s, id)
                && forall j :: k <= j < i ==> Some(es[j].id) == s.selected || !CanBoot(es, s, es[j].id)
    decreases |es| - k
  {
    hide CanBoot;
    if k < |es| && !(Some(es[k].id) != s.selected && CanBoot(es, s, es[k].id)) {
      OtherFromFirst(es, s, k + 1);
    }
  }

  /** Giving up means nothing is bootable, and a fallback is always bootable. */
  lemma FallbackSound(es: seq<BootEntry>, s: TxState)
    ensures PickFallback(es, s).None? <==> BootableIds(es, s) == {}
    ensures PickFallback(es, s).Some? ==> PickFallback(es, s).value in BootableIds(es, s)
  {
    OtherFromFirst(es, s, 0);
    var r := PickFallback(es, s);
    if r.Some? {
      CanBootIds(es, s, r.value);
    } else {
      forall id ensures id !in BootableIds(es, s) { CanBootIds(es, s, id); }
    }
  }

  /** The documented preference order: last good, then the first other entry in graph order, then a retry. */
  lemma FallbackOrder(es: seq<BootEntry>, s: TxState)
    ensures s.lastGood.Some? && CanBoot(es, s, s.lastGood.value) ==> PickFallback(es, s) == s.lastGood
    ensures !(s.lastGood.Some? && CanBoot(es, s, s.lastGood.value)) ==>
            forall i :: 0 <= i < |es| && Some(es[i].id) != s.selected && CanBoot(es, s, es[i].id)
              && (forall j :: 0 <= j < i ==> Some(es[j].id) == s.selected || !CanBoot(es, s, es[j].id))
              ==> PickFallback(es, s) == Some(es[i].id)
    ensures PickFallback(es, s) == s.selected && s.selected.Some? ==>
            s.lastGood == s.selected || BootableIds(es, s) == {s.selected.value}
  {
    OtherFromFirst(es, s, 0);
    if PickFallback(es, s) == s.selected && s.selected.Some? && s.lastGood != s.selected {
      FallbackSound(es, s);
      forall id | id in BootableIds(es, s) ensures id == s.selected.value {
        CanBootIds(es, s, id);
        var i :| 0 <= i < |es| && es[i].id == id;
      }
    }
  }

  // ---- refusals and effects ----

  /**
   * Why a call is refused, over any graph: it is out of its phase, nothing was selected, or what it selects or
   * validates cannot be booted. Nothing else is ever refused.
   */
  lemma Refusals(es: seq<BootEntry>, s: TxState, call: Call)
    ensures Step(es, s, call) == Err(WrongPhase) <==> s.phase != Required(call)
    ensures Step(es, s, call) == Err(NoEntrySelected) <==>
            s.phase == Required(call) && s.selected.None? && (call.Validate? || call.Stage? || call.ConfirmSuccess?)
    ensures Step(es, s, call) == Err(NotBootable) <==>
            && s.phase == Required(call)
            && ((call.Select? && !CanBoot(es, s, call.id)) ||
                (call.Validate? && s.selected.Some? && !CanBoot(es, s, s.selected.value)))
    ensures Inv(es, s) ==> Step(es, s, call) != Err(NoEntrySelected)
  {
  }

  /** What a call asks to be persisted: a charge of the selected entry when staging, its success when confirming. */
  lemma EffectsNamed(es: seq<BootEntry>, s: TxState, call: Call)
    requires Inv(es, s) && Step(es, s, call).Ok?
    ensures var a := Step(es, s, call).value;
            && (a.effect.Some? <==> call.Stage? || call.ConfirmSuccess?)
            && (call.Stage? ==> a.effect == Some(ChargeAttempt(s.selected.value)) && a.next.selected == s.selected)
            && (call.ConfirmSuccess? ==>
                  && a.effect == Some(RecordLastGood(s.selected.value))
                  && a.next.lastGood == a.next.committed == s.selected
                  && TriesLeft(a.next, s.selected.value) == s.maxTries)
            && (!call.ConfirmSuccess? ==> a.next.lastGood == s.lastGood)
            && (call.Resolve? ==> a.fallback == (if a.next.phase == Recovery then None else a.next.selected))
  {
  }

  // ---- every step keeps the invariant ----

  lemma FreshInv(es: seq<BootEntry>, s: TxState)
    requires Fresh(s)
    ensures Inv(es, s)
  {
  }

  lemma StepInv(es: seq<BootEntry>, s: TxState, call: Call)
    requires Inv(es, s) && Step(es, s, call).Ok?
    ensures Inv(es, Step(es, s, call).value.next)
  {
    match call
    case Select(id) => CanBootIds(es, s, id);
    case Resolve =>
      FallbackSound(es, s);
      if PickFallback(es, s).Some? { CanBootIds(es, s, PickFallback(es, s).value); }
    case _ =>
  }

  /** The state after a sequence of calls, if every one of them is accepted. */
  function Run(es: seq<BootEntry>, s: TxState, calls: seq<Call>): (r: Option<TxState>)
    decreases |calls|
  {
    if calls == [] then Some(s)
    else if Step(es, s, calls[0]).Err? then None
    else Run(es, Step(es, s, calls[0]).value.next, calls[1..])
  }

  // ---- termination ----

  function Budget(ids: seq<EntryId>, s: TxState): (r: nat) {
    if ids == [] then 0 else TriesLeft(s, ids[0]) + Budget(ids[1..], s)
  }

  function PhaseRank(p: Phase): (r: nat) {
    match p
    case Staged => 5
    case Launched => 4
    case Failed => 3
    case Idle => 3
    case Selected => 2
    case Validated => 1
    case Confirmed => 0
    case Recovery => 0
  }

  /** Strictly decreases at every accepted call. */
  function Measure(es: seq<BootEntry>, s: TxState): (r: nat) {
    if s.phase.IsTerminal() then 0 else 5 * Budget(DistinctIds(es), s) + PhaseRank(s.phase)
  }

  lemma {:induction false} BudgetUnchanged(ids: seq<EntryId>, s: TxState, t: TxState)
    requires forall id :: id in ids ==> TriesLeft(s, id) == TriesLeft(t, id)
    ensures Budget(ids, s) == Budget(ids, t)
  {
    if ids == [] {
    } else {
      BudgetUnchanged(ids[1..], s, t);
    }
  }

  lemma {:induction false} BudgetCharged(ids: seq<EntryId>, s: TxState, t: TxState, x: EntryId)
    requires Distinct(ids) && x in ids
    requires TriesLeft(t, x) == TriesLeft(s, x) - 1
    requires forall id :: id in ids && id != x ==> TriesLeft(s, id) == TriesLeft(t, id)
    ensures Budget(ids, t) == Budget(ids, s) - 1
  {
    if ids[0] == x {
      BudgetUnchanged(ids[1..], s, t);
    } else {
      BudgetCharged(ids[1..], s, t, x);
    }
  }

  lemma StepMeasure(es: seq<BootEntry>, s: TxState, call: Call)
    requires Inv(es, s) && Step(es, s, call).Ok?
    ensures Measure(es, Step(es, s, call).value.next) < Measure(es, s)
  {
    hide Find, PickFallback, Budget, DistinctIds, CanBoot;
    var t := Step(es, s, call).value.next;
    if call == Stage {
      var x := s.selected.value;
      StageCharges(es, s);
      BudgetCharged(DistinctIds(es), s, t, x);
    } else if call != ConfirmSuccess {
      BudgetUnchanged(DistinctIds(es), s, t);
    }
  }

  /** No run of accepted calls is longer than the measure of the state it starts in. */
  lemma {:induction false} RunBounded(es: seq<BootEntry>, s: TxState, calls: seq<Call>)
    requires Inv(es, s) && Run(es, s, calls).Some?
    ensures Inv(es, Run(es, s, calls).value)
    ensures |calls| + Measure(es, Run(es, s, calls).value) <= Measure(es, s)
    ensures s.phase != Idle ==> Run(es, s, calls).value.phase != Idle
    decreases |calls|
  {
    hide Measure, PickFallback, CanBoot, Find;
    if calls == [] {
    } else {
      StepInv(es, s, calls[0]);
      StepMeasure(es, s, calls[0]);
      RunBounded(es, Step(es, s, calls[0]).value.next, calls[1..]);
    }
  }

  ghost predicate Stuck(es: seq<BootEntry>, s: TxState) {
    forall call :: Step(es, s, call).Err?
  }

  /** The machine halts exactly when resolved, or when nothing could be selected in the first place. */
  lemma StuckExactly(es: seq<BootEntry>, s: TxState)
    requires Inv(es, s)
    ensures Stuck(es, s) <==> s.phase.IsTerminal() || (s.phase == Idle && BootableIds(es, s) == {})
  {
    forall id ensures CanBoot(es, s, id) <==> id in BootableIds(es, s) { CanBootIds(es, s, id); }
    if s.phase == Idle && BootableIds(es, s) != {} {
      var id :| id in BootableIds(es, s);
      assert Step(es, s, Select(id)).Ok?;
    }
    assert s.phase == Selected ==> Step(es, s, Validate).Ok?;
    assert s.phase == Validated ==> Step(es, s, Stage).Ok?;
    assert s.phase == Staged ==> Step(es, s, Launch).Ok?;
    assert s.phase == Launched ==> Step(es, s, DetectFailure).Ok?;
    assert s.phase == Failed ==> Step(es, s, Resolve).Ok?;
  }

  /** Once an entry is selected, every run that can go no further has ended confirmed or in recovery. */
  lemma EventuallyResolved(es: seq<BootEntry>, s: TxState, calls: seq<Call>)
    requires Inv(es, s) && s.phase != Idle
    requires Run(es, s, calls).Some? && Stuck(es, Run(es, s, calls).value)
    ensures Run(es, s, calls).value.phase.IsTerminal()
    ensures |calls| <= 5 * Budget(DistinctIds(es), s) + 5
  {
    RunBounded(es, s, calls);
    StuckExactly(es, Run(es, s, calls).value);
  }

  /** From `Failed`, `resolve` is always accepted; it recovers exactly when nothing is bootable. */
  lemma NoDeadEnd(es: seq<BootEntry>, s: TxState)
    requires s.phase == Failed
    ensures Step(es, s, Resolve).Ok?
    ensures Step(es, s, Resolve).value.next.phase == (if BootableIds(es, s) == {} then Recovery else Selected)
    ensures BootableIds(es, s) != {} ==> Step(es, s, Resolve).value.next.selected.value in BootableIds(es, s)
  {
    FallbackSound(es, s);
  }

  // ---- conservation of attempts ----

  /** Effects a run emits, in order. */
  function Effects(es: seq<BootEntry>, s: TxState, calls: seq<Call>): (r: seq<Effect>)
    requires Run(es, s, calls).Some?
    decreases |calls|
  {
    if calls == [] then []
    else
      var a := Step(es, s, calls[0]).value;
      (if a.effect.Some? then [a.effect.value] else []) + Effects(es, a.next, calls[1..])
  }

  /** Entries launched by a run, in order. */
  function Launches(es: seq<BootEntry>, s: TxState, calls: seq<Call>): (r: seq<EntryId>)
    requires Run(es, s, calls).Some?
    decreases |calls|
  {
    if calls == [] then []
    else
      var rest := Launches(es, Step(es, s, calls[0]).value.next, calls[1..]);
      if calls[0] == Launch && s.selected.Some? then [s.selected.value] + rest else rest
  }

  /** One call moves at most one attempt, from the entry's budget into a charge. */
  lemma StepAttempts(es: seq<BootEntry>, s: TxState, call: Call, id: EntryId)
    requires Inv(es, s) && Step(es, s, call).Ok?
    ensures var a := Step(es, s, call).value;
            && (a.effect == Some(ChargeAttempt(id)) <==> call == Stage && s.selected == Some(id))
            && (a.next.phase != Confirmed ==>
                  TriesLeft(a.next, id) + (if a.effect == Some(ChargeAttempt(id)) then 1 else 0) == TriesLeft(s, id))
            && (call == Launch ==> s.phase == Staged)
            && (a.next.phase == Staged <==> call == Stage)
            && (a.next.phase == Staged ==> a.next.selected == s.selected)
  {
  }

  /** Charges emitted plus attempts left is the initial budget, entry by entry, until success restores it. */
  lemma {:induction false} AttemptsConserved(es: seq<BootEntry>, s: TxState, calls: seq<Call>, id: EntryId)
    requires Inv(es, s) && Run(es, s, calls).Some?
    ensures var charges := multiset(Effects(es, s, calls))[ChargeAttempt(id)];
            && charges <= TriesLeft(s, id)
            && (Run(es, s, calls).value.phase != Confirmed ==>
                  charges + TriesLeft(Run(es, s, calls).value, id) == TriesLeft(s, id))
    decreases |calls|
  {
    if calls == [] {
    } else {
      var a := Step(es, s, calls[0]).value;
      StepInv(es, s, calls[0]);
      StepAttempts(es, s, calls[0], id);
      if a.next.phase == Confirmed {
        RunBounded(es, a.next, calls[1..]);
        assert calls[1..] == [];
      } else {
        AttemptsConserved(es, a.next, calls[1..], id);
      }
    }
  }

  /** Every launch was paid for by a charge of the same entry. */
  lemma {:induction false} LaunchesCharged(es: seq<BootEntry>, s: TxState, calls: seq<Call>, id: EntryId)
    requires Inv(es, s) && Run(es, s, calls).Some?
    ensures multiset(Launches(es, s, calls))[id] <=
            multiset(Effects(es, s, calls))[ChargeAttempt(id)] +
            if s.phase == Staged && s.selected == Some(id) then 1 else 0
    decreases |calls|
  {
    if calls == [] {
    } else {
      var next := Step(es, s, calls[0]).value.next;
      StepInv(es, s, calls[0]);
      StepAttempts(es, s, calls[0], id);
      LaunchesCharged(es, next, calls[1..], id);
    }
  }

  /** Charging never saturates: the counter always drops by one. */
  lemma StageCharges(es: seq<BootEntry>, s: TxState)
    requires Inv(es, s) && Step(es, s, Stage).Ok?
    ensures var t := Step(es, s, Stage).value.next; TriesLeft(t, s.selected.value) == TriesLeft(s, s.selected.value) - 1
  {
  }

  /** From a fresh transaction no entry is launched more often than its persisted budget allows. */
  lemma LaunchesWithinBudget(es: seq<BootEntry>, s: TxState, calls: seq<Call>, id: EntryId)
    requires Fresh(s) && Run(es, s, calls).Some?
    ensures multiset(Launches(es, s, calls))[id] <= TriesLeft(s, id)
  {
    FreshInv(es, s);
    AttemptsConserved(es, s, calls, id);
    LaunchesCharged(es, s, calls, id);
  }
}
