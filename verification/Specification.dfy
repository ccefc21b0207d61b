/** The temporal specification of the boot transaction, and the refinement of its executable form to it. */
module Specification {
  import opened Basics
  import opened Ids
  import opened Graph
  import opened Transaction

  /** The specification's variables; `None` is its `NoEntry`. */
  datatype Vars = Vars(
    phase: Phase,
    selected: Option<EntryId>,
    triesLeft: map<EntryId, int>,
    lastGood: Option<EntryId>,
    committed: Option<EntryId>)

  ghost predicate BootableIn(entries: set<EntryId>, v: Vars, e: EntryId) {
    e in entries && e in v.triesLeft && v.triesLeft[e] > 0
  }

  ghost predicate TypeOK(entries: set<EntryId>, maxTries: int, v: Vars) {
    && v.triesLeft.Keys == entries
    && (forall e :: e in entries ==> 0 <= v.triesLeft[e] <= maxTries)
    && (v.selected.Some? ==> v.selected.value in entries)
    && (v.lastGood.Some? ==> v.lastGood.value in entries)
    && (v.committed.Some? ==> v.committed.value in entries)
  }

  ghost predicate Init(entries: set<EntryId>, maxTries: int, v: Vars) {
    v == Vars(Idle, None, map e | e in entries :: maxTries, None, None)
  }

  ghost predicate SelectAction(entries: set<EntryId>, v: Vars, w: Vars, e: EntryId) {
    v.phase == Idle && BootableIn(entries, v, e) && w == v.(selected := Some(e), phase := Selected)
  }

  ghost predicate ValidateAction(entries: set<EntryId>, v: Vars, w: Vars) {
    v.phase == Selected && v.selected.Some? && BootableIn(entries, v, v.selected.value)
    && w == v.(phase := Validated)
  }

  ghost predicate StageAction(v: Vars, w: Vars) {
    v.phase == Validated && v.selected.Some? && v.selected.value in v.triesLeft
    && w == v.(triesLeft := v.triesLeft[v.selected.value := v.triesLeft[v.selected.value] - 1], phase := Staged)
  }

  ghost predicate LaunchAction(v: Vars, w: Vars) {
    v.phase == Staged && w == v.(phase := Launched)
  }

  ghost predicate ConfirmSuccessAction(maxTries: int, v: Vars, w: Vars) {
    v.phase == Launched && v.selected.Some?
    && w == v.(committed := v.selected, lastGood := v.selected,
               triesLeft := v.triesLeft[v.selected.value := maxTries], phase := Confirmed)
  }

  ghost predicate DetectFailureAction(v: Vars, w: Vars) {
    v.phase == Launched && w == v.(phase := Failed)
  }

  /** `target` is the entry rolled back to when the last good one is not bootable. */
  ghost predicate RollBackTo(entries: set<EntryId>, v: Vars, w: Vars, target: EntryId) {
    v.phase == Failed && BootableIn(entries, v, target)
    && var good := v.lastGood.Some? && BootableIn(entries, v, v.lastGood.value);
       w == v.(selected := if good then v.lastGood else Some(target), phase := Selected)
  }

  /** Rolling back with the choice left open: any bootable entry may be the target. */
  ghost predicate RollBackAction(entries: set<EntryId>, v: Vars, w: Vars) {
    exists target :: RollBackTo(entries, v, w, target)
  }

  ghost predicate RecoverAction(entries: set<EntryId>, v: Vars, w: Vars) {
    v.phase == Failed && (forall e :: e in entries ==> !BootableIn(entries, v, e)) && w == v.(phase := Recovery)
  }

  ghost predicate Next(entries: set<EntryId>, maxTries: int, v: Vars, w: Vars) {
    || (exists e :: SelectAction(entries, v, w, e))
    || ValidateAction(entries, v, w)
    || StageAction(v, w)
    || LaunchAction(v, w)
    || ConfirmSuccessAction(maxTries, v, w)
    || DetectFailureAction(v, w)
    || RollBackAction(entries, v, w)
    || RecoverAction(entries, v, w)
  }

  function Known(entries: set<EntryId>, id: Option<EntryId>): Option<EntryId> {
    if id.Some? && id.value in entries then id else None
  }

  /** The specification state a transaction over this graph stands for. */
  ghost function View(es: seq<BootEntry>, s: TxState): Vars {
    var entries := HealthyIds(es);
    Vars(s.phase, s.selected, map e | e in entries :: TriesLeft(s, e) as int,
         Known(entries, s.lastGood), Known(entries, s.committed))
  }

  predicate TriesBounded(s: TxState) {
    forall id :: id in s.tries ==> s.tries[id] <= s.maxTries
  }

  lemma ViewBootable(es: seq<BootEntry>, s: TxState, e: EntryId)
    ensures BootableIn(HealthyIds(es), View(es, s), e) <==> e in BootableIds(es, s)
  {
  }

  /** A call that charges nothing leaves the specification's counters alone. */
  lemma ViewFrame(es: seq<BootEntry>, s: TxState, t: TxState)
    requires t.tries == s.tries && t.maxTries == s.maxTries
    ensures View(es, t).triesLeft == View(es, s).triesLeft
    ensures BootableIds(es, t) == BootableIds(es, s)
  {
    hide Find;
  }

  /** No healthy entry is stored as last good. */
  predicate NoHealthyLastGood(es: seq<BootEntry>, s: TxState) {
    s.lastGood.Some? ==> s.lastGood.value !in HealthyIds(es)
  }

  /** Every healthy entry has all its tries. */
  predicate FullBudgets(es: seq<BootEntry>, s: TxState) {
    forall e :: e in HealthyIds(es) ==> TriesLeft(s, e) == s.maxTries
  }

  /**
   * A new transaction starts where the specification does exactly when no healthy entry is stored as last good
   * and no healthy entry has been charged.
   */
  lemma RefinesInit(es: seq<BootEntry>, s: TxState)
    requires Fresh(s)
    ensures Init(HealthyIds(es), s.maxTries, View(es, s)) <==> NoHealthyLastGood(es, s) && FullBudgets(es, s)
  {
    var entries, v := HealthyIds(es), View(es, s);
    var full := map e | e in entries :: s.maxTries as int;
    assert v.triesLeft == full <==> FullBudgets(es, s) by {
      if v.triesLeft == full {
        forall e | e in entries ensures TriesLeft(s, e) == s.maxTries { assert v.triesLeft[e] == full[e]; }
      }
    }
  }

  lemma LastGoodFirst(es: seq<BootEntry>, s: TxState)
    ensures s.lastGood.Some? && s.lastGood.value in BootableIds(es, s) ==> PickFallback(es, s) == s.lastGood
  {
    FallbackOrder(es, s);
    if s.lastGood.Some? { CanBootIds(es, s, s.lastGood.value); }
  }

  /** Rolling back, with the chosen fallback for target. */
  lemma RefinesRollBack(es: seq<BootEntry>, s: TxState, x: EntryId)
    requires s.phase == Failed && x in BootableIds(es, s)
    requires s.lastGood.Some? && s.lastGood.value in BootableIds(es, s) ==> x == s.lastGood.value
    ensures RollBackTo(HealthyIds(es), View(es, s), View(es, s.(selected := Some(x), phase := Selected)), x)
  {
    ViewFrame(es, s, s.(selected := Some(x), phase := Selected));
    ViewBootable(es, s, x);
    if s.lastGood.Some? { ViewBootable(es, s, s.lastGood.value); }
  }

  lemma RefinesResolve(es: seq<BootEntry>, s: TxState)
    requires Inv(es, s) && s.phase == Failed
    ensures var v, w := View(es, s), View(es, Step(es, s, Resolve).value.next);
            RollBackAction(HealthyIds(es), v, w) || RecoverAction(HealthyIds(es), v, w)
  {
    hide HealthyIds, PickFallback, CanBoot, Find;
    FallbackSound(es, s);
    LastGoodFirst(es, s);
    var pick := PickFallback(es, s);
    if pick.Some? {
      RefinesRollBack(es, s, pick.value);
    } else {
      ViewFrame(es, s, s.(phase := Recovery));
      forall e | e in HealthyIds(es) ensures !BootableIn(HealthyIds(es), View(es, s), e) { ViewBootable(es, s, e); }
    }
  }

  lemma RefinesStage(es: seq<BootEntry>, s: TxState)
    requires Inv(es, s) && Step(es, s, Stage).Ok?
    ensures StageAction(View(es, s), View(es, Step(es, s, Stage).value.next))
  {
    hide PickFallback, CanBoot, Find;
    var t := Step(es, s, Stage).value.next;
    var x := s.selected.value;
    StageCharges(es, s);
    var v := View(es, s);
    assert View(es, t).triesLeft == v.triesLeft[x := v.triesLeft[x] - 1];
  }

  lemma RefinesConfirm(es: seq<BootEntry>, s: TxState)
    requires Inv(es, s) && Step(es, s, ConfirmSuccess).Ok?
    ensures ConfirmSuccessAction(s.maxTries, View(es, s), View(es, Step(es, s, ConfirmSuccess).value.next))
  {
    hide PickFallback, CanBoot, Find;
    var t := Step(es, s, ConfirmSuccess).value.next;
    var x := s.selected.value;
    assert View(es, t).triesLeft == View(es, s).triesLeft[x := s.maxTries as int];
  }

  lemma RefinesSelect(es: seq<BootEntry>, s: TxState, id: EntryId)
    requires Step(es, s, Select(id)).Ok?
    ensures SelectAction(HealthyIds(es), View(es, s), View(es, Step(es, s, Select(id)).value.next), id)
  {
    CanBootIds(es, s, id);
    ViewBootable(es, s, id);
    ViewFrame(es, s, s.(selected := Some(id), phase := Selected));
  }

  lemma RefinesValidate(es: seq<BootEntry>, s: TxState)
    requires Step(es, s, Validate).Ok?
    ensures ValidateAction(HealthyIds(es), View(es, s), View(es, Step(es, s, Validate).value.next))
  {
    CanBootIds(es, s, s.selected.value);
    ViewBootable(es, s, s.selected.value);
    ViewFrame(es, s, s.(phase := Validated));
  }

  /** Every accepted call is a step of the specification, over any graph. */
  lemma RefinesNext(es: seq<BootEntry>, s: TxState, call: Call)
    requires Inv(es, s) && Step(es, s, call).Ok?
    ensures Next(HealthyIds(es), s.maxTries, View(es, s), View(es, Step(es, s, call).value.next))
  {
    match call {
      case Select(id) => RefinesSelect(es, s, id);
      case Validate => RefinesValidate(es, s);
      case Stage => RefinesStage(es, s);
      case Launch => ViewFrame(es, s, s.(phase := Launched));
      case ConfirmSuccess => RefinesConfirm(es, s);
      case DetectFailure => ViewFrame(es, s, s.(phase := Failed));
      case Resolve => RefinesResolve(es, s);
    }
  }

  lemma ViewTyped(es: seq<BootEntry>, s: TxState)
    requires Inv(es, s) && TriesBounded(s)
    ensures TypeOK(HealthyIds(es), s.maxTries, View(es, s))
  {
  }

  lemma StepBounded(es: seq<BootEntry>, s: TxState, call: Call)
    requires Inv(es, s) && TriesBounded(s) && Step(es, s, call).Ok?
    ensures TriesBounded(Step(es, s, call).value.next)
    ensures Step(es, s, call).value.next.maxTries == s.maxTries
  {
  }

  /** A run of calls read as a behaviour: typed states joined by specification steps. */
  ghost predicate Behaviour(es: seq<BootEntry>, s: TxState, calls: seq<Call>)
    requires Run(es, s, calls).Some?
    decreases |calls|
  {
    && TypeOK(HealthyIds(es), s.maxTries, View(es, s))
    && (calls != [] ==>
          var t := Step(es, s, calls[0]).value.next;
          Next(HealthyIds(es), s.maxTries, View(es, s), View(es, t)) && Behaviour(es, t, calls[1..]))
  }

  /** Every run, over any graph and any persisted budgets within bounds, is a behaviour of the specification. */
  lemma {:induction false} RefinesRun(es: seq<BootEntry>, s: TxState, calls: seq<Call>)
    requires Inv(es, s) && TriesBounded(s) && Run(es, s, calls).Some?
    ensures Behaviour(es, s, calls)
    decreases |calls|
  {
    ViewTyped(es, s);
    if calls == [] {
    } else {
      StepInv(es, s, calls[0]);
      StepBounded(es, s, calls[0]);
      RefinesNext(es, s, calls[0]);
      RefinesRun(es, Step(es, s, calls[0]).value.next, calls[1..]);
    }
  }

  // ---- the specification's CHOOSE ----

  ghost predicate ValidChoice(choose: set<EntryId> -> EntryId) {
    forall ids: set<EntryId> :: ids != {} ==> choose(ids) in ids
  }

  /** The state `resolve` leaves once `f` has failed. */
  function ResolvedFrom(es: seq<BootEntry>, s: TxState, f: EntryId): TxState
    requires s.phase == Failed
  {
    Step(es, s.(selected := Some(f)), Resolve).value.next
  }

  /** `resolve` rolls back to the entry a fixed choice function picks, whichever entry has failed. */
  ghost predicate FollowsChoice(es: seq<BootEntry>, s: TxState, choose: set<EntryId> -> EntryId)
    requires s.phase == Failed
  {
    forall f :: f in HealthyIds(es) ==>
      RollBackTo(HealthyIds(es), View(es, s.(selected := Some(f))), View(es, ResolvedFrom(es, s, f)),
                 choose(BootableIds(es, s)))
  }

  lemma ChoiceOf(es: seq<BootEntry>, s: TxState, c: EntryId, f: EntryId)
    requires s.phase == Failed && c in BootableIds(es, s)
    ensures var t := s.(selected := Some(f));
            var good := s.lastGood.Some? && s.lastGood.value in BootableIds(es, s);
            RollBackTo(HealthyIds(es), View(es, t), View(es, ResolvedFrom(es, s, f)), c) <==>
            good || PickFallback(es, t) == Some(c)
  {
    hide HealthyIds, PickFallback, CanBoot, Find;
    var t := s.(selected := Some(f));
    ViewFrame(es, s, t);
    FallbackSound(es, t);
    LastGoodFirst(es, t);
    ViewBootable(es, t, c);
    ViewFrame(es, t, ResolvedFrom(es, s, f));
    if s.lastGood.Some? { ViewBootable(es, t, s.lastGood.value); }
  }

  /** An entry that is not last good is only retried when it is the one bootable entry. */
  lemma RetryOnlyAlone(es: seq<BootEntry>, s: TxState, c: EntryId)
    requires s.phase == Failed && c in BootableIds(es, s)
    requires !(s.lastGood.Some? && s.lastGood.value in BootableIds(es, s))
    ensures PickFallback(es, s.(selected := Some(c))) == Some(c) <==> BootableIds(es, s) == {c}
  {
    var t := s.(selected := Some(c));
    ViewFrame(es, s, t);
    FallbackSound(es, t);
    FallbackOrder(es, t);
  }

  /**
   * The specification picks its fallback with a function of the bootable set alone; the code also
   * looks at which entry failed. The two agree for every failed entry exactly when the last good
   * entry is bootable or only one entry is.
   */
  lemma ChoiceExactly(es: seq<BootEntry>, s: TxState, choose: set<EntryId> -> EntryId)
    requires s.phase == Failed && ValidChoice(choose) && BootableIds(es, s) != {}
    ensures FollowsChoice(es, s, choose) <==>
            (s.lastGood.Some? && s.lastGood.value in BootableIds(es, s)) || |BootableIds(es, s)| == 1
  {
    hide HealthyIds, PickFallback, CanBoot, Find;
    var b := BootableIds(es, s);
    var c := choose(b);
    assert c in b && c in HealthyIds(es);
    ChoiceOf(es, s, c, c);
    if s.lastGood.Some? && s.lastGood.value in b {
      forall f | f in HealthyIds(es)
        ensures RollBackTo(HealthyIds(es), View(es, s.(selected := Some(f))), View(es, ResolvedFrom(es, s, f)), c)
      {
        ChoiceOf(es, s, c, f);
      }
    } else {
      RetryOnlyAlone(es, s, c);
      if |b| == 1 {
        Singleton(b, c);
        forall f | f in HealthyIds(es)
          ensures RollBackTo(HealthyIds(es), View(es, s.(selected := Some(f))), View(es, ResolvedFrom(es, s, f)), c)
        {
          ChoiceOf(es, s, c, f);
          ViewFrame(es, s, s.(selected := Some(f)));
          FallbackSound(es, s.(selected := Some(f)));
        }
      } else {
        assert |{c}| == 1;
      }
    }
  }

  // ---- which rollbacks of a whole run a fixed choice predicts ----

  /** A transaction without history. */
  function Begun(maxTries: byte): TxState { TxState(Idle, None, map[], None, None, maxTries) }

  /** The choice gives the target of this failed state's rollback. */
  ghost predicate Foretells(es: seq<BootEntry>, s: TxState, choose: set<EntryId> -> EntryId)
    requires s.phase == Failed
  {
    RollBackTo(HealthyIds(es), View(es, s), View(es, Step(es, s, Resolve).value.next), choose(BootableIds(es, s)))
  }

  /** The choice gives the target of every rollback that any run from the start can reach. */
  ghost predicate Predicts(es: seq<BootEntry>, maxTries: byte, choose: set<EntryId> -> EntryId) {
    forall calls: seq<Call> ::
      Run(es, Begun(maxTries), calls).Some? && Run(es, Begun(maxTries), calls).value.phase == Failed
      && BootableIds(es, Run(es, Begun(maxTries), calls).value) != {}
      ==> Foretells(es, Run(es, Begun(maxTries), calls).value, choose)
  }

  lemma ForetellsExactly(es: seq<BootEntry>, s: TxState, choose: set<EntryId> -> EntryId)
    requires s.phase == Failed && s.selected.Some? && ValidChoice(choose) && BootableIds(es, s) != {}
    ensures Foretells(es, s, choose) <==>
            (s.lastGood.Some? && s.lastGood.value in BootableIds(es, s))
            || PickFallback(es, s) == Some(choose(BootableIds(es, s)))
  {
    hide HealthyIds, PickFallback, CanBoot, Find, BootableIds, View, RollBackTo;
    assert s.(selected := Some(s.selected.value)) == s;
    ChoiceOf(es, s, choose(BootableIds(es, s)), s.selected.value);
  }

  lemma RunCons(es: seq<BootEntry>, s: TxState, call: Call, rest: seq<Call>)
    requires Step(es, s, call).Ok?
    ensures Run(es, s, [call] + rest) == Run(es, Step(es, s, call).value.next, rest)
  {
    assert ([call] + rest)[1..] == rest;
  }

  /** The run that tries one entry and sees it fail. */
  lemma FailingRun(es: seq<BootEntry>, c: EntryId, maxTries: byte) returns (calls: seq<Call>)
    requires c in HealthyIds(es) && maxTries >= 1
    ensures Run(es, Begun(maxTries), calls) ==
            Some(TxState(Failed, Some(c), map[c := maxTries - 1], None, None, maxTries))
  {
    var s0 := Begun(maxTries);
    CanBootIds(es, s0, c);
    hide HealthyIds, Find;
    var s1 := s0.(phase := Phase.Selected, selected := Some(c));
    var s2 := s1.(phase := Validated);
    var s3 := s2.(phase := Staged, tries := map[c := maxTries - 1]);
    var s4 := s3.(phase := Launched);
    var s5 := s4.(phase := Failed);
    assert Step(es, s0, Select(c)).Ok? && Step(es, s0, Select(c)).value.next == s1;
    assert Step(es, s1, Validate).Ok? && Step(es, s1, Validate).value.next == s2;
    assert Step(es, s2, Stage).Ok? && Step(es, s2, Stage).value.next == s3;
    assert Step(es, s3, Launch).Ok? && Step(es, s3, Launch).value.next == s4;
    assert Step(es, s4, DetectFailure).Ok? && Step(es, s4, DetectFailure).value.next == s5;
    hide Step, CanBoot;
    RunCons(es, s4, DetectFailure, []);
    RunCons(es, s3, Launch, [DetectFailure] + []);
    RunCons(es, s2, Stage, [Launch] + ([DetectFailure] + []));
    RunCons(es, s1, Validate, [Stage] + ([Launch] + ([DetectFailure] + [])));
    calls := [Select(c)] + ([Validate] + ([Stage] + ([Launch] + ([DetectFailure] + []))));
    RunCons(es, s0, Select(c), [Validate] + ([Stage] + ([Launch] + ([DetectFailure] + []))));
  }

  /** With two healthy entries and a second try, one failing run is enough for any choice function to be wrong. */
  lemma ChoiceDeparts(es: seq<BootEntry>, maxTries: byte, choose: set<EntryId> -> EntryId) returns (calls: seq<Call>)
    requires maxTries >= 2 && |HealthyIds(es)| >= 2 && ValidChoice(choose)
    ensures Run(es, Begun(maxTries), calls).Some?
    ensures var s := Run(es, Begun(maxTries), calls).value;
            s.phase == Failed && s.selected == Some(choose(BootableIds(es, s))) && BootableIds(es, s) != {}
            && PickFallback(es, s) != s.selected && !Foretells(es, s, choose)
  {
    var ids := HealthyIds(es);
    var c := choose(ids);
    calls := FailingRun(es, c, maxTries);
    var s := Run(es, Begun(maxTries), calls).value;
    assert BootableIds(es, s) == ids;
    assert |{c}| == 1;
    hide Run, PickFallback, Foretells, HealthyIds, BootableIds;
    RetryOnlyAlone(es, s, c);
    assert s.(selected := Some(c)) == s;
    ForetellsExactly(es, s, choose);
  }

  /** Position of the first entry whose id is in the set, or past the end. */
  function FirstAt(es: seq<BootEntry>, ids: set<EntryId>): (k: nat)
    ensures k <= |es|
    ensures forall j :: 0 <= j < k ==> es[j].id !in ids
    ensures k < |es| ==> es[k].id in ids
  {
    FirstWhere(es, (e: BootEntry) => e.id in ids)
  }

  /** The first member of the set in graph order. */
  ghost function FirstListed(es: seq<BootEntry>, ids: set<EntryId>): (x: EntryId)
    ensures ids != {} ==> x in ids
  {
    var k := FirstAt(es, ids);
    if k < |es| then es[k].id
    else if x :| x in ids then x
    else EntryId("")
  }

  /** A charged entry has nothing left when one try is all there is. */
  predicate Spent(s: TxState) {
    s.phase in {Staged, Launched, Failed} && s.selected.Some? ==> TriesLeft(s, s.selected.value) == 0
  }

  lemma {:induction false} RunSpent(es: seq<BootEntry>, s: TxState, calls: seq<Call>)
    requires Inv(es, s) && TriesBounded(s) && s.maxTries == 1 && Spent(s) && Run(es, s, calls).Some?
    ensures var t := Run(es, s, calls).value; Inv(es, t) && Spent(t)
    decreases |calls|
  {
    if calls == [] {
    } else {
      StepInv(es, s, calls[0]);
      StepBounded(es, s, calls[0]);
      StepSpent(es, s, calls[0]);
      hide Inv, TriesBounded, Spent, Step;
      RunSpent(es, Step(es, s, calls[0]).value.next, calls[1..]);
    }
  }

  lemma StepSpent(es: seq<BootEntry>, s: TxState, call: Call)
    requires Inv(es, s) && TriesBounded(s) && s.maxTries == 1 && Spent(s) && Step(es, s, call).Ok?
    ensures Spent(Step(es, s, call).value.next)
  {
    hide Find, PickFallback;
    if call == Stage {
      StageCharges(es, s);
      assert TriesLeft(s, s.selected.value) <= 1;
    }
  }

  /** When the failed entry is spent, the fallback is the first bootable entry in graph order. */
  lemma SpentFallback(es: seq<BootEntry>, s: TxState)
    requires s.phase == Failed && s.selected.Some? && Spent(s) && BootableIds(es, s) != {}
    requires !(s.lastGood.Some? && s.lastGood.value in BootableIds(es, s))
    ensures PickFallback(es, s) == Some(FirstListed(es, BootableIds(es, s)))
  {
    var ids := BootableIds(es, s);
    var k := FirstAt(es, ids);
    assert s.selected.value !in ids;
    assert k < |es| by {
      var x :| x in ids;
      var e :| e in es && e.id == x;
      var j :| 0 <= j < |es| && es[j] == e;
      assert es[j].id in ids;
    }
    forall j | 0 <= j <= k ensures CanBoot(es, s, es[j].id) <==> es[j].id in ids { CanBootIds(es, s, es[j].id); }
    if s.lastGood.Some? { CanBootIds(es, s, s.lastGood.value); }
    hide CanBoot, PickFallback, BootableIds;
    FallbackOrder(es, s);
  }

  lemma FirstListedPredicts(es: seq<BootEntry>, maxTries: byte)
    requires maxTries >= 1 && (maxTries == 1 || |HealthyIds(es)| <= 1)
    ensures Predicts(es, maxTries, ids => FirstListed(es, ids))
  {
    var choose := (ids: set<EntryId>) => FirstListed(es, ids);
    forall calls: seq<Call> |
      Run(es, Begun(maxTries), calls).Some? && Run(es, Begun(maxTries), calls).value.phase == Failed
      && BootableIds(es, Run(es, Begun(maxTries), calls).value) != {}
      ensures Foretells(es, Run(es, Begun(maxTries), calls).value, choose)
    {
      var s := Run(es, Begun(maxTries), calls).value;
      FreshInv(es, Begun(maxTries));
      RunBounded(es, Begun(maxTries), calls);
      if maxTries == 1 { RunSpent(es, Begun(maxTries), calls); }
      OneFailure(es, s, choose, maxTries);
    }
  }

  lemma OneFailure(es: seq<BootEntry>, s: TxState, choose: set<EntryId> -> EntryId, maxTries: byte)
    requires Inv(es, s) && s.phase == Failed && BootableIds(es, s) != {}
    requires forall ids :: choose(ids) == FirstListed(es, ids)
    requires |HealthyIds(es)| <= 1 || Spent(s)
    ensures Foretells(es, s, choose)
  {
    hide FirstListed, Foretells, PickFallback, CanBoot, Find;
    ForetellsExactly(es, s, choose);
    if !(s.lastGood.Some? && s.lastGood.value in BootableIds(es, s)) {
      if |HealthyIds(es)| <= 1 {
        FallbackSound(es, s);
        var x := choose(BootableIds(es, s));
        assert BootableIds(es, s) <= HealthyIds(es);
        Singleton(HealthyIds(es), x);
      } else {
        SpentFallback(es, s);
      }
    }
  }

  /**
   * Some fixed choice function predicts every rollback of every run exactly when entries have a single try
   * or at most one of them is healthy; otherwise the code departs from each one in a run it can take.
   */
  lemma PredictableExactly(es: seq<BootEntry>, maxTries: byte)
    requires maxTries >= 1
    ensures (exists choose: set<EntryId> -> EntryId :: ValidChoice(choose) && Predicts(es, maxTries, choose)) <==>
            maxTries == 1 || |HealthyIds(es)| <= 1
  {
    hide Foretells, HealthyIds, BootableIds, Run;
    if maxTries == 1 || |HealthyIds(es)| <= 1 {
      FirstListedPredicts(es, maxTries);
      assert ValidChoice(ids => FirstListed(es, ids));
    } else {
      forall choose: set<EntryId> -> EntryId | ValidChoice(choose) ensures !Predicts(es, maxTries, choose) {
        var calls := ChoiceDeparts(es, maxTries, choose);
        assert !Foretells(es, Run(es, Begun(maxTries), calls).value, choose);
      }
    }
  }

  lemma Singleton(s: set<EntryId>, x: EntryId)
    requires |s| == 1 && x in s
    ensures s == {x}
  {
    assert |s - {x}| == 0;
  }
}
