/** Bringing the firmware's boot order into line with the desired one, reversibly. */
module Reconcile {
  import opened Basics
  import opened Journal
  import opened Store
  import opened LoadOption

  datatype PlanStep = SetBootOrder(order: seq<u16>)

  datatype Snapshot = Snapshot(bootOrder: Option<seq<u16>>)

  datatype ReconcilePlan = ReconcilePlan(steps: seq<PlanStep>, snapshot: Snapshot) {
    predicate IsNoop() { steps == [] }
  }

  type Variables = map<string, seq<byte>>

  function ReadBootOrder(globals: Variables): Option<seq<u16>> {
    if VAR_BOOT_ORDER in globals then Some(OrderOf(globals[VAR_BOOT_ORDER])) else None
  }

  function PlanBootOrder(globals: Variables, desired: seq<u16>): ReconcilePlan {
    var actual := ReadBootOrder(globals);
    var matches := if actual.Some? then actual.value == desired else desired == [];
    ReconcilePlan(if matches then [] else [SetBootOrder(desired)], Snapshot(actual))
  }

  function WithOrder(globals: Variables, order: seq<u16>): Variables {
    globals[VAR_BOOT_ORDER := UnitsBytes(order)]
  }

  function Applied(globals: Variables, steps: seq<PlanStep>): Variables {
    if steps == [] then globals else WithOrder(Applied(globals, steps[..|steps| - 1]), steps[|steps| - 1].order)
  }

  function Restored(globals: Variables, snapshot: Snapshot): Variables {
    if snapshot.bootOrder.Some? then WithOrder(globals, snapshot.bootOrder.value) else globals - {VAR_BOOT_ORDER}
  }

  /** The writes a list of steps makes, in order. */
  function OrderWrites(steps: seq<PlanStep>): seq<Record> {
    Map(steps, (step: PlanStep) => Wrote(Global, VAR_BOOT_ORDER, UnitsBytes(step.order)))
  }

  lemma OneMoreWrite(steps: seq<PlanStep>, i: nat)
    requires i < |steps|
    ensures OrderWrites(steps[..i + 1]) ==
            OrderWrites(steps[..i]) + [Wrote(Global, VAR_BOOT_ORDER, UnitsBytes(steps[i].order))]
  {
    hide UnitsBytes;
  }

  method Apply(vars: VarStore, plan: ReconcilePlan)
    modifies vars, vars.journal
    ensures vars.globals == Applied(old(vars.globals), plan.steps) && vars.vendor == old(vars.vendor)
    ensures vars.journal.records == old(vars.journal.records) + OrderWrites(plan.steps)
  {
    hide OrderWrites, Applied, UnitsBytes;
    StepsNone(vars.globals);
    assert plan.steps[..0] == [];
    for i := 0 to |plan.steps|
      invariant vars.globals == Applied(old(vars.globals), plan.steps[..i]) && vars.vendor == old(vars.vendor)
      invariant vars.journal.records == old(vars.journal.records) + OrderWrites(plan.steps[..i])
    {
      StepsNext(old(vars.globals), plan.steps, i);
      OneMoreWrite(plan.steps, i);
      var bytes := EncodeBootOrder(plan.steps[i].order);
      vars.Set(Global, VAR_BOOT_ORDER, bytes);
    }
    assert plan.steps[..|plan.steps|] == plan.steps;
  }

  lemma StepsNone(globals: Variables)
    ensures Applied(globals, []) == globals && OrderWrites([]) == []
  {
  }

  lemma StepsNext(globals: Variables, steps: seq<PlanStep>, i: nat)
    requires i < |steps|
    ensures Applied(globals, steps[..i + 1]) == WithOrder(Applied(globals, steps[..i]), steps[i].order)
  {
    assert steps[..i + 1][..i] == steps[..i];
  }

  method Restore(vars: VarStore, snapshot: Snapshot)
    modifies vars, vars.journal
    ensures vars.globals == Restored(old(vars.globals), snapshot) && vars.vendor == old(vars.vendor)
    ensures vars.journal.records == old(vars.journal.records) +
            [if snapshot.bootOrder.Some? then Wrote(Global, VAR_BOOT_ORDER, UnitsBytes(snapshot.bootOrder.value))
             else Deleted(Global, VAR_BOOT_ORDER)]
  {
    if snapshot.bootOrder.Some? {
      var bytes := EncodeBootOrder(snapshot.bootOrder.value);
      vars.Set(Global, VAR_BOOT_ORDER, bytes);
    } else {
      vars.Delete(Global, VAR_BOOT_ORDER);
    }
  }

  function FirstThen(order: seq<u16>, option: u16): seq<u16> {
    [option] + Filter(order, n => n != option)
  }

  method DesiredWithMyBootFirst(vars: VarStore, option: u16) returns (out: seq<u16>)
    ensures var actual := ReadBootOrder(vars.globals);
            out == FirstThen(if actual.Some? then actual.value else [], option)
  {
    out := [option];
    var actual := ReadBootOrder(vars.globals);
    if actual.Some? {
      var order := actual.value;
      ghost var other := (n: u16) => n != option;
      for i := 0 to |order|
        invariant out == [option] + Filter(order[..i], other)
      {
        FilterNext(order, i, other);
        if order[i] != option { out := out + [order[i]]; }
      }
      assert order[..|order|] == order;
    }
  }

  /** Applying a plan establishes the desired order and nothing else; planning again finds nothing to do. */
  lemma AppliedIsDesired(globals: Variables, desired: seq<u16>)
    ensures var after := Applied(globals, PlanBootOrder(globals, desired).steps);
            && ReadBootOrder(after) == (if desired == [] && ReadBootOrder(globals).None? then None else Some(desired))
            && PlanBootOrder(after, desired).IsNoop()
            && after - {"BootOrder"} == globals - {"BootOrder"}
            && (after == globals || after == globals["BootOrder" := UnitsBytes(desired)])
  {
    OrderRoundTrip(desired);
    var steps := PlanBootOrder(globals, desired).steps;
    if steps != [] {
      assert steps[..0] == [];
      assert Applied(globals, steps) == WithOrder(globals, desired);
    }
  }

  /** Restoring the snapshot taken by the plan undoes it. */
  lemma RestoreUndoesApply(globals: Variables, desired: seq<u16>)
    ensures var plan := PlanBootOrder(globals, desired);
            var after := Restored(Applied(globals, plan.steps), plan.snapshot);
            && ReadBootOrder(after) == ReadBootOrder(globals)
            && after - {"BootOrder"} == globals - {"BootOrder"}
  {
    AppliedIsDesired(globals, desired);
    if ReadBootOrder(globals).Some? { OrderRoundTrip(ReadBootOrder(globals).value); }
  }

  /** MyBoot comes first; every other option keeps its multiplicity and relative order. */
  lemma MyBootFirst(order: seq<u16>, option: u16)
    ensures FirstThen(order, option)[0] == option
    ensures Filter(FirstThen(order, option), n => n != option) == Filter(order, n => n != option)
    ensures multiset(FirstThen(order, option))[option] == 1
    ensures FirstThen(FirstThen(order, option), option) == FirstThen(order, option)
  {
    var other := (n: u16) => n != option;
    FilterMembers(order, other);
    FilterTwice(order, other);
    FilterCons(option, Filter(order, other), other);
    assert option !in Filter(order, other);
    assert multiset(FirstThen(order, option)) == multiset{option} + multiset(Filter(order, other));
  }

  lemma {:induction false} FilterTwice(s: seq<u16>, p: u16 -> bool)
    ensures Filter(Filter(s, p), p) == Filter(s, p)
  {
    if s == [] {
    } else {
      FilterTwice(s[1..], p);
      FilterCons(s[0], Filter(s[1..], p), p);
      assert Filter(s, p) == if p(s[0]) then [s[0]] + Filter(s[1..], p) else Filter(s[1..], p);
    }
  }

  /** Once drift is repaired, computing the desired order again changes nothing. */
  lemma RepairIsStable(globals: Variables, option: u16)
    ensures var actual := ReadBootOrder(globals);
            var desired := FirstThen(if actual.Some? then actual.value else [], option);
            var after := Applied(globals, PlanBootOrder(globals, desired).steps);
            && ReadBootOrder(after) == Some(desired)
            && FirstThen(desired, option) == desired
            && PlanBootOrder(after, FirstThen(desired, option)).IsNoop()
  {
    var actual := ReadBootOrder(globals);
    var order := if actual.Some? then actual.value else [];
    AppliedIsDesired(globals, FirstThen(order, option));
    MyBootFirst(order, option);
  }
}
