/**
 * The protocol across boots: every write to the marker and to the last-good variable is one event,
 * so a power cut may fall between any two of them, and the booted system may bless at any time it runs.
 */
module CrossBoot {
  import opened Basics
  import opened Ids
  import opened Store

  datatype Pc =
    | Booting(pending: Option<Marker>)
    | Recorded
    | Ready
    | Charged(id: EntryId)
    | Armed(id: EntryId)
    | Running

  datatype Sys = Sys(pc: Pc, marker: Option<seq<byte>>, lastGood: Option<seq<byte>>)

  datatype Event =
    | PowerOn
    | RecordGood
    | ClearMarker
    | NoPending
    | ChargeEntry(id: EntryId)
    | ArmEntry(id: EntryId)
    | HandOffFailed
    | TakeOver
    | GiveUp
    | BlessPending

  /** One event, where it is possible. A reset is possible everywhere. */
  function Fire(s: Sys, e: Event): (r: Option<Sys>) {
    match e
    case PowerOn => Some(s.(pc := Booting(ReadMarker(s.marker))))
    case RecordGood =>
      if s.pc.Booting? && s.pc.pending.Some? && s.pc.pending.value.confirmed then
        Some(s.(pc := Recorded, lastGood := Some(IdBytes(s.pc.pending.value.entry))))
      else None
    case ClearMarker =>
      if s.pc.Recorded? || (s.pc.Booting? && s.pc.pending.Some? && !s.pc.pending.value.confirmed) then
        Some(s.(pc := Ready, marker := None))
      else None
    case NoPending =>
      if s.pc == Booting(None) then Some(s.(pc := Ready)) else None
    case ChargeEntry(id) =>
      if s.pc.Ready? then Some(s.(pc := Charged(id))) else None
    case ArmEntry(id) =>
      if s.pc == Charged(id) then Some(s.(pc := Armed(id), marker := Some(MarkerBytes(Marker(id, false))))) else None
    case HandOffFailed =>
      if s.pc.Armed? then Some(s.(pc := Ready)) else None
    case TakeOver =>
      if s.pc.Armed? then Some(s.(pc := Running)) else None
    case GiveUp =>
      if s.pc.Ready? then Some(s.(pc := Running)) else None
    case BlessPending =>
      if s.pc.Running? then
        Some(if Blessed(s.marker).Ok? then s.(marker := Some(Blessed(s.marker).value)) else s)
      else None
  }

  /** The state a history leads to, if each of its events was possible. */
  function Exec(s: Sys, evs: seq<Event>): (r: Option<Sys>) {
    if evs == [] then Some(s)
    else
      var p :- Exec(s, evs[..|evs| - 1]);
      Fire(p, evs[|evs| - 1])
  }

  lemma ExecSnoc(s: Sys, evs: seq<Event>, e: Event)
    ensures Exec(s, evs + [e]) == if Exec(s, evs).None? then None else Fire(Exec(s, evs).value, e)
  {
    assert (evs + [e])[..|evs|] == evs;
  }

  lemma {:induction false} ExecAppend(s: Sys, a: seq<Event>, b: seq<Event>)
    ensures Exec(s, a + b) == if Exec(s, a).None? then None else Exec(Exec(s, a).value, b)
  {
    if b == [] {
      assert a + b == a;
    } else {
      var c := b[..|b| - 1];
      ExecAppend(s, a, c);
      assert a + b == (a + c) + [b[|b| - 1]];
      ExecSnoc(s, a + c, b[|b| - 1]);
    }
  }

  // ---- where a marker came from ----

  predicate RewritesMarker(e: Event) { e.ArmEntry? || e.ClearMarker? }

  /** The marker for `id` was written at `i`, right after its charge; -1 stands for the initial store. */
  predicate WrittenAt(s0: Sys, evs: seq<Event>, i: int, id: EntryId) {
    if i == -1 then ReadMarker(s0.marker).Some? && ReadMarker(s0.marker).value.entry == id
    else 1 <= i < |evs| && evs[i - 1] == ChargeEntry(id) && evs[i] == ArmEntry(id)
  }

  predicate KeptSince(evs: seq<Event>, i: int) {
    forall k :: i < k < |evs| && 0 <= k ==> !RewritesMarker(evs[k])
  }

  predicate SamePowerCycle(evs: seq<Event>, i: int, j: int) {
    forall k :: i < k < j && 0 <= k < |evs| ==> !evs[k].PowerOn?
  }

  predicate BlessedAt(evs: seq<Event>, i: int, j: int) {
    i < j < |evs| && 0 <= j && evs[j] == BlessPending && SamePowerCycle(evs, i, j)
  }

  /** The pending marker was armed at `i`; if confirmed, it was blessed before the machine was next reset. */
  ghost predicate ArmedAndBlessed(s0: Sys, evs: seq<Event>, i: int, m: Marker) {
    && i >= -1
    && WrittenAt(s0, evs, i, m.entry)
    && KeptSince(evs, i)
    && (m.confirmed ==>
          (i == -1 && ReadMarker(s0.marker).value.confirmed) || exists j :: BlessedAt(evs, i, j))
  }

  ghost predicate Provenance(s0: Sys, evs: seq<Event>, m: Marker) {
    exists i :: ArmedAndBlessed(s0, evs, i, m)
  }

  /** Some earlier reset found the marker of `id` confirmed, with a proper provenance, and recorded it. */
  ghost predicate Credited(s0: Sys, evs: seq<Event>, id: EntryId) {
    exists k :: 0 <= k < |evs| && evs[k] == RecordGood && Provenance(s0, evs[..k], Marker(id, true))
  }

  /** In a power cycle that has got past the old marker, the marker present was armed in this cycle. */
  ghost predicate Current(s0: Sys, evs: seq<Event>, m: Marker) {
    exists i :: ArmedAndBlessed(s0, evs, i, m) && SamePowerCycle(evs, i, |evs|)
  }

  ghost predicate Inv(s0: Sys, evs: seq<Event>, s: Sys) {
    && (ReadMarker(s.marker).Some? ==> Provenance(s0, evs, ReadMarker(s.marker).value))
    && (s.pc.Booting? ==> s.pc.pending == ReadMarker(s.marker))
    && (!s.pc.Booting? && !s.pc.Recorded? && ReadMarker(s.marker).Some? ==>
        Current(s0, evs, ReadMarker(s.marker).value))
    && (s.lastGood == s0.lastGood || exists id :: s.lastGood == Some(IdBytes(id)) && Credited(s0, evs, id))
  }

  lemma ArmedExtends(s0: Sys, evs: seq<Event>, e: Event, i: int, m: Marker)
    requires ArmedAndBlessed(s0, evs, i, m) && !RewritesMarker(e)
    ensures ArmedAndBlessed(s0, evs + [e], i, m)
  {
    if m.confirmed && !(i == -1 && ReadMarker(s0.marker).value.confirmed) {
      var j :| BlessedAt(evs, i, j);
      assert BlessedAt(evs + [e], i, j);
    }
  }

  lemma CreditExtends(s0: Sys, evs: seq<Event>, e: Event, id: EntryId)
    requires Credited(s0, evs, id)
    ensures Credited(s0, evs + [e], id)
  {
    var k :| 0 <= k < |evs| && evs[k] == RecordGood && Provenance(s0, evs[..k], Marker(id, true));
    assert (evs + [e])[k] == RecordGood && (evs + [e])[..k] == evs[..k];
  }

  lemma ProvenanceExtends(s0: Sys, evs: seq<Event>, e: Event, m: Marker)
    requires Provenance(s0, evs, m) && !RewritesMarker(e)
    ensures Provenance(s0, evs + [e], m)
  {
    var i :| ArmedAndBlessed(s0, evs, i, m);
    ArmedExtends(s0, evs, e, i, m);
  }

  lemma CurrentExtends(s0: Sys, evs: seq<Event>, e: Event, m: Marker)
    requires Current(s0, evs, m) && !RewritesMarker(e) && !e.PowerOn?
    ensures Current(s0, evs + [e], m)
  {
    var i :| ArmedAndBlessed(s0, evs, i, m) && SamePowerCycle(evs, i, |evs|);
    ArmedExtends(s0, evs, e, i, m);
  }

  /** Arming puts a fresh unconfirmed marker in place. */
  lemma ArmStep(s0: Sys, evs: seq<Event>, id: EntryId)
    requires evs != [] && evs[|evs| - 1] == ChargeEntry(id)
    ensures Current(s0, evs + [ArmEntry(id)], Marker(id, false))
  {
    assert ArmedAndBlessed(s0, evs + [ArmEntry(id)], |evs|, Marker(id, false));
  }

  /** Blessing confirms the marker armed in this very cycle. */
  lemma BlessStep(s0: Sys, evs: seq<Event>, m: Marker)
    requires Current(s0, evs, m)
    ensures Current(s0, evs + [BlessPending], m.(confirmed := true))
  {
    var i :| ArmedAndBlessed(s0, evs, i, m) && SamePowerCycle(evs, i, |evs|);
    var next := evs + [BlessPending];
    assert BlessedAt(next, i, |evs|);
    assert ArmedAndBlessed(s0, next, i, m.(confirmed := true));
  }

  /** The charge that put the machine where it is was the previous event. */
  lemma ChargedBefore(s0: Sys, evs: seq<Event>)
    requires !s0.pc.Charged? && Exec(s0, evs).Some? && Exec(s0, evs).value.pc.Charged?
    ensures evs != [] && evs[|evs| - 1] == ChargeEntry(Exec(s0, evs).value.pc.id)
  {
  }

  lemma LastGoodStep(s0: Sys, evs: seq<Event>, s: Sys, e: Event)
    requires Inv(s0, evs, s) && Fire(s, e).Some?
    ensures var t := Fire(s, e).value;
            t.lastGood == s0.lastGood || exists id :: t.lastGood == Some(IdBytes(id)) && Credited(s0, evs + [e], id)
  {
    var t := Fire(s, e).value;
    if e == RecordGood {
      var m := s.pc.pending.value;
      assert m == Marker(m.entry, true);
      assert (evs + [e])[|evs|] == RecordGood && (evs + [e])[..|evs|] == evs;
      assert Credited(s0, evs + [e], m.entry);
    } else if s.lastGood != s0.lastGood {
      var id :| s.lastGood == Some(IdBytes(id)) && Credited(s0, evs, id);
      CreditExtends(s0, evs, e, id);
    }
  }

  lemma MarkerStep(s0: Sys, evs: seq<Event>, s: Sys, e: Event)
    requires Inv(s0, evs, s) && Fire(s, e).Some?
    requires s.pc.Charged? ==> evs != [] && evs[|evs| - 1] == ChargeEntry(s.pc.id)
    ensures var t := Fire(s, e).value;
            ReadMarker(t.marker).Some? ==>
              && Provenance(s0, evs + [e], ReadMarker(t.marker).value)
              && (!t.pc.Booting? && !t.pc.Recorded? ==> Current(s0, evs + [e], ReadMarker(t.marker).value))
  {
    var t := Fire(s, e).value;
    if ReadMarker(t.marker).Some? {
      var m := ReadMarker(t.marker).value;
      if e.ArmEntry? {
        MarkerRoundTrip(Marker(e.id, false));
        ArmStep(s0, evs, e.id);
      } else if e.BlessPending? && Blessed(s.marker).Ok? {
        BlessConfirms(s.marker.value);
        var pending := ReadMarker(s.marker).value;
        MarkerRoundTrip(Marker(pending.entry, true));
        BlessStep(s0, evs, pending);
      } else {
        ProvenanceExtends(s0, evs, e, m);
        if !t.pc.Booting? && !t.pc.Recorded? {
          CurrentExtends(s0, evs, e, m);
        }
      }
    }
  }

  lemma InvStep(s0: Sys, evs: seq<Event>, s: Sys, e: Event)
    requires Inv(s0, evs, s) && Fire(s, e).Some?
    requires s.pc.Charged? ==> evs != [] && evs[|evs| - 1] == ChargeEntry(s.pc.id)
    ensures Inv(s0, evs + [e], Fire(s, e).value)
  {
    LastGoodStep(s0, evs, s, e);
    MarkerStep(s0, evs, s, e);
  }

  lemma InitialInv(s0: Sys)
    requires s0.pc == Running
    ensures Inv(s0, [], s0)
  {
    if ReadMarker(s0.marker).Some? {
      assert ArmedAndBlessed(s0, [], -1, ReadMarker(s0.marker).value);
    }
  }

  /** Over every history of boots, failed hand-offs, power cuts and blessings the invariant holds. */
  lemma {:induction false} HistoryInv(s0: Sys, evs: seq<Event>)
    requires s0.pc == Running && Exec(s0, evs).Some?
    ensures Inv(s0, evs, Exec(s0, evs).value)
  {
    if evs == [] {
      InitialInv(s0);
    } else {
      var past, e := evs[..|evs| - 1], evs[|evs| - 1];
      assert evs == past + [e];
      HistoryInv(s0, past);
      var s := Exec(s0, past).value;
      if s.pc.Charged? { ChargedBefore(s0, past); }
      InvStep(s0, past, s, e);
    }
  }

  /**
   * The last-good variable is what it was, or names an entry whose marker was armed right after its
   * charge, blessed before the next reset, never rewritten in between, and then recorded.
   */
  lemma LastGoodProvenance(s0: Sys, evs: seq<Event>)
    requires s0.pc == Running && Exec(s0, evs).Some?
    ensures var lastGood := Exec(s0, evs).value.lastGood;
            lastGood == s0.lastGood || exists id :: lastGood == Some(IdBytes(id)) && Credited(s0, evs, id)
  {
    HistoryInv(s0, evs);
  }

  /** From a store without a readable marker, the credited entry was armed and blessed within the history. */
  lemma CreditedWithin(s0: Sys, evs: seq<Event>, id: EntryId)
    requires ReadMarker(s0.marker).None? && Credited(s0, evs, id)
    ensures exists i, j :: 1 <= i < j < |evs| && evs[i - 1] == ChargeEntry(id) && evs[i] == ArmEntry(id)
              && BlessedAt(evs, i, j)
  {
    var k :| 0 <= k < |evs| && evs[k] == RecordGood && Provenance(s0, evs[..k], Marker(id, true));
    var i :| ArmedAndBlessed(s0, evs[..k], i, Marker(id, true));
    var j :| BlessedAt(evs[..k], i, j);
    assert BlessedAt(evs, i, j);
  }

  /** An unconfirmed marker never changes the last-good variable: only recording a confirmed one does. */
  lemma OnlyConfirmedRecorded(s: Sys, e: Event)
    requires Fire(s, e).Some? && Fire(s, e).value.lastGood != s.lastGood
    ensures s.pc.Booting? && s.pc.pending.Some? && s.pc.pending.value.confirmed
    ensures Fire(s, e).value.lastGood == Some(IdBytes(s.pc.pending.value.entry))
  {
  }

  // ---- what a credit does not prove ----

  function At(s0: Sys, evs: seq<Event>, n: nat): Option<Sys>
    requires n <= |evs|
  {
    Exec(s0, evs[..n])
  }

  lemma {:induction false} PrefixExec(s0: Sys, evs: seq<Event>, n: nat)
    requires n <= |evs| && Exec(s0, evs).Some?
    ensures At(s0, evs, n).Some?
    ensures n < |evs| ==>
            Fire(At(s0, evs, n).value, evs[n]).Some? && At(s0, evs, n + 1) == Fire(At(s0, evs, n).value, evs[n])
    decreases |evs| - n
  {
    assert evs[..|evs|] == evs;
    if n < |evs| {
      PrefixExec(s0, evs, n + 1);
      assert evs[..n + 1][..n] == evs[..n];
    }
  }

  lemma HandOffOutcome(s0: Sys, evs: seq<Event>, i: nat)
    requires Exec(s0, evs).Some? && i + 1 < |evs| && evs[i].ArmEntry? && !evs[i + 1].PowerOn?
    ensures At(s0, evs, i + 2).Some?
    ensures evs[i + 1] == TakeOver || evs[i + 1] == HandOffFailed
    ensures At(s0, evs, i + 2).value.pc == if evs[i + 1] == TakeOver then Running else Ready
  {
    PrefixExec(s0, evs, i);
    PrefixExec(s0, evs, i + 1);
  }

  /** What may follow what: a reset may follow anything, a charge leads to its own marker, a marker to a hand-off. */
  predicate MayFollow(a: Event, b: Event) {
    || b.PowerOn?
    || match a
       case PowerOn => b.RecordGood? || b.ClearMarker? || b.NoPending?
       case RecordGood => b.ClearMarker?
       case ChargeEntry(id) => b == ArmEntry(id)
       case ArmEntry(_) => b.TakeOver? || b.HandOffFailed?
       case ClearMarker => b.ChargeEntry? || b.GiveUp?
       case NoPending => b.ChargeEntry? || b.GiveUp?
       case HandOffFailed => b.ChargeEntry? || b.GiveUp?
       case TakeOver => b.BlessPending?
       case GiveUp => b.BlessPending?
       case BlessPending => b.BlessPending?
  }

  /** In every history each event is one that may follow the event before it. */
  lemma Succession(s0: Sys, evs: seq<Event>, i: nat)
    requires Exec(s0, evs).Some? && i + 1 < |evs|
    ensures MayFollow(evs[i], evs[i + 1])
  {
    hide Fire, MayFollow;
    PrefixExec(s0, evs, i);
    PrefixExec(s0, evs, i + 1);
    TwoSteps(At(s0, evs, i).value, evs[i], evs[i + 1]);
  }

  lemma TwoSteps(s: Sys, a: Event, b: Event)
    requires Fire(s, a).Some? && Fire(Fire(s, a).value, b).Some?
    ensures MayFollow(a, b)
  {
    hide ReadMarker, Blessed, IdBytes, MarkerBytes;
  }

  /** Once something has taken over, MyBoot does not act again before a reset. */
  lemma {:induction false} AfterTakeOver(s0: Sys, evs: seq<Event>, i: nat, n: nat)
    requires Exec(s0, evs).Some? && i + 2 <= n <= |evs| && evs[i].ArmEntry? && evs[i + 1] == TakeOver
    requires forall k :: i < k < n ==> !evs[k].PowerOn?
    ensures At(s0, evs, n).Some? && At(s0, evs, n).value.pc == Running
    ensures forall k :: i < k < n ==> evs[k] != GiveUp
    decreases n
  {
    if n == i + 2 {
      HandOffOutcome(s0, evs, i);
    } else {
      AfterTakeOver(s0, evs, i, n - 1);
      PrefixExec(s0, evs, n - 1);
    }
  }

  /** After a failed hand-off nothing runs unless another entry is armed or MyBoot gives up. */
  lemma {:induction false} AfterFailure(s0: Sys, evs: seq<Event>, i: nat, n: nat)
    requires Exec(s0, evs).Some? && i + 2 <= n <= |evs| && evs[i].ArmEntry? && evs[i + 1] == HandOffFailed
    requires forall k :: i < k < n ==> !RewritesMarker(evs[k]) && !evs[k].PowerOn? && evs[k] != GiveUp
    ensures At(s0, evs, n).Some? && (At(s0, evs, n).value.pc.Ready? || At(s0, evs, n).value.pc.Charged?)
    decreases n
  {
    if n == i + 2 {
      HandOffOutcome(s0, evs, i);
    } else {
      AfterFailure(s0, evs, i, n - 1);
      PrefixExec(s0, evs, n - 1);
    }
  }

  /**
   * A blessed entry really took over exactly when the boot manager did not give up in between;
   * otherwise something else was running and its blessing was credited to a failed hand-off.
   */
  lemma CreditedRan(s0: Sys, evs: seq<Event>, i: nat, j: nat)
    requires Exec(s0, evs).Some? && i < j < |evs| && evs[i].ArmEntry? && BlessedAt(evs, i, j)
    requires forall k :: i < k < j ==> !RewritesMarker(evs[k])
    ensures i + 1 < j
    ensures evs[i + 1] == TakeOver <==> forall k :: i < k < j ==> evs[k] != GiveUp
  {
    hide ReadMarker, Blessed, IdBytes, MarkerBytes;
    PrefixExec(s0, evs, i);
    PrefixExec(s0, evs, i + 1);
    assert i + 1 < j;
    HandOffOutcome(s0, evs, i);
    PrefixExec(s0, evs, j);
    if evs[i + 1] == TakeOver {
      AfterTakeOver(s0, evs, i, j);
    } else if forall k :: i < k < j ==> evs[k] != GiveUp {
      AfterFailure(s0, evs, i, j);
    }
  }

  /** One boot whose only hand-off fails: the unconfirmed marker stays behind. */
  lemma FailedBoot(id: EntryId) returns (evs: seq<Event>)
    ensures Exec(Sys(Running, None, None), evs) == Some(Sys(Running, Some(MarkerBytes(Marker(id, false))), None))
    ensures TakeOver !in evs
  {
    var s0 := Sys(Running, None, None);
    var armed := Some(MarkerBytes(Marker(id, false)));
    evs := [];
    ExecSnoc(s0, evs, PowerOn);
    evs := evs + [PowerOn];
    assert Exec(s0, evs) == Some(Sys(Booting(None), None, None));
    ExecSnoc(s0, evs, NoPending);
    evs := evs + [NoPending];
    ExecSnoc(s0, evs, ChargeEntry(id));
    evs := evs + [ChargeEntry(id)];
    assert Exec(s0, evs) == Some(Sys(Charged(id), None, None));
    ExecSnoc(s0, evs, ArmEntry(id));
    evs := evs + [ArmEntry(id)];
    ExecSnoc(s0, evs, HandOffFailed);
    evs := evs + [HandOffFailed];
    assert Exec(s0, evs) == Some(Sys(Ready, armed, None));
    ExecSnoc(s0, evs, GiveUp);
    evs := evs + [GiveUp];
  }

  /** A history that credits an entry although its only hand-off failed. */
  lemma FailedHandOffCredited(id: EntryId) returns (evs: seq<Event>)
    requires id.text != ""
    ensures Exec(Sys(Running, None, None), evs).Some?
    ensures Exec(Sys(Running, None, None), evs).value.lastGood == Some(IdBytes(id))
    ensures TakeOver !in evs
  {
    var s0 := Sys(Running, None, None);
    var confirmed := Some(MarkerBytes(Marker(id, true)));
    BlessFlips(Marker(id, false));
    MarkerRoundTrip(Marker(id, true));
    evs := FailedBoot(id);
    ExecSnoc(s0, evs, BlessPending);
    evs := evs + [BlessPending];
    assert Exec(s0, evs) == Some(Sys(Running, confirmed, None));
    ExecSnoc(s0, evs, PowerOn);
    evs := evs + [PowerOn];
    assert Exec(s0, evs) == Some(Sys(Booting(Some(Marker(id, true))), confirmed, None));
    ExecSnoc(s0, evs, RecordGood);
    evs := evs + [RecordGood];
  }
}
