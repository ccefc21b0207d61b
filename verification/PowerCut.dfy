/** The protocol's events as the records they leave, and what a power cut between any two records preserves. */
module PowerCut {
  import opened Basics
  import opened Journal
  import opened Store
  import opened CrossBoot

  /** What one event leaves behind. */
  function RecordsOf(s: Sys, e: Event): (r: seq<Record>)
    requires Fire(s, e).Some?
    ensures |r| <= 1
  {
    match e
    case PowerOn => []
    case RecordGood => [Wrote(Vendor, VAR_LAST_GOOD, IdBytes(s.pc.pending.value.entry))]
    case ClearMarker => [Deleted(Vendor, VAR_BOOT_ATTEMPT)]
    case NoPending => []
    case ChargeEntry(id) => [Record.Charged(id)]
    case ArmEntry(id) => [Wrote(Vendor, VAR_BOOT_ATTEMPT, MarkerBytes(Marker(id, false)))]
    case HandOffFailed => [HandedOver(s.pc.id, false)]
    case TakeOver => [HandedOver(s.pc.id, true)]
    case GiveUp => []
    case BlessPending =>
      if Blessed(s.marker).Ok? then [Wrote(Vendor, VAR_BOOT_ATTEMPT, Blessed(s.marker).value)] else []
  }

  /** The records of a history, in order. */
  function Trace(s: Sys, evs: seq<Event>): (r: seq<Record>)
    requires Exec(s, evs).Some?
  {
    if evs == [] then []
    else
      var past := evs[..|evs| - 1];
      Trace(s, past) + RecordsOf(Exec(s, past).value, evs[|evs| - 1])
  }

  lemma TraceSnoc(s: Sys, evs: seq<Event>, e: Event)
    requires Exec(s, evs + [e]).Some?
    ensures Exec(s, evs).Some? && Fire(Exec(s, evs).value, e).Some?
    ensures Trace(s, evs + [e]) == Trace(s, evs) + RecordsOf(Exec(s, evs).value, e)
  {
    ExecSnoc(s, evs, e);
    assert (evs + [e])[..|evs|] == evs;
  }

  lemma {:induction false} TraceAppend(s: Sys, a: seq<Event>, b: seq<Event>)
    requires Exec(s, a).Some? && Exec(Exec(s, a).value, b).Some?
    ensures Exec(s, a + b).Some?
    ensures Trace(s, a + b) == Trace(s, a) + Trace(Exec(s, a).value, b)
  {
    ExecAppend(s, a, b);
    if b == [] {
      assert a + b == a;
      assert Trace(s, a) + [] == Trace(s, a);
    } else {
      hide RecordsOf, Fire;
      var c, e := b[..|b| - 1], b[|b| - 1];
      assert b == c + [e];
      AppendAssociative(a, c, [e]);
      ExecSnoc(Exec(s, a).value, c, e);
      ExecAppend(s, a, c);
      TraceAppend(s, a, c);
      TraceSnoc(s, a + c, e);
      TraceSnoc(Exec(s, a).value, c, e);
      AppendAssociative(Trace(s, a), Trace(Exec(s, a).value, c), RecordsOf(Exec(s, a + c).value, e));
    }
  }

  // ---- the store a journal describes ----

  function ReplayOne(vars: map<string, seq<byte>>, r: Record): map<string, seq<byte>> {
    match r
    case Wrote(Vendor, name, value) => vars[name := value]
    case Deleted(Vendor, name) => vars - {name}
    case _ => vars
  }

  /** The vendor variables after the recorded writes. */
  function Replay(vars: map<string, seq<byte>>, records: seq<Record>): map<string, seq<byte>> {
    if records == [] then vars
    else ReplayOne(Replay(vars, records[..|records| - 1]), records[|records| - 1])
  }

  /** The store holds the two variables the protocol speaks of. */
  predicate Shows(s: Sys, vars: map<string, seq<byte>>) {
    s.marker == Lookup(vars, VAR_BOOT_ATTEMPT) && s.lastGood == Lookup(vars, VAR_LAST_GOOD)
  }

  lemma FireShows(s: Sys, vars: map<string, seq<byte>>, e: Event)
    requires Fire(s, e).Some? && Shows(s, vars)
    ensures Shows(Fire(s, e).value, Replay(vars, RecordsOf(s, e)))
  {
    hide MarkerBytes, IdBytes, Blessed, ReadMarker;
    var records := RecordsOf(s, e);
    if records == [] {
    } else {
      assert records[..0] == [] && Replay(vars, records) == ReplayOne(vars, records[0]);
    }
  }

  lemma ReplayTail(vars: map<string, seq<byte>>, a: seq<Record>, b: seq<Record>)
    requires |b| <= 1
    ensures Replay(vars, a + b) == Replay(Replay(vars, a), b)
  {
    if b == [] {
      assert a + b == a;
    } else {
      assert (a + b)[..|a|] == a && b[..0] == [];
    }
  }

  /** Replaying the records of a history gives the store the history ends with. */
  lemma {:induction false} TraceShows(s: Sys, vars: map<string, seq<byte>>, evs: seq<Event>)
    requires Exec(s, evs).Some? && Shows(s, vars)
    ensures Shows(Exec(s, evs).value, Replay(vars, Trace(s, evs)))
  {
    if evs == [] {
    } else {
      hide RecordsOf, Fire, Shows;
      var past, e := evs[..|evs| - 1], evs[|evs| - 1];
      TraceShows(s, vars, past);
      FireShows(Exec(s, past).value, Replay(vars, Trace(s, past)), e);
      ReplayTail(vars, Trace(s, past), RecordsOf(Exec(s, past).value, e));
    }
  }

  /** Every point of the journal is reached by some prefix of the history. */
  lemma {:induction false} TraceCut(s: Sys, evs: seq<Event>, m: nat) returns (n: nat)
    requires Exec(s, evs).Some? && m <= |Trace(s, evs)|
    ensures n <= |evs| && Exec(s, evs[..n]).Some? && Trace(s, evs[..n]) == Trace(s, evs)[..m]
  {
    if m == |Trace(s, evs)| {
      n := |evs|;
      assert evs[..n] == evs && Trace(s, evs)[..m] == Trace(s, evs);
    } else {
      hide RecordsOf, Fire;
      var past := evs[..|evs| - 1];
      n := TraceCut(s, past, m);
      assert evs[..n] == past[..n];
      assert Trace(s, evs)[..m] == Trace(s, past)[..m];
    }
  }

  // ---- the guarantee ----

  /** The last-good variable of a store is the initial one, or credited by the history. */
  ghost predicate LastGoodEarned(s0: Sys, evs: seq<Event>, vars: map<string, seq<byte>>) {
    Lookup(vars, VAR_LAST_GOOD) == s0.lastGood
    || exists id :: Lookup(vars, VAR_LAST_GOOD) == Some(IdBytes(id)) && Credited(s0, evs, id)
  }

  /**
   * Power may be cut after any number of a boot's records. The store then is one that a prefix of the protocol's
   * events leaves, its last-good variable is still earned, and the next boot may start from there.
   */
  lemma PowerCutSafe(s0: Sys, past: seq<Event>, before: map<string, seq<byte>>, events: seq<Event>, m: nat)
    returns (n: nat)
    requires s0.pc == Running && Exec(s0, past).Some? && Shows(Exec(s0, past).value, before)
    requires Exec(Exec(s0, past).value, events).Some? && m <= |Trace(Exec(s0, past).value, events)|
    ensures n <= |events| && Exec(s0, past + events[..n]).Some?
    ensures var after := Replay(before, Trace(Exec(s0, past).value, events)[..m]);
            && Shows(Exec(s0, past + events[..n]).value, after)
            && LastGoodEarned(s0, past + events[..n], after)
    ensures Exec(s0, past + events[..n] + [PowerOn]).Some?
  {
    var s := Exec(s0, past).value;
    n := TraceCut(s, events, m);
    TraceShows(s, before, events[..n]);
    ExecAppend(s0, past, events[..n]);
    LastGoodProvenance(s0, past + events[..n]);
    ExecSnoc(s0, past + events[..n], PowerOn);
  }
}
