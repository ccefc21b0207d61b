/**
 * What the boot manager should decide, said of the store, the configuration and the health of the entries alone:
 * the decision's own inputs and its ranking do not appear here.
 */
module Choices {
  import opened Basics
  import opened Ids
  import opened Sorting
  import opened Graph
  import opened Policy
  import opened Store
  import Utf8

  /** The stored last-good variable names this entry. */
  predicate LastGoodIs(store: map<string, seq<byte>>, id: EntryId) {
    "LastGood" in store && store["LastGood"] == Utf8.Encode(id.text)
  }

  /** The entry with this id is healthy or merely degraded; of several with one id the first counts. */
  ghost predicate Usable(es: seq<BootEntry>, id: EntryId) {
    exists i :: 0 <= i < |es| && es[i].id == id && First(es, i) && (es[i].health.Healthy? || es[i].health.Degraded?)
  }

  /** The first healthy entry, or the first degraded one when none is healthy. */
  ghost predicate FirstOfHealthiest(es: seq<BootEntry>, id: EntryId) {
    || (exists i :: 0 <= i < |es| && es[i].id == id && es[i].health.Healthy?
          && forall j :: 0 <= j < i ==> !es[j].health.Healthy?)
    || (exists i :: 0 <= i < |es| && es[i].id == id && es[i].health.Degraded?
          && (forall j :: 0 <= j < |es| ==> !es[j].health.Healthy?)
          && forall j :: 0 <= j < i ==> !es[j].health.Degraded?)
  }

  /** What the strategy asks for: the last good entry where it counts, and the configured default otherwise. */
  ghost predicate Wanted(
    store: map<string, seq<byte>>, configuredDefault: Option<EntryId>, strategy: Strategy, id: EntryId, why: Reason)
  {
    || (strategy == LastGoodThenDefault && LastGoodIs(store, id) && why == LastGood)
    || (configuredDefault == Some(id) && why == ConfiguredDefault
        && (strategy == PreferDefault || forall x :: !LastGoodIs(store, x)))
  }

  predicate NothingUsable(es: seq<BootEntry>) {
    forall i :: 0 <= i < |es| ==> !es[i].health.Healthy? && !es[i].health.Degraded?
  }

  /** The first of the healthiest is chosen, for this reason, if anything is. */
  ghost predicate HealthiestChosen(es: seq<BootEntry>, decision: Option<Decision>, why: Reason) {
    decision.Some? ==> FirstOfHealthiest(es, decision.value.chosen) && decision.value.reason == why
  }

  /** What is wanted is chosen when it can be booted. Otherwise the reason names what was passed over. */
  ghost predicate Honoured(es: seq<BootEntry>, decision: Option<Decision>, id: EntryId, why: Reason) {
    if Usable(es, id) then decision == Some(Decision(id, why))
    else HealthiestChosen(es, decision, FellBackToHealthiest(id.text))
  }

  /**
   * What is wanted is honoured, and when nothing is wanted the first of the healthiest is chosen. Nothing is chosen
   * only when nothing can be booted.
   */
  ghost predicate RightChoice(
    es: seq<BootEntry>, store: map<string, seq<byte>>, configuredDefault: Option<EntryId>, strategy: Strategy,
    decision: Option<Decision>)
  {
    && (decision.None? <==> NothingUsable(es))
    && (forall id, why :: Wanted(store, configuredDefault, strategy, id, why) ==> Honoured(es, decision, id, why))
    && ((forall id, why :: !Wanted(store, configuredDefault, strategy, id, why)) ==>
          HealthiestChosen(es, decision, HealthiestAvailable))
  }

  // ---- the ranking ----

  predicate IsHealthy(e: BootEntry) { e.health.Healthy? }

  predicate IsDegraded(e: BootEntry) { e.health.Degraded? }

  /** Where an entry goes in a list of healthy entries followed by degraded ones. */
  lemma {:induction false} InsertRanked(x: BootEntry, h: seq<BootEntry>, d: seq<BootEntry>)
    requires (forall e :: e in h ==> IsHealthy(e)) && (forall e :: e in d ==> IsDegraded(e))
    ensures IsHealthy(x) ==> Insert(x, h + d, HealthLe) == [x] + h + d
    ensures IsDegraded(x) ==> Insert(x, h + d, HealthLe) == h + ([x] + d)
    decreases |h|
  {
    var s := h + d;
    if h == [] {
      assert s == d;
      assert [x] + h + d == [x] + d && h + ([x] + d) == [x] + d;
      assert d != [] ==> d[0] in d;
    } else {
      assert h[0] in h && s[0] == h[0];
      if IsDegraded(x) {
        AppendTail(h, d);
        InsertRanked(x, h[1..], d);
        assert [h[0]] + (h[1..] + ([x] + d)) == h + ([x] + d);
      } else {
        assert [x] + h + d == [x] + s;
      }
    }
  }

  /** The ranking lists the healthy entries in the order of the graph, then the degraded ones in theirs. */
  lemma {:induction false} RankedExactly(es: seq<BootEntry>)
    ensures RankedEntries(es) == Filter(es, IsHealthy) + Filter(es, IsDegraded)
  {
    if es == [] {
    } else {
      var x, t := es[0], es[1..];
      RankedExactly(t);
      FilterMembers(t, IsHealthy);
      FilterMembers(t, IsDegraded);
      InsertRanked(x, Filter(t, IsHealthy), Filter(t, IsDegraded));
      assert es == [x] + t;
      FilterCons(x, t, IsHealthy);
      FilterCons(x, t, IsDegraded);
      RankedCons(x, t);
      AppendAssociative([x], Filter(t, IsHealthy), Filter(t, IsDegraded));
    }
  }

  lemma RankedCons(x: BootEntry, t: seq<BootEntry>)
    ensures RankedEntries([x] + t) ==
            if IsHealthy(x) || IsDegraded(x) then Insert(x, RankedEntries(t), HealthLe) else RankedEntries(t)
  {
    FilterCons(x, t, (e: BootEntry) => e.Bootable());
    var b := BootableEntries(t);
    assert ([x] + b)[1..] == b;
  }

  lemma {:induction false} FilterHead<T(!new)>(s: seq<T>, p: T -> bool)
    ensures Filter(s, p) == [] <==> forall j :: 0 <= j < |s| ==> !p(s[j])
    ensures Filter(s, p) != [] ==> exists i :: 0 <= i < |s| && s[i] == Filter(s, p)[0] && p(s[i])
                                     && forall j :: 0 <= j < i ==> !p(s[j])
  {
    if s == [] {
    } else {
      var t := s[1..];
      FilterHead(t, p);
      assert forall j :: 0 <= j < |t| ==> s[j + 1] == t[j];
      assert forall j :: 0 < j < |s| ==> s[j] == t[j - 1];
      if !p(s[0]) && Filter(t, p) != [] {
        var i :| 0 <= i < |t| && t[i] == Filter(t, p)[0] && p(t[i]) && forall j :: 0 <= j < i ==> !p(t[j]);
        assert s[i + 1] == Filter(s, p)[0];
      } else if p(s[0]) {
        assert s[0] == Filter(s, p)[0];
      }
    }
  }

  lemma HeadOfRanking(es: seq<BootEntry>)
    ensures RankedCandidates(es) == [] <==> NothingUsable(es)
    ensures RankedCandidates(es) != [] ==> FirstOfHealthiest(es, RankedCandidates(es)[0])
  {
    RankedExactly(es);
    FilterHead(es, IsHealthy);
    FilterHead(es, IsDegraded);
    hide Filter, RankedEntries;
    var h, d := Filter(es, IsHealthy), Filter(es, IsDegraded);
    assert |RankedCandidates(es)| == |h + d|;
    if h + d != [] { assert RankedCandidates(es)[0] == (if h != [] then h[0] else d[0]).id; }
  }

  lemma UsableExactly(es: seq<BootEntry>, id: EntryId)
    ensures Usable(es, id) <==> IsBootable(es, id)
  {
    if IsBootable(es, id) {
      var i := FindAt(es, id);
    }
    if Usable(es, id) {
      var i :| 0 <= i < |es| && es[i].id == id && First(es, i) && (es[i].health.Healthy? || es[i].health.Degraded?);
      FirstFound(es, i);
    }
  }

  // ---- the stored id ----

  lemma LastGoodRead(store: map<string, seq<byte>>, id: EntryId)
    ensures ReadId(Lookup(store, VAR_LAST_GOOD)) == Ok(Some(id)) <==> LastGoodIs(store, id)
  {
    Utf8.RoundTrip(id.text);
    var bytes := Lookup(store, VAR_LAST_GOOD);
    if bytes.Some? && Utf8.Decode(bytes.value).Some? { Utf8.DecodedExact(bytes.value); }
  }

  lemma NoLastGood(store: map<string, seq<byte>>)
    ensures (forall id :: !LastGoodIs(store, id)) <==>
            ReadId(Lookup(store, VAR_LAST_GOOD)).Err? || ReadId(Lookup(store, VAR_LAST_GOOD)) == Ok(None)
  {
    var read := ReadId(Lookup(store, VAR_LAST_GOOD));
    if read.Ok? && read.value.Some? { LastGoodRead(store, read.value.value); }
    forall id ensures LastGoodIs(store, id) ==> read == Ok(Some(id)) { LastGoodRead(store, id); }
  }

  // ---- the decision ----

  /** A one-shot entry goes before everything else, whenever it can be booted. */
  lemma OneShotFirst(
    es: seq<BootEntry>, history: History, strategy: Strategy, decision: Option<Decision>, id: EntryId)
    requires Decided(es, history, strategy, decision) && history.oneShot == Some(id) && Usable(es, id)
    ensures decision == Some(Decision(id, OneShot))
  {
    UsableExactly(es, id);
    hide Usable, IsBootable, RankedCandidates;
  }

  /** What is wanted is what the decision calls preferred, for the reason it gives. */
  lemma WantedExactly(store: map<string, seq<byte>>, history: History, strategy: Strategy)
    requires forall id :: LastGoodIs(store, id) <==> history.lastGood == Some(id)
    ensures forall id, why :: Wanted(store, history.configuredDefault, strategy, id, why) <==>
              Preferred(history, strategy) == Some(id) && why == ReasonFor(history, strategy)
  {
    hide LastGoodIs;
    if history.lastGood.Some? { assert LastGoodIs(store, history.lastGood.value); }
  }

  /** The reason for the entry a strategy prefers. */
  function ReasonFor(history: History, strategy: Strategy): Reason {
    if strategy == LastGoodThenDefault && history.lastGood.Some? then LastGood else ConfiguredDefault
  }

  lemma DecidedParts(es: seq<BootEntry>, history: History, strategy: Strategy, decision: Option<Decision>)
    requires Decided(es, history, strategy, decision)
    requires history.oneShot.Some? ==> !IsBootable(es, history.oneShot.value)
    ensures decision.None? <==> RankedCandidates(es) == []
    ensures var preferred := Preferred(history, strategy);
            if preferred.Some? && IsBootable(es, preferred.value) then
              decision == Some(Decision(preferred.value, ReasonFor(history, strategy)))
            else
              decision.Some? ==> decision.value == Decision(
                RankedCandidates(es)[0],
                if preferred.Some? then FellBackToHealthiest(preferred.value.text) else HealthiestAvailable)
  {
    hide RankedCandidates, IsBootable, Preferred;
  }

  lemma PreferredHonoured(es: seq<BootEntry>, history: History, strategy: Strategy, decision: Option<Decision>)
    requires Decided(es, history, strategy, decision)
    requires history.oneShot.Some? ==> !IsBootable(es, history.oneShot.value)
    ensures var preferred := Preferred(history, strategy);
            if preferred.Some? then Honoured(es, decision, preferred.value, ReasonFor(history, strategy))
            else HealthiestChosen(es, decision, HealthiestAvailable)
  {
    HeadOfRanking(es);
    DecidedParts(es, history, strategy, decision);
    if Preferred(history, strategy).Some? { UsableExactly(es, Preferred(history, strategy).value); }
    hide Usable, FirstOfHealthiest, RankedCandidates, IsBootable, Preferred, ReasonFor, Decided;
  }

  /** A decision as specified, on a history that says what the store holds, is the right choice. */
  lemma DecidedRight(
    es: seq<BootEntry>, store: map<string, seq<byte>>, history: History, strategy: Strategy,
    decision: Option<Decision>)
    requires Decided(es, history, strategy, decision)
    requires history.oneShot.Some? ==> !Usable(es, history.oneShot.value)
    requires forall id :: LastGoodIs(store, id) <==> history.lastGood == Some(id)
    ensures RightChoice(es, store, history.configuredDefault, strategy, decision)
  {
    if history.oneShot.Some? { UsableExactly(es, history.oneShot.value); }
    HeadOfRanking(es);
    WantedExactly(store, history, strategy);
    DecidedParts(es, history, strategy, decision);
    PreferredHonoured(es, history, strategy, decision);
    hide *;
    RightBy(es, store, history.configuredDefault, strategy, decision, Preferred(history, strategy),
        ReasonFor(history, strategy));
  }

  lemma RightBy(
    es: seq<BootEntry>, store: map<string, seq<byte>>, configuredDefault: Option<EntryId>, strategy: Strategy,
    decision: Option<Decision>, preferred: Option<EntryId>, reason: Reason)
    requires decision.None? <==> NothingUsable(es)
    requires forall id, why ::
               Wanted(store, configuredDefault, strategy, id, why) <==> preferred == Some(id) && why == reason
    requires if preferred.Some? then Honoured(es, decision, preferred.value, reason)
             else HealthiestChosen(es, decision, HealthiestAvailable)
    ensures RightChoice(es, store, configuredDefault, strategy, decision)
  {
    hide Wanted, Honoured, HealthiestChosen, NothingUsable;
    assert preferred.Some? ==> Wanted(store, configuredDefault, strategy, preferred.value, reason);
  }
}
