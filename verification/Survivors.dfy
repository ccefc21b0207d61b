/** Which discoveries survive merging and both filters, said of their attributes instead of their ids. */
module Survivors {
  import opened Basics
  import opened Ids
  import opened Graph
  import opened Collisions
  import opened Discovery
  import opened Twins

  /** Two descriptions of one entry: equal kind, role, loader and volume, as ids see them. */
  predicate SameEntry(q: RawEntry, r: RawEntry) { IsTwin(q, r) && NormalOption(q.volume) == NormalOption(r.volume) }

  predicate Plain(raw: seq<RawEntry>) {
    forall r :: r in raw ==> Taggable(r) && PlainRole(r.role) && OptionFree(r.loader, '@')
  }

  /** Some description of the entry has something to launch. */
  predicate Launches(raw: seq<RawEntry>, r: RawEntry) {
    exists q :: q in raw && SameEntry(q, r) && (q.loader.Some? || q.kernel.Some?)
  }

  ghost predicate Survives(raw: seq<RawEntry>, r: RawEntry)
    requires forall q :: q in raw ==> Taggable(q)
  {
    exists e :: e in Kept(ToEntries(raw)) && e.id == IdOfRaw(r)
  }

  lemma {:induction false} FirstPresentSome(g: seq<BootEntry>, field: BootEntry -> Option<string>)
    ensures FirstPresent(g, field).Some? <==> exists x :: x in g && field(x).Some?
  {
    if g == [] {
    } else {
      FirstPresentSome(g[1..], field);
      assert g == [g[0]] + g[1..];
    }
  }

  lemma {:induction false} GroupMembers(es: seq<BootEntry>, id: EntryId)
    ensures forall x :: x in Group(es, id) <==> x in es && x.id == id
  {
    if es == [] {
    } else {
      GroupMembers(es[..|es| - 1], id);
      assert es == es[..|es| - 1] + [es[|es| - 1]];
    }
  }

  lemma SameIds(raw: seq<RawEntry>, q: RawEntry, r: RawEntry)
    requires Plain(raw) && q in raw && r in raw
    ensures IdOfRaw(q) == IdOfRaw(r) <==> SameEntry(q, r)
  {
    ScopedInjective(q.kind, q.role, q.loader, q.volume, r.kind, r.role, r.loader, r.volume);
  }

  /** The merged entries with this id: one for each id that was discovered. */
  lemma MergedFor(es: seq<BootEntry>, id: EntryId)
    ensures forall e :: e in MergeAll(es) && e.id == id ==> Represents(Group(es, id), e)
    ensures (exists x :: x in es && x.id == id) ==> exists e :: e in MergeAll(es) && e.id == id
  {
    MergeFaithful(es);
    hide Represents, MergeAll, DistinctIds;
    var acc := MergeAll(es);
    forall e | e in acc && e.id == id ensures Represents(Group(es, id), e) {
      var k :| 0 <= k < |acc| && acc[k] == e;
    }
    if exists x :: x in es && x.id == id {
      DistinctIdsHas(es, id);
      var k :| 0 <= k < |DistinctIds(es)| && DistinctIds(es)[k] == id;
      assert Map(acc, IdAt)[k] == acc[k].id;
      assert acc[k] in acc && acc[k].id == id;
    }
  }

  lemma DistinctIdsHas(es: seq<BootEntry>, id: EntryId)
    requires exists x :: x in es && x.id == id
    ensures id in DistinctIds(es)
  {
  }

  /** What the merged entry has to launch, and whether it is tied to a volume, is said by its descriptions. */
  lemma MergedAttributes(raw: seq<RawEntry>, r: RawEntry, e: BootEntry)
    requires Plain(raw) && r in raw && e in MergeAll(ToEntries(raw)) && e.id == IdOfRaw(r)
    ensures Launchable(e) <==> Launches(raw, r)
    ensures e.volume.Some? <==> r.volume.Some?
  {
    var es := ToEntries(raw);
    var g := Group(es, e.id);
    MergedFor(es, e.id);
    GroupMembers(es, e.id);
    FirstPresentSome(g, LoaderOf);
    FirstPresentSome(g, KernelOf);
    DescribedBy(raw, r, g);
    hide Represents, FirstPresent, Group, MergeAll, ToEntries, Launches;
    RepresentsFields(g, e);
  }

  lemma RepresentsFields(g: seq<BootEntry>, e: BootEntry)
    requires Represents(g, e)
    ensures g != [] && e.volume == g[0].volume
    ensures e.loader == FirstPresent(g, LoaderOf) && e.kernel == FirstPresent(g, KernelOf)
  {
  }

  /** An entry of the list, and the description it was converted from. */
  lemma EntryFrom(raw: seq<RawEntry>, x: BootEntry) returns (q: RawEntry)
    requires Plain(raw) && x in ToEntries(raw)
    ensures q in raw && x.id == IdOfRaw(q) && x.loader == q.loader && x.kernel == q.kernel && x.volume == q.volume
  {
    var i :| 0 <= i < |raw| && ToEntries(raw)[i] == x;
    q := raw[i];
  }

  lemma EntryOf(raw: seq<RawEntry>, q: RawEntry) returns (x: BootEntry)
    requires Plain(raw) && q in raw
    ensures x in ToEntries(raw)
    ensures x.id == IdOfRaw(q) && x.loader == q.loader && x.kernel == q.kernel && x.volume == q.volume
  {
    var i :| 0 <= i < |raw| && raw[i] == q;
    x := ToEntries(raw)[i];
  }

  /** The group of an entry, read back as raw descriptions. */
  lemma DescribedBy(raw: seq<RawEntry>, r: RawEntry, g: seq<BootEntry>)
    requires Plain(raw) && r in raw
    requires forall x :: x in g <==> x in ToEntries(raw) && x.id == IdOfRaw(r)
    ensures (exists x :: x in g && (x.loader.Some? || x.kernel.Some?)) <==> Launches(raw, r)
    ensures forall x :: x in g ==> (x.volume.Some? <==> r.volume.Some?)
  {
    hide IdOfRaw, ToEntries, IsTwin;
    forall x | x in g ensures x.volume.Some? <==> r.volume.Some? {
      var q := EntryFrom(raw, x);
      SameIds(raw, q, r);
    }
    if x :| x in g && (x.loader.Some? || x.kernel.Some?) {
      var q := EntryFrom(raw, x);
      SameIds(raw, q, r);
      assert q in raw && SameEntry(q, r) && (q.loader.Some? || q.kernel.Some?);
    }
    if q :| q in raw && SameEntry(q, r) && (q.loader.Some? || q.kernel.Some?) {
      var x := EntryOf(raw, q);
      SameIds(raw, q, r);
      assert x in g;
    }
  }

  /** Every merged entry comes from some description. */
  lemma SourceOf(raw: seq<RawEntry>, e: BootEntry) returns (w: RawEntry)
    requires Plain(raw) && e in MergeAll(ToEntries(raw))
    ensures w in raw && IdOfRaw(w) == e.id
  {
    var es := ToEntries(raw);
    MergedFor(es, e.id);
    GroupMembers(es, e.id);
    RepresentsFields(Group(es, e.id), e);
    var x := Group(es, e.id)[0];
    assert x in Group(es, e.id);
    hide Represents, Group, MergeAll, IdOfRaw, ToEntries;
    w := EntryFrom(raw, x);
  }

  lemma MergedOf(raw: seq<RawEntry>, r: RawEntry) returns (e: BootEntry)
    requires Plain(raw) && r in raw
    ensures e in MergeAll(ToEntries(raw)) && e.id == IdOfRaw(r)
    ensures Launchable(e) <==> Launches(raw, r)
    ensures e.volume.Some? <==> r.volume.Some?
  {
    var es := ToEntries(raw);
    var x := EntryOf(raw, r);
    MergedFor(es, IdOfRaw(r));
    hide MergeAll, ToEntries, IdOfRaw, Launches;
    e :| e in MergeAll(es) && e.id == IdOfRaw(r);
    MergedAttributes(raw, r, e);
  }

  /**
   * Without separators in roles and loaders: an entry survives if and only if some description of it has something
   * to launch and, when it names no volume, no launchable entry of the same kind, role and loader names one.
   */
  lemma SurvivesExactly(raw: seq<RawEntry>, r: RawEntry)
    requires Plain(raw) && r in raw
    ensures Survives(raw, r) <==>
            && Launches(raw, r)
            && (r.volume.None? ==> forall w :: w in raw && w.volume.Some? && IsTwin(r, w) ==> !Launches(raw, w))
  {
    var es := ToEntries(raw);
    var e := MergedOf(raw, r);
    KeptExactly(es, e);
    OnlySurvivor(raw, r, e);
    hide MergeAll, ToEntries, IdOfRaw, Launches, Kept, Launchable, IsTwin;
    if r.volume.None? {
      forall w | w in raw && w.volume.Some? && IsTwin(r, w) && Launches(raw, w) ensures e !in Kept(es) {
        var v := MergedOf(raw, w);
        TwinBase(raw, r, w, v);
      }
      forall v | v in MergeAll(es) && Launchable(v) && v.volume.Some? && BaseOf(v) == e.id.text
        ensures exists w :: w in raw && w.volume.Some? && IsTwin(r, w) && Launches(raw, w)
      {
        var w := SourceOf(raw, v);
        MergedAttributes(raw, w, v);
        TwinBase(raw, r, w, v);
      }
    }
  }

  lemma TwinBase(raw: seq<RawEntry>, r: RawEntry, w: RawEntry, v: BootEntry)
    requires Plain(raw) && r in raw && w in raw && r.volume.None? && v.id == IdOfRaw(w)
    ensures BaseOf(v) == IdOfRaw(r).text <==> IsTwin(r, w)
  {
    PlainTwins(r, w);
  }

  /** The entry with an id is the only one that can survive under it. */
  lemma OnlySurvivor(raw: seq<RawEntry>, r: RawEntry, e: BootEntry)
    requires Plain(raw) && r in raw && e in MergeAll(ToEntries(raw)) && e.id == IdOfRaw(r)
    ensures Survives(raw, r) <==> e in Kept(ToEntries(raw))
  {
    var es := ToEntries(raw);
    MergeFaithful(es);
    hide ToEntries, IdOfRaw, Summarises;
    if Survives(raw, r) {
      var x :| x in Kept(es) && x.id == IdOfRaw(r);
      KeptExactly(es, x);
      hide MergeAll, Kept;
      SameMerged(MergeAll(es), x, e);
    }
  }

  lemma SameMerged(es: seq<BootEntry>, x: BootEntry, y: BootEntry)
    requires UniqueIds(es) && x in es && y in es && x.id == y.id
    ensures x == y
  {
    var i :| 0 <= i < |es| && es[i] == x;
    var j :| 0 <= j < |es| && es[j] == y;
  }
}
