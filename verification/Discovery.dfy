/** Merging raw discoveries into one boot graph. */
module Discovery {
  import opened Basics
  import opened Ids
  import opened Sorting
  import opened Graph
  import Utf8

  datatype RawEntry = RawEntry(
    kind: OsKind,
    osName: string,
    title: string,
    role: EntryRole,
    bootMethod: BootMethod,
    loader: Option<string>,
    kernel: Option<string>,
    initrd: Option<string>,
    cmdline: Option<string>,
    volume: Option<string>)

  /** `str::len`: bytes, not characters. */
  function ByteLength(s: string): nat { |Utf8.Encode(s)| }

  predicate Contains(s: string, part: string) {
    part <= s || (s != [] && Contains(s[1..], part))
  }

  /** The end of `v` that is six bytes long, if a character starts there. */
  function SixByteTail(v: string): Option<string> {
    if ByteLength(v) == 6 then Some(v)
    else if v == [] then None
    else SixByteTail(v[1..])
  }

  /** `&v[v.len().saturating_sub(6)..]`; `None` where that slice would panic. */
  function VolumeTag(v: string): Option<string> {
    if ByteLength(v) <= 6 then Some(v) else SixByteTail(v)
  }

  const FALLBACK := "Fallback Loader"

  /** The one demand on a raw entry: a volume it is tagged with can be sliced. */
  predicate Taggable(r: RawEntry) {
    Contains(r.title, FALLBACK) && r.volume.Some? ==> VolumeTag(r.volume.value).Some?
  }

  function TitleOf(r: RawEntry): string
    requires Taggable(r)
  {
    if Contains(r.title, FALLBACK) && r.volume.Some? then r.title + " [" + VolumeTag(r.volume.value).value + "]"
    else r.title
  }

  function IdOfRaw(r: RawEntry): EntryId { ScopedId(r.kind, r.role, r.loader, r.volume) }

  function ToEntry(r: RawEntry): BootEntry
    requires Taggable(r)
  {
    BootEntry(IdOfRaw(r), TitleOf(r), r.role, r.bootMethod, r.loader, r.kernel, r.initrd, r.cmdline, r.volume,
        Unknown, None)
  }

  function ToEntries(raw: seq<RawEntry>): (es: seq<BootEntry>)
    requires forall r :: r in raw ==> Taggable(r)
    ensures |es| == |raw|
    ensures forall i :: 0 <= i < |raw| ==> es[i] == ToEntry(raw[i])
  {
    if raw == [] then [] else [ToEntry(raw[0])] + ToEntries(raw[1..])
  }

  method ConvertEntry(r: RawEntry) returns (e: BootEntry)
    requires Taggable(r)
    ensures e == ToEntry(r)
    ensures e.id == ScopedId(r.kind, r.role, r.loader, r.volume) && e.role == r.role && e.bootMethod == r.bootMethod
    ensures e.loader == r.loader && e.kernel == r.kernel && e.initrd == r.initrd && e.cmdline == r.cmdline
    ensures e.volume == r.volume && e.health == Unknown && e.lastResult == None
  {
    var id := Derive(r.kind, r.role, None);
    e := BootEntry(id, r.title, r.role, r.bootMethod, None, None, None, None, None, Unknown, None);
    e := e.(volume := r.volume);
    if r.loader.Some? { e := e.(loader := r.loader); }
    e := e.(kernel := r.kernel);
    e := e.(initrd := r.initrd);
    e := e.(cmdline := r.cmdline);
    if Contains(e.title, FALLBACK) {
      if e.volume.Some? {
        e := e.(title := e.title + " [" + VolumeTag(e.volume.value).value + "]");
      }
    }
    id := DeriveScoped(r.kind, e.role, e.loader, e.volume);
    e := e.(id := id);
  }

  // ---- merging ----

  function MergeInto(existing: BootEntry, other: BootEntry): BootEntry {
    existing.(
      loader := FirstOf(existing.loader, other.loader),
      kernel := FirstOf(existing.kernel, other.kernel),
      initrd := FirstOf(existing.initrd, other.initrd),
      cmdline := FirstOf(existing.cmdline, other.cmdline),
      title := if ByteLength(other.title) > ByteLength(existing.title) then other.title else existing.title)
  }

  function IndexOf(es: seq<BootEntry>, id: EntryId): (r: nat)
    ensures r <= |es|
    ensures forall j :: 0 <= j < r ==> es[j].id != id
    ensures r < |es| ==> es[r].id == id
  {
    FirstWhere(es, (e: BootEntry) => e.id == id)
  }

  function MergeOne(acc: seq<BootEntry>, e: BootEntry): seq<BootEntry> {
    var i := IndexOf(acc, e.id);
    if i < |acc| then acc[i := MergeInto(acc[i], e)] else acc + [e]
  }

  function MergeAll(es: seq<BootEntry>): seq<BootEntry> {
    if es == [] then [] else MergeOne(MergeAll(es[..|es| - 1]), es[|es| - 1])
  }

  /** Everything discovered under one id, in discovery order. */
  function Group(es: seq<BootEntry>, id: EntryId): seq<BootEntry> {
    if es == [] then []
    else
      var g := Group(es[..|es| - 1], id);
      if es[|es| - 1].id == id then g + [es[|es| - 1]] else g
  }

  function LoaderOf(e: BootEntry): Option<string> { e.loader }
  function KernelOf(e: BootEntry): Option<string> { e.kernel }
  function InitrdOf(e: BootEntry): Option<string> { e.initrd }
  function CmdlineOf(e: BootEntry): Option<string> { e.cmdline }

  /** The first value present, scanning from the front. */
  function FirstPresent(g: seq<BootEntry>, field: BootEntry -> Option<string>): Option<string> {
    if g == [] then None else if field(g[0]).Some? then field(g[0]) else FirstPresent(g[1..], field)
  }

  /** `t` is the first of the longest titles in the group. */
  ghost predicate FirstLongest(g: seq<BootEntry>, t: string) {
    exists i :: 0 <= i < |g| && g[i].title == t
      && (forall j :: 0 <= j < |g| ==> ByteLength(g[j].title) <= ByteLength(t))
      && (forall j :: 0 <= j < i ==> ByteLength(g[j].title) < ByteLength(t))
  }

  /** What the merged entry of a group must be, said of the group alone. */
  ghost predicate Represents(g: seq<BootEntry>, e: BootEntry) {
    && g != []
    && e == g[0].(loader := e.loader, kernel := e.kernel, initrd := e.initrd, cmdline := e.cmdline, title := e.title)
    && e.loader == FirstPresent(g, LoaderOf)
    && e.kernel == FirstPresent(g, KernelOf)
    && e.initrd == FirstPresent(g, InitrdOf)
    && e.cmdline == FirstPresent(g, CmdlineOf)
    && FirstLongest(g, e.title)
  }

  lemma {:induction false} FirstPresentSnoc(g: seq<BootEntry>, e: BootEntry, field: BootEntry -> Option<string>)
    ensures FirstPresent(g + [e], field) == FirstOf(FirstPresent(g, field), field(e))
  {
    if g == [] {
      assert [e][1..] == [];
    } else {
      assert (g + [e])[1..] == g[1..] + [e];
      FirstPresentSnoc(g[1..], e, field);
    }
  }

  lemma FirstLongestSnoc(g: seq<BootEntry>, t: string, e: BootEntry)
    requires FirstLongest(g, t)
    ensures FirstLongest(g + [e], if ByteLength(e.title) > ByteLength(t) then e.title else t)
  {
    var i :| 0 <= i < |g| && g[i].title == t
      && (forall j :: 0 <= j < |g| ==> ByteLength(g[j].title) <= ByteLength(t))
      && (forall j :: 0 <= j < i ==> ByteLength(g[j].title) < ByteLength(t));
    var h := g + [e];
    if ByteLength(e.title) > ByteLength(t) {
      assert h[|g|].title == e.title;
      forall j | 0 <= j < |g| ensures ByteLength(h[j].title) < ByteLength(e.title) { assert h[j] == g[j]; }
    } else {
      assert h[i].title == t;
      forall j | 0 <= j < |g| ensures h[j] == g[j] {}
    }
  }

  lemma RepresentsSnoc(g: seq<BootEntry>, x: BootEntry, e: BootEntry)
    requires Represents(g, x)
    ensures Represents(g + [e], MergeInto(x, e))
  {
    FirstPresentSnoc(g, e, LoaderOf);
    FirstPresentSnoc(g, e, KernelOf);
    FirstPresentSnoc(g, e, InitrdOf);
    FirstPresentSnoc(g, e, CmdlineOf);
    FirstLongestSnoc(g, x.title, e);
    assert (g + [e])[0] == g[0];
  }

  lemma RepresentsSingle(e: BootEntry)
    ensures Represents([e], e)
  {
    assert [e][1..] == [];
    assert [e][0].title == e.title;
  }

  function IdAt(e: BootEntry): EntryId { e.id }

  /** The merged list is a faithful summary: one entry an id, in first-appearance order. */
  ghost predicate Summarises(es: seq<BootEntry>, acc: seq<BootEntry>) {
    && Map(acc, IdAt) == DistinctIds(es)
    && forall k :: 0 <= k < |acc| ==> Represents(Group(es, acc[k].id), acc[k])
  }

  lemma GroupSnoc(es: seq<BootEntry>, e: BootEntry, id: EntryId)
    ensures Group(es + [e], id) == if e.id == id then Group(es, id) + [e] else Group(es, id)
    ensures DistinctIds(es + [e]) == if e.id in DistinctIds(es) then DistinctIds(es) else DistinctIds(es) + [e.id]
  {
    assert (es + [e])[..|es|] == es;
  }

  lemma MergeKnown(es: seq<BootEntry>, acc: seq<BootEntry>, e: BootEntry, i: nat)
    requires Summarises(es, acc) && i < |acc| && acc[i].id == e.id
    ensures Summarises(es + [e], acc[i := MergeInto(acc[i], e)])
  {
    hide Represents;
    hide Group;
    hide DistinctIds;
    var next := acc[i := MergeInto(acc[i], e)];
    var ids := DistinctIds(es);
    assert forall k :: 0 <= k < |acc| ==> ids[k] == acc[k].id;
    GroupSnoc(es, e, e.id);
    RepresentsSnoc(Group(es, e.id), acc[i], e);
    assert Map(next, IdAt) == ids;
    forall k | 0 <= k < |next| ensures Represents(Group(es + [e], next[k].id), next[k]) {
      GroupSnoc(es, e, next[k].id);
      if k != i { assert ids[k] != ids[i]; }
    }
  }

  lemma MergeNew(es: seq<BootEntry>, acc: seq<BootEntry>, e: BootEntry)
    requires Summarises(es, acc) && forall k :: 0 <= k < |acc| ==> acc[k].id != e.id
    ensures Summarises(es + [e], acc + [e])
  {
    hide Represents;
    hide Group;
    hide DistinctIds;
    var next := acc + [e];
    var ids := DistinctIds(es);
    assert forall k :: 0 <= k < |acc| ==> ids[k] == acc[k].id;
    assert e.id !in ids;
    GroupEmpty(es, e.id);
    GroupSnoc(es, e, e.id);
    RepresentsSingle(e);
    assert [] + [e] == [e];
    assert Map(next, IdAt) == ids + [e.id];
    forall k | 0 <= k < |next| ensures Represents(Group(es + [e], next[k].id), next[k]) {
      GroupSnoc(es, e, next[k].id);
    }
  }

  lemma {:induction false} GroupEmpty(es: seq<BootEntry>, id: EntryId)
    requires id !in DistinctIds(es)
    ensures Group(es, id) == []
  {
    if es == [] {
    } else {
      GroupEmpty(es[..|es| - 1], id);
    }
  }

  /**
   * After merging, ids are pairwise distinct and in first-appearance order, and each entry carries the
   * first value present of every path and the first longest title among the raw entries with its id.
   */
  lemma {:induction false} MergeFaithful(es: seq<BootEntry>)
    ensures Summarises(es, MergeAll(es))
    ensures UniqueIds(MergeAll(es))
  {
    hide Summarises, MergeOne, UniqueIds;
    if es == [] {
      NothingMerged();
    } else {
      var front, e := es[..|es| - 1], es[|es| - 1];
      MergeFaithful(front);
      assert front + [e] == es;
      MergeStep(front, MergeAll(front), e);
    }
    SummaryUnique(es, MergeAll(es));
  }

  lemma NothingMerged()
    ensures Summarises([], [])
  {
  }

  lemma MergeStep(es: seq<BootEntry>, acc: seq<BootEntry>, e: BootEntry)
    requires Summarises(es, acc)
    ensures Summarises(es + [e], MergeOne(acc, e))
  {
    hide Summarises, MergeInto;
    var i := IndexOf(acc, e.id);
    if i < |acc| { MergeKnown(es, acc, e, i); } else { MergeNew(es, acc, e); }
  }

  lemma SummaryUnique(es: seq<BootEntry>, acc: seq<BootEntry>)
    requires Summarises(es, acc)
    ensures UniqueIds(acc)
  {
    hide Represents;
    forall i, j | 0 <= i < j < |acc| ensures acc[i].id != acc[j].id {
      assert DistinctIds(es)[i] == acc[i].id && DistinctIds(es)[j] == acc[j].id;
    }
  }

  // ---- the two filters ----

  predicate Launchable(e: BootEntry) { e.loader.Some? || e.kernel.Some? }

  predicate OnVolume(e: BootEntry) { e.volume.Some? }

  function BaseOf(e: BootEntry): string { Before(e.id.text, '@') }

  /** The text before '@' of every id that is tied to a volume. */
  function VolumedBases(es: seq<BootEntry>): seq<string> { Map(Filter(es, OnVolume), BaseOf) }

  function DropTwins(es: seq<BootEntry>): seq<BootEntry> {
    var bases := VolumedBases(es);
    Filter(es, (e: BootEntry) => e.volume.Some? || e.id.text !in bases)
  }

  function Kept(es: seq<BootEntry>): seq<BootEntry> { DropTwins(Filter(MergeAll(es), Launchable)) }

  /** What survives: every launchable merged entry, except volume-less twins of volume-bearing ones. */
  lemma KeptExactly(es: seq<BootEntry>, e: BootEntry)
    ensures e in Kept(es) <==>
            && e in MergeAll(es) && Launchable(e)
            && (e.volume.None? ==>
                  forall v :: v in MergeAll(es) && Launchable(v) && v.volume.Some? ==> BaseOf(v) != e.id.text)
    ensures forall v :: v in MergeAll(es) && Launchable(v) && v.volume.Some? ==> v in Kept(es)
  {
    var launchable := Filter(MergeAll(es), Launchable);
    var volumed, bases := Filter(launchable, OnVolume), VolumedBases(launchable);
    FilterMembers(MergeAll(es), Launchable);
    FilterMembers(launchable, OnVolume);
    FilterMembers(launchable, (x: BootEntry) => x.volume.Some? || x.id.text !in bases);
    assert forall i :: 0 <= i < |volumed| ==> bases[i] == BaseOf(volumed[i]);
    forall v | v in volumed ensures BaseOf(v) in bases {
      var i :| 0 <= i < |volumed| && volumed[i] == v;
      assert bases[i] == BaseOf(v);
    }
  }

  lemma KeptUnique(es: seq<BootEntry>)
    ensures UniqueIds(Kept(es))
  {
    MergeFaithful(es);
    FilterKeepsUnique(MergeAll(es), Launchable);
    var launchable := Filter(MergeAll(es), Launchable);
    var bases := VolumedBases(launchable);
    FilterKeepsUnique(launchable, (x: BootEntry) => x.volume.Some? || x.id.text !in bases);
  }

  // ---- grouping ----

  function DisplayName(kind: OsKind): string {
    match kind
    case Windows => "Windows"
    case Linux => "Linux"
    case NixOs => "NixOS"
    case Bsd => "BSD"
    case GenericEfi => "EFI"
    case RecoveryOs => "Recovery"
  }

  function NodeOf(systems: seq<OsNode>, kind: OsKind): (r: nat)
    ensures r <= |systems|
    ensures forall j :: 0 <= j < r ==> systems[j].kind != kind
    ensures r < |systems| ==> systems[r].kind == kind
  {
    FirstWhere(systems, (os: OsNode) => os.kind == kind)
  }

  function GroupOne(systems: seq<OsNode>, e: BootEntry): seq<OsNode> {
    var kind := KindOf(e.id);
    var i := NodeOf(systems, kind);
    if i < |systems| then systems[i := systems[i].(entries := systems[i].entries + [e])]
    else systems + [OsNode(kind, DisplayName(kind), [e])]
  }

  function GroupAll(es: seq<BootEntry>): seq<OsNode> {
    if es == [] then [] else GroupOne(GroupAll(es[..|es| - 1]), es[|es| - 1])
  }

  function OfKind(es: seq<BootEntry>, kind: OsKind): seq<BootEntry> {
    Filter(es, (e: BootEntry) => KindOf(e.id) == kind)
  }

  predicate DistinctKinds(systems: seq<OsNode>) {
    forall i, j :: 0 <= i < j < |systems| ==> systems[i].kind != systems[j].kind
  }

  /** One node a kind, holding exactly the entries of that kind in their original order. */
  ghost predicate GroupedByKind(es: seq<BootEntry>, systems: seq<OsNode>) {
    && DistinctKinds(systems)
    && (forall i :: 0 <= i < |systems| ==>
          && systems[i].name == DisplayName(systems[i].kind)
          && systems[i].entries == OfKind(es, systems[i].kind)
          && systems[i].entries != [])
    && (forall e :: e in es ==> exists i :: 0 <= i < |systems| && systems[i].kind == KindOf(e.id))
  }

  lemma OfKindSnoc(es: seq<BootEntry>, e: BootEntry, kind: OsKind)
    ensures KindOf(e.id) == kind ==> OfKind(es + [e], kind) == OfKind(es, kind) + [e]
    ensures KindOf(e.id) != kind ==> OfKind(es + [e], kind) == OfKind(es, kind)
  {
    FilterSnoc(es, e, (x: BootEntry) => KindOf(x.id) == kind);
  }

  lemma {:induction false} OfKindAbsent(es: seq<BootEntry>, kind: OsKind)
    requires forall e :: e in es ==> KindOf(e.id) != kind
    ensures OfKind(es, kind) == []
  {
    if es == [] {
    } else {
      OfKindAbsent(es[1..], kind);
    }
  }

  lemma GroupKnown(es: seq<BootEntry>, systems: seq<OsNode>, e: BootEntry, i: nat)
    requires GroupedByKind(es, systems) && i < |systems| && systems[i].kind == KindOf(e.id)
    ensures GroupedByKind(es + [e], systems[i := systems[i].(entries := systems[i].entries + [e])])
  {
    hide OfKind;
    hide KindOf;
    var next := systems[i := systems[i].(entries := systems[i].entries + [e])];
    forall j | 0 <= j < |next|
      ensures next[j].entries == OfKind(es + [e], next[j].kind) && next[j].entries != []
    {
      OfKindSnoc(es, e, next[j].kind);
      assert next[j].kind == systems[j].kind;
    }
    forall x | x in es + [e] ensures exists j :: 0 <= j < |next| && next[j].kind == KindOf(x.id) {
      var j := if x in es then NodeOf(systems, KindOf(x.id)) else i;
      assert next[j].kind == KindOf(x.id);
    }
  }

  lemma GroupNew(es: seq<BootEntry>, systems: seq<OsNode>, e: BootEntry)
    requires GroupedByKind(es, systems) && forall j :: 0 <= j < |systems| ==> systems[j].kind != KindOf(e.id)
    ensures GroupedByKind(es + [e], systems + [OsNode(KindOf(e.id), DisplayName(KindOf(e.id)), [e])])
  {
    hide OfKind;
    hide KindOf;
    var kind := KindOf(e.id);
    var next := systems + [OsNode(kind, DisplayName(kind), [e])];
    OfKindAbsent(es, kind);
    forall j | 0 <= j < |next|
      ensures next[j].entries == OfKind(es + [e], next[j].kind) && next[j].entries != []
    {
      OfKindSnoc(es, e, next[j].kind);
    }
    forall x | x in es + [e] ensures exists j :: 0 <= j < |next| && next[j].kind == KindOf(x.id) {
      var j := if x in es then NodeOf(systems, KindOf(x.id)) else |systems|;
      assert next[j].kind == KindOf(x.id);
    }
  }

  lemma SystemEntriesUnfold(systems: seq<OsNode>)
    requires systems != []
    ensures SystemEntries(systems) == systems[0].entries + SystemEntries(systems[1..])
  {
  }

  lemma {:induction false} SystemEntriesGrow(systems: seq<OsNode>, i: nat, e: BootEntry)
    requires i < |systems|
    ensures multiset(SystemEntries(systems[i := systems[i].(entries := systems[i].entries + [e])]))
         == multiset(SystemEntries(systems)) + multiset{e}
  {
    hide SystemEntries;
    var next := systems[i := systems[i].(entries := systems[i].entries + [e])];
    SystemEntriesUnfold(systems);
    SystemEntriesUnfold(next);
    if i == 0 {
      assert next[1..] == systems[1..];
    } else {
      assert next[1..] == systems[1..][i - 1 := next[i]];
      SystemEntriesGrow(systems[1..], i - 1, e);
    }
  }

  lemma {:induction false} SystemEntriesNew(systems: seq<OsNode>, os: OsNode)
    ensures SystemEntries(systems + [os]) == SystemEntries(systems) + os.entries
  {
    if systems == [] {
      assert [os][1..] == [];
    } else {
      assert (systems + [os])[1..] == systems[1..] + [os];
      SystemEntriesNew(systems[1..], os);
    }
  }

  lemma {:induction false} GroupFaithful(es: seq<BootEntry>)
    ensures GroupedByKind(es, GroupAll(es))
  {
    hide GroupedByKind, GroupOne;
    if es == [] {
      NothingGrouped();
    } else {
      var front, e := es[..|es| - 1], es[|es| - 1];
      GroupFaithful(front);
      assert front + [e] == es;
      GroupStep(front, GroupAll(front), e);
    }
  }

  lemma NothingGrouped()
    ensures GroupedByKind([], [])
  {
  }

  lemma GroupStep(es: seq<BootEntry>, systems: seq<OsNode>, e: BootEntry)
    requires GroupedByKind(es, systems)
    ensures GroupedByKind(es + [e], GroupOne(systems, e))
  {
    hide GroupedByKind, KindOf;
    var i := NodeOf(systems, KindOf(e.id));
    if i < |systems| { GroupKnown(es, systems, e, i); } else { GroupNew(es, systems, e); }
  }

  /** The kinds that occur, in the order they first appear. */
  function KindsSeen(es: seq<BootEntry>): seq<OsKind> {
    if es == [] then []
    else
      var kinds, kind := KindsSeen(es[..|es| - 1]), KindOf(es[|es| - 1].id);
      if kind in kinds then kinds else kinds + [kind]
  }

  function NodeKind(os: OsNode): OsKind { os.kind }

  /** Nodes stand in the order their kinds were first discovered. */
  lemma {:induction false} NodesInOrder(es: seq<BootEntry>)
    ensures Map(GroupAll(es), NodeKind) == KindsSeen(es)
  {
    if es == [] {
    } else {
      hide KindOf;
      var front, kind := es[..|es| - 1], KindOf(es[|es| - 1].id);
      var systems := GroupAll(front);
      NodesInOrder(front);
      var i := NodeOf(systems, kind);
      assert i < |systems| <==> kind in KindsSeen(front) by {
        if i < |systems| { assert Map(systems, NodeKind)[i] == kind; }
      }
    }
  }

  lemma {:induction false} GroupConserves(es: seq<BootEntry>)
    ensures multiset(SystemEntries(GroupAll(es))) == multiset(es)
  {
    if es == [] {
    } else {
      var front, e := es[..|es| - 1], es[|es| - 1];
      var systems := GroupAll(front);
      GroupConserves(front);
      assert front + [e] == es;
      var i := NodeOf(systems, KindOf(e.id));
      if i < |systems| {
        SystemEntriesGrow(systems, i, e);
      } else {
        SystemEntriesNew(systems, OsNode(KindOf(e.id), DisplayName(KindOf(e.id)), [e]));
      }
    }
  }

  // ---- the graph ----

  function SystemsOf(raw: seq<RawEntry>): seq<OsNode>
    requires forall r :: r in raw ==> Taggable(r)
  {
    Map(GroupAll(Kept(ToEntries(raw))), SortOs)
  }

  lemma MergeAllNext(es: seq<BootEntry>, i: nat)
    requires i < |es|
    ensures MergeAll(es[..i + 1]) == MergeOne(MergeAll(es[..i]), es[i])
  {
    assert es[..i + 1][..i] == es[..i];
  }

  /** Merge into the entry with this id, or append. */
  method MergeEntry(entries: seq<BootEntry>, e: BootEntry) returns (r: seq<BootEntry>)
    ensures r == MergeOne(entries, e)
  {
    var at := IndexOf(entries, e.id);
    if at < |entries| {
      r := entries[at := MergeInto(entries[at], e)];
    } else {
      r := entries + [e];
    }
  }

  /** De-duplicate by id while converting. */
  method MergeRaw(raw: seq<RawEntry>) returns (entries: seq<BootEntry>)
    requires forall r :: r in raw ==> Taggable(r)
    ensures entries == MergeAll(ToEntries(raw))
  {
    ghost var es := ToEntries(raw);
    entries := [];
    for i := 0 to |raw|
      invariant entries == MergeAll(es[..i])
    {
      var e := ConvertEntry(raw[i]);
      MergeAllNext(es, i);
      entries := MergeEntry(entries, e);
    }
    assert es[..|raw|] == es;
  }

  /** One system node a kind, in first-seen order. */
  method GroupByKind(entries: seq<BootEntry>) returns (systems: seq<OsNode>)
    ensures systems == GroupAll(entries)
  {
    systems := [];
    for i := 0 to |entries|
      invariant systems == GroupAll(entries[..i])
    {
      assert entries[..i + 1][..i] == entries[..i];
      var e := entries[i];
      var kind := KindOf(e.id);
      var at := NodeOf(systems, kind);
      if at < |systems| {
        systems := systems[at := systems[at].(entries := systems[at].entries + [e])];
      } else {
        systems := systems + [OsNode(kind, DisplayName(kind), [e])];
      }
    }
    assert entries[..|entries|] == entries;
  }

  method BuildGraph(raw: seq<RawEntry>) returns (graph: BootGraph)
    requires forall r :: r in raw ==> Taggable(r)
    ensures fresh(graph)
    ensures graph.disks == [DiskNode(0, "system", SystemsOf(raw))]
    ensures UniqueIds(graph.Entries())
  {
    var entries := MergeRaw(raw);
    entries := Filter(entries, Launchable);
    entries := DropTwins(entries);
    var systems := GroupByKind(entries);
    graph := new BootGraph();
    graph.AddDisk(DiskNode(0, "system", systems));
    graph.SortCanonical();
    GraphUnique(raw);
  }

  /** No two entries of the finished graph share an id. */
  lemma GraphUnique(raw: seq<RawEntry>)
    requires forall r :: r in raw ==> Taggable(r)
    ensures Flatten([DiskNode(0, "system", SystemsOf(raw))]) == SystemEntries(SystemsOf(raw))
    ensures UniqueIds(SystemEntries(SystemsOf(raw)))
  {
    var disk := DiskNode(0, "system", SystemsOf(raw));
    FlattenCons(disk, []);
    assert [disk] + [] == [disk] && SystemEntries(disk.systems) + [] == SystemEntries(disk.systems);
    GraphConserves(raw);
    PermutationUnique(Kept(ToEntries(raw)), SystemEntries(SystemsOf(raw)));
  }

  lemma {:induction false} SortedEntries(systems: seq<OsNode>)
    ensures multiset(SystemEntries(Map(systems, SortOs))) == multiset(SystemEntries(systems))
  {
    if systems == [] {
    } else {
      SortedEntries(systems[1..]);
      assert Map(systems, SortOs)[1..] == Map(systems[1..], SortOs);
    }
  }

  /** The graph holds each surviving entry exactly once, under its own kind, in canonical order. */
  lemma GraphConserves(raw: seq<RawEntry>)
    requires forall r :: r in raw ==> Taggable(r)
    ensures multiset(SystemEntries(SystemsOf(raw))) == multiset(Kept(ToEntries(raw)))
    ensures UniqueIds(Kept(ToEntries(raw)))
    ensures DistinctKinds(SystemsOf(raw))
    ensures forall os :: os in SystemsOf(raw) ==>
              && os.entries != [] && os.name == DisplayName(os.kind)
              && multiset(os.entries) == multiset(OfKind(Kept(ToEntries(raw)), os.kind))
              && Sorted(os.entries, CanonicalLe)
  {
    var es := Kept(ToEntries(raw));
    var systems := GroupAll(es);
    GroupFaithful(es);
    GroupConserves(es);
    SortedEntries(systems);
    KeptUnique(ToEntries(raw));
    CanonicalPreorder();
    forall i | 0 <= i < |systems|
      ensures var os := SystemsOf(raw)[i];
              && os.entries != [] && os.name == DisplayName(os.kind) && os.kind == systems[i].kind
              && multiset(os.entries) == multiset(OfKind(es, os.kind))
              && Sorted(os.entries, CanonicalLe)
    {
      SortSorted(systems[i].entries, CanonicalLe);
    }
  }

  /** The names the menu shows for the systems found. */
  lemma SystemNames(raw: seq<RawEntry>, os: OsNode)
    requires (forall r :: r in raw ==> Taggable(r)) && os in SystemsOf(raw)
    ensures os.name in ["Windows", "Linux", "NixOS", "BSD", "EFI", "Recovery"]
    ensures os.kind.Windows? <==> os.name == "Windows"
    ensures os.kind.Linux? <==> os.name == "Linux"
    ensures os.kind.NixOs? <==> os.name == "NixOS"
    ensures os.kind.Bsd? <==> os.name == "BSD"
    ensures os.kind.GenericEfi? <==> os.name == "EFI"
  {
    GraphConserves(raw);
    hide SystemsOf;
  }

  /** Within a node, entries that compare equal keep their discovery order; nodes keep theirs. */
  lemma GraphStable(raw: seq<RawEntry>, i: nat, tie: BootEntry)
    requires (forall r :: r in raw ==> Taggable(r)) && i < |SystemsOf(raw)|
    ensures var os := SystemsOf(raw)[i];
            Ties(os.entries, tie, CanonicalLe) == Ties(OfKind(Kept(ToEntries(raw)), os.kind), tie, CanonicalLe)
    ensures Map(SystemsOf(raw), NodeKind) == KindsSeen(Kept(ToEntries(raw)))
  {
    var es := Kept(ToEntries(raw));
    GroupFaithful(es);
    NodesInOrder(es);
    CanonicalPreorder();
    SortStable(GroupAll(es)[i].entries, tie, CanonicalLe);
  }

  /** The node an entry ends up in is that of the kind it was discovered as. */
  lemma FiledUnderOwnKind(r: RawEntry)
    requires Taggable(r)
    ensures KindOf(ToEntry(r).id) == r.kind
  {
    KindRecovered(r.kind, r.role, r.loader, r.volume);
  }

  /** Volume ids as the platform makes them (ASCII) are always taggable, and the tag is their last six characters. */
  lemma {:induction false} AsciiTag(v: string)
    requires Utf8.IsAscii(v)
    ensures VolumeTag(v) == Some(if |v| <= 6 then v else v[|v| - 6..])
  {
    Utf8.AsciiBytes(v);
    if |v| > 6 { AsciiTail(v); }
  }

  lemma {:induction false} ShortTail(v: string)
    requires ByteLength(v) < 6
    ensures SixByteTail(v).None?
  {
    if v == [] {
    } else {
      ShortTail(v[1..]);
    }
  }

  /** Where the slice would panic: a two-byte character and five ASCII ones, cut in the middle of the first. */
  lemma TagCutsCharacter(c: char, tail: string)
    requires 0x80 <= c as int < 0x800 && Utf8.IsAscii(tail) && |tail| == 5
    ensures VolumeTag([c] + tail).None?
  {
    var v := [c] + tail;
    assert v[1..] == tail;
    Utf8.AsciiBytes(tail);
    ShortTail(tail);
  }

  lemma {:induction false} AsciiTail(v: string)
    requires Utf8.IsAscii(v) && |v| >= 6
    ensures SixByteTail(v) == Some(v[|v| - 6..])
  {
    Utf8.AsciiBytes(v);
    if |v| > 6 {
      AsciiTail(v[1..]);
      assert v[1..][|v| - 7..] == v[|v| - 6..];
    }
  }
}
