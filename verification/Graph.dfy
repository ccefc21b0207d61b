/** The boot graph: disks, operating systems and entries, with health annotations. */
module Graph {
  import opened Basics
  import opened Ids
  import opened Sorting

  datatype Health = Healthy | Degraded(reason: string) | Unbootable(reason: string) | Unknown {
    predicate IsBootable() { Healthy? || Degraded? }

    function Rank(): nat {
      match this
      case Healthy => 3
      case Degraded(_) => 2
      case Unknown => 1
      case Unbootable(_) => 0
    }
  }

  datatype BootResult = ResultConfirmed | ResultFailed | ResultUnknown

  datatype BootMethod = WindowsBootManager | LinuxEfiStub | LinuxDirect | NixGeneration | EfiChainload

  datatype BootEntry = BootEntry(
    id: EntryId,
    title: string,
    role: EntryRole,
    bootMethod: BootMethod,
    loader: Option<string>,
    kernel: Option<string>,
    initrd: Option<string>,
    cmdline: Option<string>,
    volume: Option<string>,
    health: Health,
    lastResult: Option<BootResult>)
  {
    predicate Bootable() { health.IsBootable() }
  }

  datatype OsNode = OsNode(kind: OsKind, name: string, entries: seq<BootEntry>)

  datatype DiskNode = DiskNode(id: u64, caption: string, systems: seq<OsNode>)

  function SystemEntries(systems: seq<OsNode>): (r: seq<BootEntry>) {
    if systems == [] then [] else systems[0].entries + SystemEntries(systems[1..])
  }

  /** Every entry of the graph in traversal order. */
  function Flatten(disks: seq<DiskNode>): (r: seq<BootEntry>) {
    if disks == [] then [] else SystemEntries(disks[0].systems) + Flatten(disks[1..])
  }

  /** Lookup by id: the first entry that carries it. */
  function Find(es: seq<BootEntry>, id: EntryId): (r: Option<BootEntry>)
    ensures r.Some? <==> exists i :: 0 <= i < |es| && es[i].id == id
    ensures r.Some? ==> r.value in es && r.value.id == id
  {
    if es == [] then None
    else if es[0].id == id then Some(es[0])
    else
      var r := Find(es[1..], id);
      assert r.Some? ==> exists i :: 0 <= i < |es| && es[i].id == id;
      assert (exists i :: 0 <= i < |es| && es[i].id == id) ==> r.Some? by {
        if i :| 0 <= i < |es| && es[i].id == id { assert es[1..][i - 1].id == id; }
      }
      r
  }

  /** `es[i]` is what looking its id up returns. */
  predicate First(es: seq<BootEntry>, i: nat)
    requires i < |es|
  {
    forall j :: 0 <= j < i ==> es[j].id != es[i].id
  }

  predicate UniqueIds(es: seq<BootEntry>) {
    forall i, j :: 0 <= i < j < |es| ==> es[i].id != es[j].id
  }

  /** The ids of a list of entries, each once, in the order they first appear. */
  function DistinctIds(es: seq<BootEntry>): (r: seq<EntryId>)
    ensures Distinct(r)
    ensures forall e :: e in es ==> e.id in r
  {
    if es == [] then []
    else
      var r := DistinctIds(es[..|es| - 1]);
      if es[|es| - 1].id in r then r else r + [es[|es| - 1].id]
  }

  function BootableEntries(es: seq<BootEntry>): (r: seq<BootEntry>) {
    Filter(es, (e: BootEntry) => e.Bootable())
  }

  /** Set the health of the first entry with this id, as an annotation through `find_mut` does. */
  function Annotate(es: seq<BootEntry>, id: EntryId, health: Health): (r: seq<BootEntry>)
    ensures |r| == |es|
  {
    if es == [] then []
    else if es[0].id == id then [es[0].(health := health)] + es[1..]
    else [es[0]] + Annotate(es[1..], id, health)
  }

  function AnnotateSystems(systems: seq<OsNode>, id: EntryId, health: Health): (r: seq<OsNode>)
    ensures |r| == |systems|
  {
    if systems == [] then []
    else if Find(systems[0].entries, id).Some? then
      [systems[0].(entries := Annotate(systems[0].entries, id, health))] + systems[1..]
    else [systems[0]] + AnnotateSystems(systems[1..], id, health)
  }

  function AnnotateDisks(disks: seq<DiskNode>, id: EntryId, health: Health): (r: seq<DiskNode>)
    ensures |r| == |disks|
  {
    if disks == [] then []
    else if Find(SystemEntries(disks[0].systems), id).Some? then
      [disks[0].(systems := AnnotateSystems(disks[0].systems, id, health))] + disks[1..]
    else [disks[0]] + AnnotateDisks(disks[1..], id, health)
  }

  predicate HasEntries(os: OsNode) { os.entries != [] }

  predicate HasSystems(d: DiskNode) { d.systems != [] }

  function RetainOs(os: OsNode, keep: BootEntry -> bool): OsNode {
    os.(entries := Filter(os.entries, keep))
  }

  function RetainSystems(systems: seq<OsNode>, keep: BootEntry -> bool): seq<OsNode> {
    Map(systems, (os: OsNode) => RetainOs(os, keep))
  }

  function RetainDisk(d: DiskNode, keep: BootEntry -> bool): DiskNode {
    d.(systems := Filter(RetainSystems(d.systems, keep), HasEntries))
  }

  function Retain(disks: seq<DiskNode>, keep: BootEntry -> bool): seq<DiskNode> {
    Filter(Map(disks, (d: DiskNode) => RetainDisk(d, keep)), HasSystems)
  }

  /** Canonical order inside one operating system: role, then title. */
  predicate CanonicalLe(a: BootEntry, b: BootEntry) {
    var (a0, a1), (b0, b1) := OrderKey(a.role), OrderKey(b.role);
    a0 < b0 || (a0 == b0 && (a1 < b1 || (a1 == b1 && TextLe(a.title, b.title))))
  }

  /**
   * The order of roles: the default, then generations from the newest, then their specialisations from the newest,
   * then kernels, recovery and fallbacks.
   */
  predicate RoleBefore(a: EntryRole, b: EntryRole) {
    match a
    case Default => !b.Default?
    case Generation(number) => (b.Generation? && b.number < number) || !(b.Default? || b.Generation?)
    case Specialisation(parent, _) =>
      (b.Specialisation? && b.parent < parent) || b.Kernel? || b.RecoveryRole? || b.Fallback?
    case Kernel(_) => b.RecoveryRole? || b.Fallback?
    case RecoveryRole => b.Fallback?
    case Fallback => false
  }

  function SortOs(os: OsNode): OsNode {
    os.(entries := Sort(os.entries, CanonicalLe))
  }

  function SortDisk(d: DiskNode): DiskNode {
    d.(systems := Map(d.systems, SortOs))
  }

  class BootGraph {
    var disks: seq<DiskNode>

    constructor ()
      ensures disks == []
    {
      disks := [];
    }

    function Entries(): seq<BootEntry>
      reads this
    {
      Flatten(disks)
    }

    method AddDisk(disk: DiskNode)
      modifies this
      ensures disks == old(disks) + [disk]
    {
      disks := disks + [disk];
    }

    /** `find_mut(id)` followed by an assignment to `health`. */
    method SetHealth(id: EntryId, health: Health)
      modifies this
      ensures disks == AnnotateDisks(old(disks), id, health)
      ensures Entries() == Annotate(old(Entries()), id, health)
    {
      AnnotateDisksEntries(disks, id, health);
      disks := AnnotateDisks(disks, id, health);
    }

    method RetainEntries(keep: BootEntry -> bool)
      modifies this
      ensures disks == Retain(old(disks), keep)
      ensures Entries() == Filter(old(Entries()), keep)
      ensures UniqueIds(old(Entries())) ==> UniqueIds(Entries())
      ensures forall d :: d in disks ==> d.systems != [] && forall os :: os in d.systems ==> os.entries != []
    {
      ghost var before := disks;
      for i := 0 to |disks|
        invariant |disks| == |before|
        invariant forall k :: 0 <= k < i ==> disks[k] == RetainDisk(before[k], keep)
        invariant forall k :: i <= k < |disks| ==> disks[k] == before[k]
      {
        var systems := disks[i].systems;
        for j := 0 to |systems|
          invariant |systems| == |before[i].systems|
          invariant forall k :: 0 <= k < j ==> systems[k] == RetainOs(before[i].systems[k], keep)
          invariant forall k :: j <= k < |systems| ==> systems[k] == before[i].systems[k]
        {
          systems := systems[j := systems[j].(entries := Filter(systems[j].entries, keep))];
        }
        assert systems == RetainSystems(before[i].systems, keep);
        disks := disks[i := disks[i].(systems := Filter(systems, HasEntries))];
      }
      assert disks == Map(before, (d: DiskNode) => RetainDisk(d, keep));
      disks := Filter(disks, HasSystems);
      RetainEntriesKept(before, keep);
      RetainPrunes(before, keep);
      if UniqueIds(Flatten(before)) { FilterKeepsUnique(Flatten(before), keep); }
    }

    method SortCanonical()
      modifies this
      ensures disks == Map(old(disks), SortDisk)
    {
      ghost var before := disks;
      for i := 0 to |disks|
        invariant |disks| == |before|
        invariant forall k :: 0 <= k < i ==> disks[k] == SortDisk(before[k])
        invariant forall k :: i <= k < |disks| ==> disks[k] == before[k]
      {
        var systems := disks[i].systems;
        for j := 0 to |systems|
          invariant |systems| == |before[i].systems|
          invariant forall k :: 0 <= k < j ==> systems[k] == SortOs(before[i].systems[k])
          invariant forall k :: j <= k < |systems| ==> systems[k] == before[i].systems[k]
        {
          systems := systems[j := systems[j].(entries := Sort(systems[j].entries, CanonicalLe))];
        }
        assert systems == Map(before[i].systems, SortOs);
        disks := disks[i := disks[i].(systems := systems)];
      }
    }
  }

  // ---- lookup and annotation ----

  lemma {:induction false} FindAppend(a: seq<BootEntry>, b: seq<BootEntry>, id: EntryId)
    ensures Find(a + b, id) == if Find(a, id).Some? then Find(a, id) else Find(b, id)
  {
    if a == [] {
      assert a + b == b;
    } else {
      assert (a + b)[1..] == a[1..] + b;
      FindAppend(a[1..], b, id);
    }
  }

  lemma AnnotateUnfold(es: seq<BootEntry>, id: EntryId, h: Health)
    requires es != []
    ensures Annotate(es, id, h) ==
            if es[0].id == id then [es[0].(health := h)] + es[1..] else [es[0]] + Annotate(es[1..], id, h)
    ensures Find(es, id) == if es[0].id == id then Some(es[0]) else Find(es[1..], id)
  {
  }

  lemma {:induction false} AnnotateAppend(a: seq<BootEntry>, b: seq<BootEntry>, id: EntryId, h: Health)
    ensures Annotate(a + b, id, h) == if Find(a, id).Some? then Annotate(a, id, h) + b else a + Annotate(b, id, h)
  {
    if a == [] {
      assert a + b == b;
    } else {
      hide Annotate;
      hide Find;
      AnnotateAppend(a[1..], b, id, h);
      AnnotateUnfold(a, id, h);
      AnnotateUnfold(a + b, id, h);
      AppendTail(a, b);
      AppendAssociative([a[0]], a[1..], Annotate(b, id, h));
      AppendAssociative([a[0]], Annotate(a[1..], id, h), b);
      AppendAssociative([a[0].(health := h)], a[1..], b);
      assert [a[0]] + a[1..] == a;
    }
  }

  lemma {:induction false} AnnotateSystemsEntries(systems: seq<OsNode>, id: EntryId, h: Health)
    ensures SystemEntries(AnnotateSystems(systems, id, h)) == Annotate(SystemEntries(systems), id, h)
  {
    if systems == [] {
    } else {
      AnnotateSystemsEntries(systems[1..], id, h);
      AnnotateAppend(systems[0].entries, SystemEntries(systems[1..]), id, h);
    }
  }

  /** Annotating inside the tree is annotating the flattened entry list. */
  lemma {:induction false} AnnotateDisksEntries(disks: seq<DiskNode>, id: EntryId, h: Health)
    ensures Flatten(AnnotateDisks(disks, id, h)) == Annotate(Flatten(disks), id, h)
  {
    if disks == [] {
    } else {
      AnnotateDisksEntries(disks[1..], id, h);
      AnnotateSystemsEntries(disks[0].systems, id, h);
      AnnotateAppend(SystemEntries(disks[0].systems), Flatten(disks[1..]), id, h);
    }
  }

  /** The entry `Find` returns sits at a position no earlier entry shares its id with. */
  lemma {:induction false} FindAt(es: seq<BootEntry>, id: EntryId) returns (i: nat)
    requires Find(es, id).Some?
    ensures i < |es| && First(es, i) && es[i] == Find(es, id).value
  {
    if es[0].id == id {
      i := 0;
    } else {
      var k := FindAt(es[1..], id);
      i := k + 1;
      forall j | 0 <= j < i ensures es[j].id != es[i].id {
        if j > 0 { assert es[j] == es[1..][j - 1]; }
      }
    }
  }

  lemma {:induction false} FirstFound(es: seq<BootEntry>, i: nat)
    requires i < |es| && First(es, i)
    ensures Find(es, es[i].id) == Some(es[i])
  {
    if i == 0 {
    } else {
      assert forall j :: 0 <= j < i - 1 ==> es[1..][j] == es[j + 1];
      FirstFound(es[1..], i - 1);
    }
  }

  lemma BootableMembers(es: seq<BootEntry>)
    ensures forall e :: e in BootableEntries(es) <==> e in es && e.Bootable()
  {
    FilterMembers(es, (e: BootEntry) => e.Bootable());
  }

  // ---- retaining ----

  lemma SystemEntriesCons(os: OsNode, rest: seq<OsNode>)
    ensures SystemEntries([os] + rest) == os.entries + SystemEntries(rest)
  {
    assert ([os] + rest)[1..] == rest;
  }

  lemma FlattenCons(d: DiskNode, rest: seq<DiskNode>)
    ensures Flatten([d] + rest) == SystemEntries(d.systems) + Flatten(rest)
  {
    assert ([d] + rest)[1..] == rest;
  }

  lemma {:induction false} RetainSystemsEntries(systems: seq<OsNode>, keep: BootEntry -> bool)
    ensures SystemEntries(Filter(RetainSystems(systems, keep), HasEntries)) == Filter(SystemEntries(systems), keep)
  {
    if systems == [] {
    } else {
      RetainSystemsEntries(systems[1..], keep);
      FilterAppend(systems[0].entries, SystemEntries(systems[1..]), keep);
      var o, m := RetainOs(systems[0], keep), RetainSystems(systems[1..], keep);
      assert RetainSystems(systems, keep) == [o] + m;
      FilterCons(o, m, HasEntries);
      SystemEntriesCons(o, Filter(m, HasEntries));
    }
  }

  /** Dropping entries prunes emptied nodes but never disturbs the entries that stay. */
  lemma {:induction false} RetainEntriesKept(disks: seq<DiskNode>, keep: BootEntry -> bool)
    ensures Flatten(Retain(disks, keep)) == Filter(Flatten(disks), keep)
  {
    if disks == [] {
    } else {
      var f := (d: DiskNode) => RetainDisk(d, keep);
      RetainEntriesKept(disks[1..], keep);
      RetainSystemsEntries(disks[0].systems, keep);
      FilterAppend(SystemEntries(disks[0].systems), Flatten(disks[1..]), keep);
      var d, m := RetainDisk(disks[0], keep), Map(disks[1..], f);
      assert Map(disks, f) == [d] + m;
      FilterCons(d, m, HasSystems);
      FlattenCons(d, Filter(m, HasSystems));
    }
  }

  lemma RetainPrunes(disks: seq<DiskNode>, keep: BootEntry -> bool)
    ensures forall d :: d in Retain(disks, keep) ==>
              d.systems != [] && forall os :: os in d.systems ==> os.entries != []
  {
    var m := Map(disks, (d: DiskNode) => RetainDisk(d, keep));
    forall d | d in Retain(disks, keep)
      ensures d.systems != [] && forall os :: os in d.systems ==> os.entries != []
    {
      FilterMembers(m, HasSystems);
      var i :| 0 <= i < |m| && m[i] == d;
      assert d == RetainDisk(disks[i], keep);
      FilterMembers(RetainSystems(disks[i].systems, keep), HasEntries);
      assert forall os :: os in d.systems ==> HasEntries(os);
    }
  }

  // ---- ids stay unique ----

  lemma {:induction false} FilterKeepsUnique(es: seq<BootEntry>, p: BootEntry -> bool)
    requires UniqueIds(es)
    ensures UniqueIds(Filter(es, p))
  {
    if es == [] {
    } else {
      FilterKeepsUnique(es[1..], p);
      FilterMembers(es[1..], p);
      var rest := Filter(es[1..], p);
      forall e | e in rest ensures e.id != es[0].id {
        var k :| 0 <= k < |es[1..]| && es[1..][k] == e;
        assert es[k + 1] == e;
      }
    }
  }

  /** Reordering entries that have pairwise different ids keeps the ids pairwise different. */
  lemma {:induction false} PermutationUnique(a: seq<BootEntry>, b: seq<BootEntry>)
    requires UniqueIds(a) && multiset(a) == multiset(b)
    ensures UniqueIds(b)
  {
    forall i, j | 0 <= i < j < |b| ensures b[i].id != b[j].id {
      if b[i].id == b[j].id {
        assert b[i] in multiset(a) && b[j] in multiset(a);
        var x :| 0 <= x < |a| && a[x] == b[i];
        var y :| 0 <= y < |a| && a[y] == b[j];
        assert x == y;
        TwiceCounted(b, i, j);
        OnceCounted(a, x);
      }
    }
  }

  lemma TwiceCounted(s: seq<BootEntry>, i: nat, j: nat)
    requires i < j < |s| && s[i] == s[j]
    ensures multiset(s)[s[i]] >= 2
  {
    assert s == s[..i] + [s[i]] + s[i + 1..j] + [s[j]] + s[j + 1..];
  }

  lemma {:induction false} OnceCounted(s: seq<BootEntry>, i: nat)
    requires UniqueIds(s) && i < |s|
    ensures multiset(s)[s[i]] == 1
  {
    assert s == s[..i] + [s[i]] + s[i + 1..];
    assert s[i] !in s[..i] && s[i] !in s[i + 1..];
  }

  // ---- canonical order ----

  lemma CanonicalPreorder()
    ensures TotalPreorder(CanonicalLe)
  {
    forall a: BootEntry, b: BootEntry ensures CanonicalLe(a, b) || CanonicalLe(b, a) {
      TextTotal(a.title, b.title);
    }
    forall a: BootEntry, b: BootEntry, c: BootEntry | CanonicalLe(a, b) && CanonicalLe(b, c)
      ensures CanonicalLe(a, c)
    {
      if TextLe(a.title, b.title) && TextLe(b.title, c.title) {
        TextTransitive(a.title, b.title, c.title);
      }
    }
  }

  /** Entries stand in the order of their roles, and in the order of their titles when no role comes first. */
  lemma CanonicalExactly(a: BootEntry, b: BootEntry)
    ensures CanonicalLe(a, b) <==>
            RoleBefore(a.role, b.role) || (!RoleBefore(b.role, a.role) && TextLe(a.title, b.title))
  {
    hide TextLe;
  }

  /** In a sorted system nothing stands behind an entry that should be in front of it. */
  lemma NewestFirst(os: OsNode, i: nat, j: nat)
    requires i < j < |SortOs(os).entries|
    ensures var a, b := SortOs(os).entries[i], SortOs(os).entries[j];
            !RoleBefore(b.role, a.role) && (RoleBefore(a.role, b.role) || TextLe(a.title, b.title))
  {
    CanonicalPreorder();
    SortSorted(os.entries, CanonicalLe);
    CanonicalExactly(SortOs(os).entries[i], SortOs(os).entries[j]);
    hide RoleBefore, TextLe;
  }
}
