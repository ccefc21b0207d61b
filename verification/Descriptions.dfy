/** What an entry of the finished graph holds, said of the raw descriptions it was discovered by. */
module Descriptions {
  import opened Basics
  import opened Ids
  import opened Graph
  import opened Discovery
  import Utf8

  /** The descriptions that share this id, in the order they were discovered. */
  function DescriptionsOf(raw: seq<RawEntry>, id: EntryId): seq<RawEntry> {
    Filter(raw, (r: RawEntry) => ScopedId(r.kind, r.role, r.loader, r.volume) == id)
  }

  /** `x` is the first value that some description gives, or absent when none does. */
  ghost predicate FirstGiven<T>(g: seq<T>, field: T -> Option<string>, x: Option<string>) {
    if x.Some? then
      exists i :: 0 <= i < |g| && field(g[i]) == x && forall j :: 0 <= j < i ==> field(g[j]).None?
    else forall i :: 0 <= i < |g| ==> field(g[i]).None?
  }

  ghost predicate Mentions(text: string, part: string) { exists a, b :: text == a + part + b }

  /** The end of a volume id that makes up its last six bytes, or all of it when it has no more. */
  ghost predicate LastSix(volume: string, tag: string) {
    exists head :: volume == head + tag
      && (|Utf8.Encode(tag)| == 6 || (head == [] && |Utf8.Encode(tag)| <= 6))
  }

  /** A fallback loader is told apart by its volume; every other title stays as discovered. */
  ghost predicate Titled(r: RawEntry, title: string) {
    if Mentions(r.title, "Fallback Loader") && r.volume.Some? then
      exists tag :: LastSix(r.volume.value, tag) && title == r.title + " [" + tag + "]"
    else title == r.title
  }

  /** `t` is the first of the longest texts, in bytes. */
  ghost predicate FirstOfLongest(texts: seq<string>, t: string) {
    exists i :: 0 <= i < |texts| && texts[i] == t
      && (forall j :: 0 <= j < |texts| ==> |Utf8.Encode(texts[j])| <= |Utf8.Encode(t)|)
      && (forall j :: 0 <= j < i ==> |Utf8.Encode(texts[j])| < |Utf8.Encode(t)|)
  }

  ghost predicate AllTitled(g: seq<RawEntry>, titles: seq<string>) {
    |titles| == |g| && forall i :: 0 <= i < |g| ==> Titled(g[i], titles[i])
  }

  /** The entry that a group of descriptions stands for, field by field. */
  ghost predicate Describe(g: seq<RawEntry>, e: BootEntry) {
    && g != []
    && (forall r :: r in g ==> r.kind == KindOf(e.id))
    && e.role == g[0].role && e.bootMethod == g[0].bootMethod && e.volume == g[0].volume
    && e.health == Unknown && e.lastResult == None
    && FirstGiven(g, (r: RawEntry) => r.loader, e.loader)
    && FirstGiven(g, (r: RawEntry) => r.kernel, e.kernel)
    && FirstGiven(g, (r: RawEntry) => r.initrd, e.initrd)
    && FirstGiven(g, (r: RawEntry) => r.cmdline, e.cmdline)
    && exists titles :: AllTitled(g, titles) && FirstOfLongest(titles, e.title)
  }

  // ---- titles ----

  lemma {:induction false} ContainsExactly(s: string, part: string)
    ensures Contains(s, part) <==> Mentions(s, part)
    decreases |s|
  {
    if part <= s {
      assert s == [] + part + s[|part|..];
    } else if s != [] {
      ContainsExactly(s[1..], part);
      if a, b :| s[1..] == a + part + b { assert s == ([s[0]] + a) + part + b; }
      if a, b :| s == a + part + b {
        assert a != [];
        assert s[1..] == a[1..] + part + b;
      }
    } else {
      assert forall a, b :: |a + part + b| >= |part|;
    }
  }

  lemma {:induction false} SixBytes(v: string)
    requires SixByteTail(v).Some?
    ensures exists head :: v == head + SixByteTail(v).value
    ensures |Utf8.Encode(SixByteTail(v).value)| == 6
  {
    if ByteLength(v) == 6 {
      assert v == [] + v;
    } else {
      SixBytes(v[1..]);
      var head :| v[1..] == head + SixByteTail(v[1..]).value;
      assert v == ([v[0]] + head) + SixByteTail(v).value;
    }
  }

  lemma TagIsLastSix(v: string)
    requires VolumeTag(v).Some?
    ensures LastSix(v, VolumeTag(v).value)
  {
    if ByteLength(v) <= 6 {
      assert v == [] + v;
    } else {
      SixBytes(v);
    }
  }

  lemma TitleSaid(r: RawEntry)
    requires Taggable(r)
    ensures Titled(r, TitleOf(r))
  {
    ContainsExactly(r.title, "Fallback Loader");
    hide Contains, Mentions, VolumeTag, LastSix;
    if Contains(r.title, FALLBACK) && r.volume.Some? { TagIsLastSix(r.volume.value); }
  }

  // ---- groups ----

  /** A description turned into an entry keeps each field in its own place. */
  lemma EachFieldKept(r: RawEntry)
    requires Taggable(r)
    ensures var e := ToEntry(r);
            && e.id == ScopedId(r.kind, r.role, r.loader, r.volume)
            && e.role == r.role && e.bootMethod == r.bootMethod && e.volume == r.volume
            && e.loader == r.loader && e.kernel == r.kernel && e.initrd == r.initrd && e.cmdline == r.cmdline
            && e.health == Unknown && e.lastResult == None && Titled(r, e.title)
  {
    TitleSaid(r);
  }

  lemma DescriptionsSnoc(raw: seq<RawEntry>, r: RawEntry, id: EntryId)
    ensures DescriptionsOf(raw + [r], id) ==
            if ScopedId(r.kind, r.role, r.loader, r.volume) == id then DescriptionsOf(raw, id) + [r]
            else DescriptionsOf(raw, id)
  {
    hide ScopedId;
    FilterSnoc(raw, r, (r: RawEntry) => ScopedId(r.kind, r.role, r.loader, r.volume) == id);
  }

  lemma EntriesSnoc(raw: seq<RawEntry>, r: RawEntry)
    requires Taggable(r) && forall q :: q in raw ==> Taggable(q)
    ensures ToEntries(raw + [r]) == ToEntries(raw) + [ToEntry(r)]
  {
    hide ToEntry, Taggable;
  }

  lemma DescriptionsFrom(raw: seq<RawEntry>, id: EntryId)
    ensures forall r :: r in DescriptionsOf(raw, id) ==>
              r in raw && ScopedId(r.kind, r.role, r.loader, r.volume) == id
  {
    hide ScopedId;
    FilterMembers(raw, (r: RawEntry) => ScopedId(r.kind, r.role, r.loader, r.volume) == id);
  }

  lemma {:induction false} GroupIsDescribed(raw: seq<RawEntry>, id: EntryId)
    requires forall r :: r in raw ==> Taggable(r)
    ensures forall r :: r in DescriptionsOf(raw, id) ==> Taggable(r)
    ensures Group(ToEntries(raw), id) == ToEntries(DescriptionsOf(raw, id))
    decreases |raw|
  {
    hide ScopedId, ToEntry, ToEntries, Titled, Taggable, DescriptionsOf;
    DescriptionsFrom(raw, id);
    if raw == [] {
      NothingDescribed(id);
    } else {
      var front, r := raw[..|raw| - 1], raw[|raw| - 1];
      assert raw == front + [r];
      GroupIsDescribed(front, id);
      EachFieldKept(r);
      DescriptionsSnoc(front, r, id);
      EntriesSnoc(front, r);
      EntriesSnoc(DescriptionsOf(front, id), r);
      GroupSnoc(ToEntries(front), ToEntry(r), id);
    }
  }

  lemma NothingDescribed(id: EntryId)
    ensures Group(ToEntries([]), id) == ToEntries(DescriptionsOf([], id)) == []
  {
  }

  lemma {:induction false} PresentIsGiven(g: seq<BootEntry>, field: BootEntry -> Option<string>)
    ensures FirstGiven(g, field, FirstPresent(g, field))
  {
    if g == [] {
    } else {
      PresentIsGiven(g[1..], field);
      var x, rest := FirstPresent(g, field), g[1..];
      assert forall i :: 0 <= i < |rest| ==> g[i + 1] == rest[i];
      if field(g[0]).Some? {
        assert field(g[0]) == x;
      } else if x.Some? {
        var i :| 0 <= i < |rest| && field(rest[i]) == x && forall j :: 0 <= j < i ==> field(rest[j]).None?;
        assert field(g[i + 1]) == x;
        forall j | 0 <= j < i + 1 ensures field(g[j]).None? { if j > 0 { assert g[j] == rest[j - 1]; } }
      } else {
        forall i | 0 <= i < |g| ensures field(g[i]).None? { if i > 0 { assert g[i] == rest[i - 1]; } }
      }
    }
  }

  /** A field of the entries that is a field of the descriptions. */
  lemma GivenAlong(
    g: seq<RawEntry>, es: seq<BootEntry>, said: RawEntry -> Option<string>, field: BootEntry -> Option<string>)
    requires |es| == |g| && forall i :: 0 <= i < |g| ==> field(es[i]) == said(g[i])
    ensures FirstGiven(g, said, FirstPresent(es, field))
  {
    PresentIsGiven(es, field);
    var x := FirstPresent(es, field);
    if x.Some? {
      var i :| 0 <= i < |es| && field(es[i]) == x && forall j :: 0 <= j < i ==> field(es[j]).None?;
      assert said(g[i]) == x;
    }
  }

  lemma PathsGiven(g: seq<RawEntry>)
    requires forall r :: r in g ==> Taggable(r)
    ensures FirstGiven(g, (r: RawEntry) => r.loader, FirstPresent(ToEntries(g), LoaderOf))
    ensures FirstGiven(g, (r: RawEntry) => r.kernel, FirstPresent(ToEntries(g), KernelOf))
    ensures FirstGiven(g, (r: RawEntry) => r.initrd, FirstPresent(ToEntries(g), InitrdOf))
    ensures FirstGiven(g, (r: RawEntry) => r.cmdline, FirstPresent(ToEntries(g), CmdlineOf))
  {
    var es := ToEntries(g);
    forall i | 0 <= i < |g| ensures SamePaths(g[i], es[i]) { EachFieldKept(g[i]); }
    hide FirstGiven, FirstPresent, ToEntry, ToEntries, Taggable;
    GivenAlong(g, es, (r: RawEntry) => r.loader, LoaderOf);
    GivenAlong(g, es, (r: RawEntry) => r.kernel, KernelOf);
    GivenAlong(g, es, (r: RawEntry) => r.initrd, InitrdOf);
    GivenAlong(g, es, (r: RawEntry) => r.cmdline, CmdlineOf);
  }

  predicate SamePaths(r: RawEntry, e: BootEntry) {
    e.loader == r.loader && e.kernel == r.kernel && e.initrd == r.initrd && e.cmdline == r.cmdline
  }

  lemma TitlesSaid(g: seq<RawEntry>, t: string)
    requires (forall r :: r in g ==> Taggable(r)) && FirstLongest(ToEntries(g), t)
    ensures exists titles :: AllTitled(g, titles) && FirstOfLongest(titles, t)
  {
    var es := ToEntries(g);
    var titles := seq(|es|, i requires 0 <= i < |es| => es[i].title);
    forall i | 0 <= i < |g| ensures Titled(g[i], titles[i]) { EachFieldKept(g[i]); }
    assert AllTitled(g, titles);
    hide Titled, AllTitled, ToEntry, ToEntries, Taggable, FirstLongest, FirstOfLongest;
    LongestTitle(es, titles, t);
  }

  lemma LongestTitle(es: seq<BootEntry>, titles: seq<string>, t: string)
    requires |titles| == |es| && forall i :: 0 <= i < |es| ==> titles[i] == es[i].title
    requires FirstLongest(es, t)
    ensures FirstOfLongest(titles, t)
  {
    var i :| 0 <= i < |es| && es[i].title == t
      && (forall j :: 0 <= j < |es| ==> ByteLength(es[j].title) <= ByteLength(t))
      && (forall j :: 0 <= j < i ==> ByteLength(es[j].title) < ByteLength(t));
    hide Utf8.Encode;
    assert titles[i] == t;
    forall j | 0 <= j < |titles| ensures |Utf8.Encode(titles[j])| == ByteLength(es[j].title) {}
  }

  lemma RepresentsSaid(es: seq<BootEntry>, e: BootEntry)
    requires Represents(es, e)
    ensures es != [] && e.id == es[0].id
    ensures e.role == es[0].role && e.bootMethod == es[0].bootMethod && e.volume == es[0].volume
    ensures e.health == es[0].health && e.lastResult == es[0].lastResult
    ensures e.loader == FirstPresent(es, LoaderOf) && e.kernel == FirstPresent(es, KernelOf)
    ensures e.initrd == FirstPresent(es, InitrdOf) && e.cmdline == FirstPresent(es, CmdlineOf)
    ensures FirstLongest(es, e.title)
  {
    hide FirstPresent, FirstLongest;
  }

  /** What represents a group of converted descriptions is described by them. */
  lemma RepresentsDescribed(g: seq<RawEntry>, id: EntryId, e: BootEntry)
    requires forall r :: r in g ==> Taggable(r) && ScopedId(r.kind, r.role, r.loader, r.volume) == id
    requires Represents(ToEntries(g), e)
    ensures e.id == id && Describe(g, e)
  {
    hide FirstGiven, FirstPresent, FirstLongest, Represents, ScopedId, KindOf, ToEntry, Titled, AllTitled;
    hide FirstOfLongest, Taggable;
    RepresentsSaid(ToEntries(g), e);
    EachFieldKept(g[0]);
    PathsGiven(g);
    TitlesSaid(g, e.title);
    forall r | r in g ensures r.kind == KindOf(id) { KindRecovered(r.kind, r.role, r.loader, r.volume); }
  }

  /**
   * Every entry of the finished graph is what its descriptions say: each path and the command line is the first
   * given, role, method and volume are those of the first, and the title is the first of the longest, tagged with the
   * end of the volume id exactly for fallback loaders.
   */
  lemma GraphDescribed(raw: seq<RawEntry>, e: BootEntry)
    requires (forall r :: r in raw ==> Taggable(r)) && e in SystemEntries(SystemsOf(raw))
    ensures Describe(DescriptionsOf(raw, e.id), e)
  {
    var es := ToEntries(raw);
    GraphConserves(raw);
    assert e in multiset(SystemEntries(SystemsOf(raw)));
    KeptExactly(es, e);
    MergeFaithful(es);
    GroupIsDescribed(raw, e.id);
    DescriptionsFrom(raw, e.id);
    hide Represents, Describe, ScopedId, Kept, SystemsOf, SystemEntries, Group, MergeAll, ToEntries, Taggable;
    var k :| 0 <= k < |MergeAll(es)| && MergeAll(es)[k] == e;
    RepresentsDescribed(DescriptionsOf(raw, e.id), e.id, e);
  }
}
