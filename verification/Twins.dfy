/** When the redundancy test for volume-less entries is right: it compares ids cut at their first '@'. */
module Twins {
  import opened Basics
  import opened Ids
  import opened Collisions
  import opened Discovery

  /** The text test of the twin filter, on two raw entries. */
  predicate LooksLikeTwin(r: RawEntry, v: RawEntry) {
    Before(IdOfRaw(v).text, '@') == IdOfRaw(r).text
  }

  /** What the filter means to find: the same kind, role and loader. */
  predicate IsTwin(r: RawEntry, v: RawEntry) {
    r.kind == v.kind && r.role == v.role && NormalOption(r.loader) == NormalOption(v.loader)
  }

  predicate AtFree(r: RawEntry) { RoleFree(r.role, '@') && OptionFree(r.loader, '@') }

  // ---- what is left of an id that is cut at '@' ----

  function CutRole(role: EntryRole): EntryRole {
    if Named(role) then WithName(role, Before(NameOf(role), '@')) else role
  }

  function CutLoader(role: EntryRole, loader: Option<string>): Option<string> {
    if loader.Some? && RoleFree(role, '@') then Some(Before(loader.value, '@')) else None
  }

  lemma {:induction false} BeforeAppend(a: string, b: string, sep: char)
    ensures Before(a + b, sep) == if sep in a then Before(a, sep) else a + Before(b, sep)
  {
    if a == [] {
      assert a + b == b;
    } else {
      assert (a + b)[0] == a[0] && (a + b)[1..] == a[1..] + b;
      BeforeAppend(a[1..], b, sep);
    }
  }

  lemma {:induction false} BeforeNormal(s: string)
    ensures Normal(Before(s, '@')) == Before(Normal(s), '@')
  {
    if s == [] {
    } else {
      BeforeNormal(s[1..]);
      NormalAppend([s[0]], s[1..]);
      assert s == [s[0]] + s[1..];
      assert Normal(s)[0] == NormalChar(s[0]) && Normal(s)[1..] == Normal(s[1..]);
      NormalAppend([s[0]], Before(s[1..], '@'));
    }
  }

  lemma CutSlug(role: EntryRole)
    ensures Before(RoleSlug(role), '@') == RoleSlug(CutRole(role))
    ensures RoleFree(CutRole(role), '@') && (RoleFree(role, '@') ==> CutRole(role) == role)
  {
    if Named(role) {
      var head, name := WithName(role, ""), NameOf(role);
      NamedSlug(head, name);
      NamedSlug(head, Before(name, '@'));
      RoleSlugFree(head, '@');
      assert "" + name == name && "" + Before(name, '@') == Before(name, '@');
      BeforeAppend(RoleSlug(head), name, '@');
      if '@' !in name { BeforeAbsent(name, '@'); }
    } else {
      RoleSlugFree(role, '@');
      BeforeAbsent(RoleSlug(role), '@');
    }
  }

  lemma CutColon(role: EntryRole, loader: Option<string>)
    requires RoleFree(role, '@')
    ensures Before(Extra(loader, None), '@') == Extra(CutLoader(role, loader), None)
  {
    if loader.Some? {
      assert Extra(loader, None) == ":" + Normal(loader.value);
      BeforeAppend(":", Normal(loader.value), '@');
      BeforeNormal(loader.value);
      assert Extra(CutLoader(role, loader), None) == ":" + Before(Normal(loader.value), '@');
    }
  }

  lemma CutExtra(role: EntryRole, loader: Option<string>, volume: Option<string>)
    requires RoleFree(role, '@')
    ensures Before(Extra(loader, volume), '@') == Extra(CutLoader(role, loader), None)
  {
    CutColon(role, loader);
    if volume.Some? {
      hide Normal;
      var colon, rest := Extra(loader, None), ['@'] + Normal(volume.value);
      AppendAssociative(colon, ['@'], Normal(volume.value));
      assert Extra(loader, volume) == colon + rest;
      assert Before(rest, '@') == [];
      BeforeAppend(colon, rest, '@');
      if '@' !in colon { BeforeAbsent(colon, '@'); }
    }
  }

  /** The cut id is that of the attributes up to the first '@' in them. */
  lemma CutBase(kind: OsKind, role: EntryRole, loader: Option<string>, volume: Option<string>)
    ensures Before(ScopedId(kind, role, loader, volume).text, '@') ==
            ScopedId(kind, CutRole(role), CutLoader(role, loader), None).text
  {
    IdText(kind, role, loader, volume);
    IdText(kind, CutRole(role), CutLoader(role, loader), None);
    SlugFacts(kind);
    var head, x := Slug(kind) + ":", Extra(loader, volume);
    CutSlug(role);
    RoleSlugFree(role, '@');
    BeforeAppend(head, RoleSlug(role) + x, '@');
    BeforeAppend(RoleSlug(role), x, '@');
    if RoleFree(role, '@') {
      CutExtra(role, loader, volume);
    } else {
      ExtraShape(None, None);
      assert RoleSlug(CutRole(role)) + [] == RoleSlug(CutRole(role));
    }
  }

  // ---- the test, pair by pair ----

  /** Same id for the same kind: equal attributes, or a role name that takes in the front of the other's loader. */
  ghost predicate Interchangeable(r: EntryRole, l: Option<string>, r': EntryRole, l': Option<string>) {
    || (r == r' && Extra(l, None) == Extra(l', None))
    || TakesIn(r, Extra(l, None), r', Extra(l', None))
    || TakesIn(r', Extra(l', None), r, Extra(l, None))
  }

  /** Which volume-less entries pass for a twin, over all kinds, roles and loaders. */
  lemma TwinExactly(r: RawEntry, v: RawEntry)
    requires r.volume.None?
    ensures LooksLikeTwin(r, v) <==>
            r.kind == v.kind && Interchangeable(r.role, r.loader, CutRole(v.role), CutLoader(v.role, v.loader))
  {
    CutBase(v.kind, v.role, v.loader, v.volume);
    IdsEqualExactly(r.kind, r.role, r.loader, None, v.kind, CutRole(v.role), CutLoader(v.role, v.loader), None);
  }

  /** A genuine twin is recognised exactly when its role and loader hold no '@'; any other is kept as a duplicate. */
  lemma GenuineTwinExactly(r: RawEntry, v: RawEntry)
    requires r.volume.None? && IsTwin(r, v)
    ensures LooksLikeTwin(r, v) <==> AtFree(v)
  {
    BaseRecovered(v.kind, v.role, v.loader, v.volume);
    assert IdOfRaw(r) == BaseId(v.kind, v.role, v.loader);
  }

  /**
   * For one pair the test is right exactly when a twin has no '@', and a stranger is not interchangeable with the
   * cut.
   */
  lemma TestRightExactly(r: RawEntry, v: RawEntry)
    requires r.volume.None?
    ensures (LooksLikeTwin(r, v) <==> IsTwin(r, v)) <==>
            if IsTwin(r, v) then AtFree(v)
            else r.kind != v.kind || !Interchangeable(r.role, r.loader, CutRole(v.role), CutLoader(v.role, v.loader))
  {
    TwinExactly(r, v);
    if IsTwin(r, v) { GenuineTwinExactly(r, v); }
  }

  /** Without '@' and ':' in roles and '@' in loaders the test is right. */
  lemma PlainTwins(r: RawEntry, v: RawEntry)
    requires r.volume.None?
    requires PlainRole(r.role) && OptionFree(r.loader, '@') && PlainRole(v.role) && OptionFree(v.loader, '@')
    ensures LooksLikeTwin(r, v) <==> IsTwin(r, v)
  {
    BaseRecovered(v.kind, v.role, v.loader, v.volume);
    ScopedInjective(r.kind, r.role, r.loader, None, v.kind, v.role, v.loader, None);
  }

  // ---- the test, for one volume-bearing entry against everything ----

  ghost predicate Reliable(v: RawEntry) {
    forall r: RawEntry :: r.volume.None? ==> (LooksLikeTwin(r, v) <==> IsTwin(r, v))
  }

  /** An '@' in the role or loader makes a stranger look like a twin. */
  lemma ForeignTwin(v: RawEntry) returns (r: RawEntry)
    requires !AtFree(v)
    ensures r.volume.None? && LooksLikeTwin(r, v) && !IsTwin(r, v)
  {
    r := v.(role := CutRole(v.role), loader := CutLoader(v.role, v.loader), volume := None);
    CutBase(v.kind, v.role, v.loader, v.volume);
    CutSlug(v.role);
    if RoleFree(v.role, '@') {
      BeforeNormal(v.loader.value);
    }
  }

  /** The test is right about every volume-less entry exactly when there is no '@' and the base is unambiguous. */
  lemma ReliableExactly(v: RawEntry)
    ensures Reliable(v) <==> AtFree(v) && !Ambiguous(v.role, v.loader, None)
  {
    if !AtFree(v) {
      var r := ForeignTwin(v);
    } else if Ambiguous(v.role, v.loader, None) {
      var r := AmbiguousTwin(v);
    } else {
      forall r: RawEntry | r.volume.None? ensures LooksLikeTwin(r, v) <==> IsTwin(r, v) {
        BaseRecovered(v.kind, v.role, v.loader, v.volume);
        AmbiguousExactly(v.kind, v.role, v.loader, None);
        assert IdOfRaw(r) == ScopedId(r.kind, r.role, r.loader, None);
      }
    }
  }

  lemma AmbiguousTwin(v: RawEntry) returns (r: RawEntry)
    requires AtFree(v) && Ambiguous(v.role, v.loader, None)
    ensures r.volume.None? && LooksLikeTwin(r, v) && !IsTwin(r, v)
  {
    AmbiguousExactly(v.kind, v.role, v.loader, None);
    var k': OsKind, r': EntryRole, l': Option<string>, v': Option<string> :|
      ScopedId(k', r', l', v') == ScopedId(v.kind, v.role, v.loader, None)
      && !(v.kind == k' && Same(v.role, v.loader, None, r', l', v'));
    BaseRecovered(v.kind, v.role, v.loader, v.volume);
    BaseFree(v.kind, v.role, v.loader);
    VolumeShows(k', r', l', v');
    r := v.(kind := k', role := r', loader := l', volume := None);
  }

  lemma VolumeShows(k: OsKind, r: EntryRole, l: Option<string>, v: Option<string>)
    ensures v.Some? ==> '@' in ScopedId(k, r, l, v).text
  {
  }
}
