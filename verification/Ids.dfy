/** Stable entry ids: what an entry is, and the string key derived from it. */
module Ids {
  import opened Basics
  import Decimal

  datatype OsKind = Windows | Linux | NixOs | Bsd | GenericEfi | RecoveryOs

  function Slug(kind: OsKind): (s: string) {
    match kind
    case Windows => "windows"
    case Linux => "linux"
    case NixOs => "nixos"
    case Bsd => "bsd"
    case GenericEfi => "efi"
    case RecoveryOs => "recovery"
  }

  datatype EntryRole =
    | Default
    | Generation(number: u32)
    | Specialisation(parent: u32, name: string)
    | Kernel(version: string)
    | RecoveryRole
    | Fallback

  function RoleSlug(role: EntryRole): (s: string) {
    match role
    case Default => "default"
    case Generation(g) => "gen" + Decimal.Print(g)
    case Specialisation(parent, name) => "gen" + Decimal.Print(parent) + "." + name
    case Kernel(k) => "kernel." + k
    case RecoveryRole => "recovery"
    case Fallback => "fallback"
  }

  /** Lower sorts first. */
  function OrderKey(role: EntryRole): (k: (int, int)) {
    match role
    case Default => (0, 0)
    case Generation(g) => (1, -(g as int))
    case Specialisation(parent, _) => (2, -(parent as int))
    case Kernel(_) => (3, 0)
    case RecoveryRole => (4, 0)
    case Fallback => (5, 0)
  }

  datatype EntryId = EntryId(text: string)

  /** One separator for paths, one case for ASCII letters. */
  function NormalChar(c: char): (r: char)
    ensures r == ':' <==> c == ':'
    ensures r == '@' <==> c == '@'
  {
    if c == '\\' then '/' else if 'A' <= c <= 'Z' then (c as int + 32) as char else c
  }

  function Normal(s: string): (r: string)
    ensures ':' in r <==> ':' in s
    ensures '@' in r <==> '@' in s
  {
    var r := Map(s, NormalChar);
    assert forall i :: 0 <= i < |s| ==> r[i] == NormalChar(s[i]);
    assert ':' in s ==> ':' in r by {
      if ':' in s { var i :| 0 <= i < |s| && s[i] == ':'; assert r[i] == ':'; }
    }
    assert '@' in s ==> '@' in r by {
      if '@' in s { var i :| 0 <= i < |s| && s[i] == '@'; assert r[i] == '@'; }
    }
    r
  }

  function NormalOption(s: Option<string>): Option<string> {
    if s.Some? then Some(Normal(s.value)) else None
  }

  /** `a`, followed by `sep` and `x` when `x` is present. */
  function Suffixed(a: string, sep: char, x: Option<string>): string {
    if x.Some? then a + [sep] + x.value else a
  }

  /** The id an entry's attributes denote, before any volume. */
  function BaseId(kind: OsKind, role: EntryRole, loader: Option<string>): EntryId {
    EntryId(Suffixed(Slug(kind) + ":" + RoleSlug(role), ':', NormalOption(loader)))
  }

  function ScopedId(kind: OsKind, role: EntryRole, loader: Option<string>, volume: Option<string>): EntryId {
    EntryId(Suffixed(BaseId(kind, role, loader).text, '@', NormalOption(volume)))
  }

  // ---- which texts normalise alike ----

  /** The same character, either separator of paths, or one ASCII letter in its two cases. */
  predicate SameLetter(c: char, d: char) {
    || c == d
    || ((c == '\\' || c == '/') && (d == '\\' || d == '/'))
    || ('a' <= c <= 'z' && d as int == c as int - 0x20)
    || ('a' <= d <= 'z' && c as int == d as int - 0x20)
  }

  /** Texts that differ at most in the case of ASCII letters and in `\` for `/`. */
  predicate SameSpelling(a: string, b: string) {
    |a| == |b| && forall i :: 0 <= i < |a| ==> SameLetter(a[i], b[i])
  }

  predicate SameOption(a: Option<string>, b: Option<string>) {
    if a.Some? && b.Some? then SameSpelling(a.value, b.value) else a.Some? == b.Some?
  }

  /** In normal form: no backslash and no upper-case ASCII letter. */
  predicate IsNormal(s: string) { forall i :: 0 <= i < |s| ==> s[i] != '\\' && !('A' <= s[i] <= 'Z') }

  lemma LettersAlike(c: char, d: char)
    ensures NormalChar(c) == NormalChar(d) <==> SameLetter(c, d)
  {
  }

  /** Two texts normalise alike exactly when they are spelt the same but for case and separators. */
  lemma NormalExactly(a: string, b: string)
    ensures Normal(a) == Normal(b) <==> SameSpelling(a, b)
  {
    forall i | 0 <= i < |a| && i < |b| ensures Normal(a)[i] == Normal(b)[i] <==> SameLetter(a[i], b[i]) {
      LettersAlike(a[i], b[i]);
    }
    hide SameLetter, NormalChar;
  }

  /** The result is the one text in normal form that is spelt like the original. */
  lemma NormalForm(s: string, t: string)
    ensures Normal(s) == t <==> IsNormal(t) && SameSpelling(s, t)
  {
    var r := Normal(s);
    forall i | 0 <= i < |s| && i < |t|
      ensures r[i] == t[i] <==> t[i] != '\\' && !('A' <= t[i] <= 'Z') && SameLetter(s[i], t[i])
    {
      assert r[i] == NormalChar(s[i]);
    }
    hide SameLetter, NormalChar;
  }

  /** Append the normalised characters of `tail` to `s`, one push at a time. */
  method PushNormal(s: string, tail: string) returns (r: string)
    ensures r == s + Normal(tail)
  {
    r := s;
    for i := 0 to |tail|
      invariant r == s + Normal(tail)[..i]
    {
      r := r + [NormalChar(tail[i])];
    }
  }

  method Derive(kind: OsKind, role: EntryRole, loader: Option<string>) returns (id: EntryId)
    ensures id == BaseId(kind, role, loader)
  {
    var s := Slug(kind);
    s := s + [':'];
    s := s + RoleSlug(role);
    if loader.Some? {
      s := s + [':'];
      s := PushNormal(s, loader.value);
    }
    id := EntryId(s);
  }

  method DeriveScoped(kind: OsKind, role: EntryRole, loader: Option<string>, volume: Option<string>)
    returns (id: EntryId)
    ensures id == ScopedId(kind, role, loader, volume)
  {
    id := Derive(kind, role, loader);
    if volume.Some? {
      var s := id.text + ['@'];
      s := PushNormal(s, volume.value);
      id := EntryId(s);
    }
  }

  /** `s.split(sep).next()`: everything before the first separator. */
  function Before(s: string, sep: char): (r: string)
    ensures r <= s && sep !in r
    ensures |r| < |s| ==> s[|r|] == sep
  {
    if s == [] || s[0] == sep then []
    else
      var r := Before(s[1..], sep);
      assert [s[0]] + r <= s;
      [s[0]] + r
  }

  /** The kind an id's leading slug names. */
  function KindOf(id: EntryId): OsKind {
    var slug := Before(id.text, ':');
    if slug == "windows" then Windows
    else if slug == "linux" then Linux
    else if slug == "nixos" then NixOs
    else if slug == "bsd" then Bsd
    else if slug == "recovery" then RecoveryOs
    else GenericEfi
  }

  predicate RoleFree(role: EntryRole, c: char) {
    (role.Specialisation? ==> c !in role.name) && (role.Kernel? ==> c !in role.version)
  }

  predicate OptionFree(s: Option<string>, c: char) { s.Some? ==> c !in s.value }

  lemma {:induction false} BeforeSeparator(a: string, sep: char, b: string)
    requires sep !in a
    ensures Before(a + [sep] + b, sep) == a
  {
    if a == [] {
    } else {
      assert (a + [sep] + b)[1..] == a[1..] + [sep] + b;
      BeforeSeparator(a[1..], sep, b);
    }
  }

  lemma BeforeAbsent(a: string, sep: char)
    requires sep !in a
    ensures Before(a, sep) == a
  {
  }

  /** A separator that occurs in neither head determines both head and tail. */
  lemma SuffixedInjective(a: string, x: Option<string>, b: string, y: Option<string>, sep: char)
    requires sep !in a && sep !in b
    requires Suffixed(a, sep, x) == Suffixed(b, sep, y)
    ensures a == b && x == y
  {
    var s := Suffixed(a, sep, x);
    if x.Some? { BeforeSeparator(a, sep, x.value); } else { BeforeAbsent(a, sep); }
    if y.Some? { BeforeSeparator(b, sep, y.value); } else { BeforeAbsent(b, sep); }
    assert a == b == Before(s, sep);
    if x.Some? {
      assert s[|a| + 1..] == x.value;
    }
    if y.Some? {
      assert s[|a| + 1..] == y.value;
    }
  }

  lemma SlugFacts(kind: OsKind)
    ensures ':' !in Slug(kind) && '@' !in Slug(kind)
  {
  }

  lemma SuffixedHead(h: string, a: string, sep: char, x: Option<string>)
    ensures Suffixed(h + a, sep, x) == h + Suffixed(a, sep, x)
  {
  }

  lemma KindOfSlug(kind: OsKind, rest: string)
    ensures KindOf(EntryId(Slug(kind) + [':'] + rest)) == kind
  {
    SlugFacts(kind);
    BeforeSeparator(Slug(kind), ':', rest);
  }

  /** Which kind a text names: that of its front up to the first colon, and plain EFI when that is no slug. */
  lemma KindNamed(text: string)
    ensures var slug, kind := Before(text, ':'), KindOf(EntryId(text));
            && (slug == "windows" <==> kind == Windows) && (slug == "linux" <==> kind == Linux)
            && (slug == "nixos" <==> kind == NixOs) && (slug == "bsd" <==> kind == Bsd)
            && (slug == "recovery" <==> kind == RecoveryOs)
            && (kind == GenericEfi <==> slug !in ["windows", "linux", "nixos", "bsd", "recovery"])
  {
  }

  /** Every id names the kind it was derived from, whatever the role, loader and volume contain. */
  lemma KindRecovered(kind: OsKind, role: EntryRole, loader: Option<string>, volume: Option<string>)
    ensures KindOf(ScopedId(kind, role, loader, volume)) == kind
  {
    var h, a, x, y := Slug(kind) + ":", RoleSlug(role), NormalOption(loader), NormalOption(volume);
    SuffixedHead(h, a, ':', x);
    SuffixedHead(h, Suffixed(a, ':', x), '@', y);
    KindOfSlug(kind, Suffixed(Suffixed(a, ':', x), '@', y));
  }

  lemma RoleSlugFree(role: EntryRole, c: char)
    requires c == ':' || c == '@'
    ensures c !in RoleSlug(role) <==> RoleFree(role, c)
  {
    match role
    case Specialisation(parent, name) =>
      assert RoleSlug(role)[|RoleSlug(role)| - |name|..] == name;
    case Kernel(version) =>
      assert RoleSlug(role)[|RoleSlug(role)| - |version|..] == version;
    case _ =>
  }

  lemma BaseFree(kind: OsKind, role: EntryRole, loader: Option<string>)
    ensures '@' !in BaseId(kind, role, loader).text <==> RoleFree(role, '@') && OptionFree(loader, '@')
  {
    RoleSlugFree(role, '@');
    SlugFacts(kind);
    var head := Slug(kind) + ":" + RoleSlug(role);
    assert '@' in head <==> '@' in RoleSlug(role);
    if loader.Some? {
      assert BaseId(kind, role, loader).text == head + ":" + Normal(loader.value);
    }
  }

  /** The text before the first '@' is the volume-less id exactly when role and loader hold no '@'. */
  lemma BaseRecovered(kind: OsKind, role: EntryRole, loader: Option<string>, volume: Option<string>)
    ensures Before(ScopedId(kind, role, loader, volume).text, '@') == BaseId(kind, role, loader).text <==>
            RoleFree(role, '@') && OptionFree(loader, '@')
  {
    BaseFree(kind, role, loader);
    var base := BaseId(kind, role, loader).text;
    if '@' !in base {
      if volume.Some? { BeforeSeparator(base, '@', Normal(volume.value)); } else { BeforeAbsent(base, '@'); }
    }
  }

  /** A role starting "gen" as digits and an optional dotted name. */
  function GenerationName(role: EntryRole): Option<string> {
    if role.Specialisation? then Some(role.name) else None
  }

  function GenerationNumber(role: EntryRole): nat
    requires role.Generation? || role.Specialisation?
  {
    if role.Generation? then role.number else role.parent
  }

  /** The first letter separates the role families. */
  lemma RoleTag(role: EntryRole)
    ensures RoleSlug(role) != []
    ensures RoleSlug(role)[0] ==
            match role
            case Default => 'd'
            case Generation(_) => 'g'
            case Specialisation(_, _) => 'g'
            case Kernel(_) => 'k'
            case RecoveryRole => 'r'
            case Fallback => 'f'
  {
  }

  lemma GenerationSlug(role: EntryRole)
    requires role.Generation? || role.Specialisation?
    ensures |RoleSlug(role)| >= 3
    ensures RoleSlug(role)[3..] == Suffixed(Decimal.Print(GenerationNumber(role)), '.', GenerationName(role))
  {
  }

  lemma RoleSlugInjective(a: EntryRole, b: EntryRole)
    requires RoleSlug(a) == RoleSlug(b)
    ensures a == b
  {
    RoleTag(a);
    RoleTag(b);
    if a.Generation? || a.Specialisation? {
      var m, n := GenerationNumber(a), GenerationNumber(b);
      GenerationSlug(a);
      GenerationSlug(b);
      SuffixedInjective(Decimal.Print(m), GenerationName(a), Decimal.Print(n), GenerationName(b), '.');
      Decimal.PrintInjective(m, n);
    } else if a.Kernel? {
      assert RoleSlug(a)[7..] == a.version && RoleSlug(b)[7..] == b.version;
    }
  }

  lemma SuffixedAfterHead(h: string, a: string, x: Option<string>, b: string, y: Option<string>, sep: char)
    requires sep !in a && sep !in b
    requires Suffixed(h + a, sep, x) == Suffixed(h + b, sep, y)
    ensures a == b && x == y
  {
    assert Suffixed(h + a, sep, x)[|h|..] == Suffixed(a, sep, x);
    assert Suffixed(h + b, sep, y)[|h|..] == Suffixed(b, sep, y);
    SuffixedInjective(a, x, b, y, sep);
  }

  lemma BaseInjective(k: OsKind, r: EntryRole, l: Option<string>, r': EntryRole, l': Option<string>)
    requires RoleFree(r, ':') && RoleFree(r', ':')
    requires BaseId(k, r, l) == BaseId(k, r', l')
    ensures r == r' && NormalOption(l) == NormalOption(l')
  {
    RoleSlugFree(r, ':');
    RoleSlugFree(r', ':');
    SuffixedAfterHead(Slug(k) + ":", RoleSlug(r), NormalOption(l), RoleSlug(r'), NormalOption(l'), ':');
    RoleSlugInjective(r, r');
  }

  /** Two ids are the same key exactly when they were derived from the same attributes. */
  lemma ScopedInjective(
    k: OsKind, r: EntryRole, l: Option<string>, v: Option<string>,
    k': OsKind, r': EntryRole, l': Option<string>, v': Option<string>)
    requires RoleFree(r, ':') && RoleFree(r, '@') && OptionFree(l, '@')
    requires RoleFree(r', ':') && RoleFree(r', '@') && OptionFree(l', '@')
    ensures ScopedId(k, r, l, v) == ScopedId(k', r', l', v') <==>
            k == k' && r == r' && NormalOption(l) == NormalOption(l') && NormalOption(v) == NormalOption(v')
  {
    if ScopedId(k, r, l, v) == ScopedId(k', r', l', v') {
      KindRecovered(k, r, l, v);
      KindRecovered(k', r', l', v');
      BaseFree(k, r, l);
      BaseFree(k', r', l');
      var b, b' := BaseId(k, r, l).text, BaseId(k', r', l').text;
      SuffixedInjective(b, NormalOption(v), b', NormalOption(v'), '@');
      BaseInjective(k, r, l, r', l');
    }
  }

  /**
   * For the loaders and volumes as they are written: two descriptions share a key exactly when kind and role are the
   * same and loader and volume are spelt the same, but for the case of ASCII letters and for `\` against `/`.
   */
  lemma KeysByText(
    k: OsKind, r: EntryRole, l: Option<string>, v: Option<string>,
    k': OsKind, r': EntryRole, l': Option<string>, v': Option<string>)
    requires RoleFree(r, ':') && RoleFree(r, '@') && OptionFree(l, '@')
    requires RoleFree(r', ':') && RoleFree(r', '@') && OptionFree(l', '@')
    ensures ScopedId(k, r, l, v) == ScopedId(k', r', l', v') <==>
            k == k' && r == r' && SameOption(l, l') && SameOption(v, v')
  {
    ScopedInjective(k, r, l, v, k', r', l', v');
    if l.Some? && l'.Some? { NormalExactly(l.value, l'.value); }
    if v.Some? && v'.Some? { NormalExactly(v.value, v'.value); }
    hide SameSpelling, ScopedId, Normal;
  }

  /** Keys are stored across boots, so their very texts matter: kind, role, loader and volume, in this order. */
  lemma KeyTexts(number: u32, name: string, loader: string, volume: string)
    ensures ScopedId(Windows, Default, Some(loader), Some(volume)).text ==
            "windows:default" + ":" + Normal(loader) + "@" + Normal(volume)
    ensures ScopedId(Linux, Kernel(name), None, None).text == "linux:" + ("kernel." + name)
    ensures ScopedId(NixOs, Generation(number), None, None).text == "nixos:" + ("gen" + Decimal.Print(number))
    ensures ScopedId(NixOs, Specialisation(number, name), None, None).text ==
            "nixos:" + ("gen" + Decimal.Print(number) + "." + name)
    ensures ScopedId(Bsd, Fallback, None, None).text == "bsd:" + "fallback"
    ensures ScopedId(GenericEfi, Default, None, None).text == "efi:" + "default"
    ensures ScopedId(RecoveryOs, RecoveryRole, None, None).text == "recovery:" + "recovery"
  {
    hide Normal, Decimal.Print;
    assert "windows" + ":" + "default" == "windows:default";
  }

  /** Each exclusion above is needed: without it two different entries share a key. */
  lemma SeparatorCollisions(kind: OsKind)
    ensures ScopedId(kind, Kernel("a:b"), None, None) == ScopedId(kind, Kernel("a"), Some("b"), None)
    ensures ScopedId(kind, Kernel("a@b"), None, None) == ScopedId(kind, Kernel("a"), None, Some("b"))
    ensures ScopedId(kind, Default, Some("a@b"), None) == ScopedId(kind, Default, Some("a"), Some("b"))
  {
    assert Normal("a@b") == "a@b" && Normal("a") == "a" && Normal("b") == "b";
    var h := Slug(kind) + ":";
    assert h + "kernel.a:b" == h + "kernel.a" + ":" + "b";
    assert h + "kernel.a@b" == h + "kernel.a" + "@" + "b";
    assert h + "default" + ":" + "a@b" == h + "default" + ":" + "a" + "@" + "b";
    assert "kernel." + "a:b" == "kernel.a:b" && "kernel." + "a@b" == "kernel.a@b" && "kernel." + "a" == "kernel.a";
  }
}
