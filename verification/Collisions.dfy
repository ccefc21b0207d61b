/** Which attributes share an entry id with others, over every role, loader and volume. */
module Collisions {
  import opened Basics
  import opened Ids
  import Decimal

  predicate Separator(c: char) { c == ':' || c == '@' }

  /** Roles that carry free text. */
  predicate Named(role: EntryRole) { role.Kernel? || role.Specialisation? }

  function NameOf(role: EntryRole): string
    requires Named(role)
  {
    if role.Kernel? then role.version else role.name
  }

  function WithName(role: EntryRole, name: string): EntryRole
    requires Named(role)
  {
    if role.Kernel? then Kernel(name) else Specialisation(role.parent, name)
  }

  /** The attributes agree, as far as an id can tell. */
  predicate Same(
    r: EntryRole, l: Option<string>, v: Option<string>, r': EntryRole, l': Option<string>, v': Option<string>)
  {
    r == r' && NormalOption(l) == NormalOption(l') && NormalOption(v) == NormalOption(v')
  }

  /** What an id holds after the role: the loader and the volume, each behind its separator. */
  function Extra(loader: Option<string>, volume: Option<string>): string {
    Suffixed(Suffixed("", ':', NormalOption(loader)), '@', NormalOption(volume))
  }

  predicate Normalised(s: string) { Normal(s) == s }

  // ---- the shape of an id ----

  lemma NormalAppend(a: string, b: string)
    ensures Normal(a + b) == Normal(a) + Normal(b)
  {
  }

  lemma NormalTwice(s: string)
    ensures Normalised(Normal(s))
  {
    var n := Normal(s);
    forall i | 0 <= i < |n| ensures Normal(n)[i] == n[i] { assert n[i] == NormalChar(s[i]); }
  }

  lemma ExtraShape(l: Option<string>, v: Option<string>)
    ensures Extra(l, v) == [] <==> l.None? && v.None?
    ensures Extra(l, v) != [] ==> Extra(l, v)[0] == if l.Some? then ':' else '@'
    ensures Normalised(Extra(l, v))
    ensures v.Some? ==> '@' in Extra(l, v)
  {
    var loader := if l.Some? then ":" + Normal(l.value) else "";
    var volume := if v.Some? then "@" + Normal(v.value) else "";
    assert Extra(l, v) == loader + volume;
    if l.Some? { PartNormal(':', l.value); }
    if v.Some? { PartNormal('@', v.value); }
    assert Normalised("");
    NormalAppend(loader, volume);
    assert v.Some? ==> '@' in volume;
  }

  lemma PartNormal(sep: char, s: string)
    requires Separator(sep)
    ensures Normalised([sep] + Normal(s))
  {
    NormalTwice(s);
    NormalAppend([sep], Normal(s));
    assert Normal([sep]) == [sep];
  }

  lemma IdText(k: OsKind, r: EntryRole, l: Option<string>, v: Option<string>)
    ensures ScopedId(k, r, l, v).text == Slug(k) + ":" + (RoleSlug(r) + Extra(l, v))
  {
    var head := Slug(k) + ":";
    SuffixedHead(head + RoleSlug(r), "", ':', NormalOption(l));
    assert head + RoleSlug(r) + "" == head + RoleSlug(r);
    var tail := Suffixed("", ':', NormalOption(l));
    SuffixedHead(head + RoleSlug(r), tail, '@', NormalOption(v));
    AppendAssociative(head, RoleSlug(r), Extra(l, v));
  }

  lemma EqualTexts(
    k: OsKind, r: EntryRole, l: Option<string>, v: Option<string>,
    k': OsKind, r': EntryRole, l': Option<string>, v': Option<string>)
    ensures ScopedId(k, r, l, v) == ScopedId(k', r', l', v') <==>
            k == k' && RoleSlug(r) + Extra(l, v) == RoleSlug(r') + Extra(l', v')
  {
    hide Extra, RoleSlug;
    IdText(k, r, l, v);
    IdText(k', r', l', v');
    KindRecovered(k, r, l, v);
    KindRecovered(k', r', l', v');
    var head, a, b := Slug(k) + ":", RoleSlug(r) + Extra(l, v), RoleSlug(r') + Extra(l', v');
    assert (head + a)[|head|..] == a && (head + b)[|head|..] == b;
  }

  lemma NamedSlug(r: EntryRole, x: string)
    requires Named(r)
    ensures RoleSlug(WithName(r, NameOf(r) + x)) == RoleSlug(r) + x
  {
    if r.Kernel? {
      AppendAssociative("kernel.", r.version, x);
    } else {
      AppendAssociative("gen" + Decimal.Print(r.parent) + ".", r.name, x);
    }
  }

  /** `y` moves from behind the role into its name. */
  predicate Grows(r: EntryRole, r': EntryRole, y: string) {
    Named(r) && r' == WithName(r, NameOf(r) + y)
  }

  /** How many digits a text starts with. */
  function LeadingDigits(s: string): nat {
    if s == [] || !Decimal.IsDigit(s[0]) then 0 else 1 + LeadingDigits(s[1..])
  }

  lemma {:induction false} LeadingDigitsOf(d: string, t: string)
    requires Decimal.AllDigits(d) && (t == [] || !Decimal.IsDigit(t[0]))
    ensures LeadingDigits(d + t) == |d|
  {
    if d == [] {
      assert d + t == t;
    } else {
      assert (d + t)[1..] == d[1..] + t;
      LeadingDigitsOf(d[1..], t);
    }
  }

  /** No role slug continues a plain generation past a separator. */
  lemma NotGeneration(g: nat, y: string, role: EntryRole)
    requires y != [] && Separator(y[0]) && (role.Generation? || role.Specialisation?)
    ensures RoleSlug(role) != "gen" + Decimal.Print(g) + y
  {
    hide RoleSlug, LeadingDigits, Decimal.Print, Decimal.AllDigits;
    GenerationSlug(role);
    var p, d := Decimal.Print(GenerationNumber(role)), Decimal.Print(g);
    var rest := Suffixed("", '.', GenerationName(role));
    assert Suffixed(p, '.', GenerationName(role)) == p + rest;
    assert rest != [] ==> rest[0] == '.';
    hide Suffixed;
    DropAppend("gen" + d, 3, y);
    assert ("gen" + d)[3..] == d;
    LeadingDigitsOf(d, y);
    LeadingDigitsOf(p, rest);
    After(d, y);
    After(p, rest);
  }

  lemma After(a: string, b: string)
    ensures b != [] ==> (a + b)[|a|] == b[0]
  {
  }

  lemma KernelTail(a: string, y: string, b: string)
    requires RoleSlug(Kernel(b)) == RoleSlug(Kernel(a)) + y
    ensures b == a + y
  {
    assert RoleSlug(Kernel(b))[7..] == b && (RoleSlug(Kernel(a)) + y)[7..] == a + y;
  }

  lemma SpecialisationTail(p: u32, a: string, y: string, q: u32, b: string)
    requires RoleSlug(Specialisation(q, b)) == RoleSlug(Specialisation(p, a)) + y
    ensures p == q && b == a + y
  {
    var d, e, s := Decimal.Print(p), Decimal.Print(q), RoleSlug(Specialisation(p, a));
    GenerationSlug(Specialisation(p, a));
    GenerationSlug(Specialisation(q, b));
    DropAppend(s, 3, y);
    SuffixedAppend(d, '.', a, y);
    hide RoleSlug, Suffixed;
    SuffixedInjective(d, Some(a + y), e, Some(b), '.');
    Decimal.PrintInjective(p, q);
  }

  lemma DropAppend(a: string, n: nat, b: string)
    requires n <= |a|
    ensures (a + b)[n..] == a[n..] + b
  {
  }

  lemma SuffixedAppend(a: string, sep: char, x: string, y: string)
    ensures Suffixed(a, sep, Some(x)) + y == Suffixed(a, sep, Some(x + y))
  {
  }

  /** A role slug that continues another past a separator continues its name. */
  lemma SlugContinues(r: EntryRole, y: string, r': EntryRole)
    requires y != [] && Separator(y[0]) && RoleSlug(r') == RoleSlug(r) + y
    ensures Grows(r, r', y)
  {
    RoleTag(r);
    RoleTag(r');
    RoleSlugFree(r', y[0]);
    assert (RoleSlug(r) + y)[|RoleSlug(r)|] == y[0];
    assert Named(r');
    if r.Generation? {
      NotGeneration(r.number, y, r');
    } else if r.Kernel? {
      KernelTail(r.version, y, r'.version);
    } else {
      SpecialisationTail(r.parent, r.name, y, r'.parent, r'.name);
    }
  }

  /** Equal texts that are split differently: the longer role has taken in the front of what follows the shorter. */
  lemma SlugsNest(r: EntryRole, x: string, r': EntryRole, x': string) returns (y: string)
    requires RoleSlug(r) + x == RoleSlug(r') + x' && |RoleSlug(r)| <= |RoleSlug(r')|
    requires x != [] ==> Separator(x[0])
    ensures x == y + x'
    ensures if y == [] then r == r' else Separator(y[0]) && Grows(r, r', y)
  {
    var s, s' := RoleSlug(r), RoleSlug(r');
    var t := s + x;
    y := s'[|s|..];
    assert s' == t[..|s'|];
    assert s == t[..|s|];
    assert s' == s + y;
    assert x == t[|s|..];
    assert x' == t[|s'|..];
    assert x == y + x';
    hide RoleSlug;
    if y == [] {
      assert s == s';
      RoleSlugInjective(r, r');
    } else {
      assert x[0] == y[0];
      SlugContinues(r, y, r');
    }
  }

  lemma Grown(r: EntryRole, r': EntryRole, y: string, x': string)
    requires Grows(r, r', y)
    ensures RoleSlug(r') + x' == RoleSlug(r) + (y + x')
  {
    NamedSlug(r, y);
    AppendAssociative(RoleSlug(r), y, x');
  }

  // ---- which pairs collide ----

  /** `r'` is `r` with the front of the loader and volume text taken into its name. */
  ghost predicate TakesIn(r: EntryRole, x: string, r': EntryRole, x': string) {
    exists y :: y != [] && Separator(y[0]) && Grows(r, r', y) && x == y + x'
  }

  /**
   * Two ids are equal exactly when kinds are, and the texts of role, loader and volume are the same up to
   * where the role ends.
   */
  lemma IdsEqualExactly(
    k: OsKind, r: EntryRole, l: Option<string>, v: Option<string>,
    k': OsKind, r': EntryRole, l': Option<string>, v': Option<string>)
    ensures ScopedId(k, r, l, v) == ScopedId(k', r', l', v') <==>
            && k == k'
            && (|| (r == r' && Extra(l, v) == Extra(l', v'))
                || TakesIn(r, Extra(l, v), r', Extra(l', v'))
                || TakesIn(r', Extra(l', v'), r, Extra(l, v)))
  {
    EqualTexts(k, r, l, v, k', r', l', v');
    ExtraShape(l, v);
    ExtraShape(l', v');
    var x, x' := Extra(l, v), Extra(l', v');
    hide Extra, RoleSlug, TakesIn, ScopedId;
    if RoleSlug(r) + x == RoleSlug(r') + x' {
      if |RoleSlug(r)| <= |RoleSlug(r')| { Nested(r, x, r', x'); } else { Nested(r', x', r, x); }
    }
    if TakesIn(r, x, r', x') { TakenIn(r, x, r', x'); }
    if TakesIn(r', x', r, x) { TakenIn(r', x', r, x); }
  }

  lemma Nested(r: EntryRole, x: string, r': EntryRole, x': string)
    requires RoleSlug(r) + x == RoleSlug(r') + x' && |RoleSlug(r)| <= |RoleSlug(r')|
    requires x != [] ==> Separator(x[0])
    ensures (r == r' && x == x') || TakesIn(r, x, r', x')
  {
    hide RoleSlug, Grows;
    var y := SlugsNest(r, x, r', x');
    if y == [] { assert y + x' == x'; }
  }

  lemma TakenIn(r: EntryRole, x: string, r': EntryRole, x': string)
    requires TakesIn(r, x, r', x')
    ensures RoleSlug(r) + x == RoleSlug(r') + x'
  {
    hide RoleSlug, Grows;
    var y :| y != [] && Separator(y[0]) && Grows(r, r', y) && x == y + x';
    Grown(r, r', y, x');
  }

  /** With the role settled, loader and volume are settled too unless an '@' may end the loader. */
  lemma ExtraSettles(l: Option<string>, v: Option<string>, l': Option<string>, v': Option<string>)
    requires Extra(l, v) == Extra(l', v') && (l.None? || (v.None? && OptionFree(l, '@')))
    ensures NormalOption(l) == NormalOption(l') && NormalOption(v) == NormalOption(v')
  {
    ExtraShape(l, v);
    ExtraShape(l', v');
    var x := Extra(l, v);
    if l.Some? {
      var n, n' := Normal(l.value), Normal(l'.value);
      assert x == ":" + n && x[1..] == n;
      assert Extra(l', v') == Suffixed(":" + n', '@', NormalOption(v'));
      assert '@' !in x;
      assert v'.None? && x[1..] == n';
    } else if v.Some? {
      assert l'.None? && x == "@" + Normal(v.value) && x == "@" + Normal(v'.value);
      assert x[1..] == Normal(v.value) && x[1..] == Normal(v'.value);
    }
  }

  lemma NormalTail(a: string, b: string)
    requires Normalised(a + b)
    ensures Normalised(a) && Normalised(b)
  {
    NormalAppend(a, b);
    assert Normal(a + b)[..|a|] == Normal(a) && Normal(a + b)[|a|..] == Normal(b);
    assert (a + b)[..|a|] == a && (a + b)[|a|..] == b;
  }

  /** Any normalised text is some loader, free of '@', and volume. */
  lemma LoaderText(t: string) returns (l: Option<string>, v: Option<string>)
    requires Normalised(t)
    ensures l.Some? && Extra(l, v) == ":" + t && OptionFree(l, '@')
  {
    var a := Before(t, '@');
    l := Some(a);
    if |a| == |t| {
      v := None;
      assert a == t;
      assert Extra(l, v) == "" + [':'] + Normal(a);
    } else {
      v := Some(t[|a| + 1..]);
      assert t == (a + ['@']) + v.value;
      NormalTail(a + ['@'], v.value);
      NormalTail(a, ['@']);
      hide Normal;
      ExtraBoth(a, v.value);
    }
  }

  lemma ExtraBoth(a: string, b: string)
    requires Normalised(a) && Normalised(b)
    ensures Extra(Some(a), Some(b)) == ":" + (a + ['@'] + b)
  {
    assert "" + [':'] == ":";
    AppendAssociative(":", a + ['@'], b);
    AppendAssociative(":", a, ['@']);
    hide Normal;
    assert Extra(Some(a), Some(b)) == "" + [':'] + a + ['@'] + b;
  }

  /** Any normalised text behind a separator is some loader and volume, the loader free of '@'. */
  lemma ExtraOf(y: string) returns (l: Option<string>, v: Option<string>)
    requires y != [] && Separator(y[0]) && Normalised(y)
    ensures Extra(l, v) == y && OptionFree(l, '@')
  {
    var t := y[1..];
    assert y == [y[0]] + t;
    NormalTail([y[0]], t);
    if y[0] == '@' {
      l, v := None, Some(t);
      assert Extra(l, v) == "" + ['@'] + Normal(t);
    } else {
      l, v := LoaderText(t);
    }
  }

  // ---- collisions with attributes free of separators ----

  predicate PlainRole(r: EntryRole) { RoleFree(r, ':') && RoleFree(r, '@') }

  /** The first separator, or the length when there is none. */
  function FirstSeparator(s: string): (n: nat)
    ensures n <= |s|
    ensures forall i :: 0 <= i < n ==> !Separator(s[i])
    ensures n < |s| ==> Separator(s[n])
  {
    if s == [] || Separator(s[0]) then 0 else 1 + FirstSeparator(s[1..])
  }

  /**
   * The role is plain and the loader holds '@', or the role is not plain and everything behind the first
   * separator in its name is as normalisation leaves it.
   */
  predicate ReadsAsPlain(r: EntryRole, l: Option<string>) {
    if PlainRole(r) then !OptionFree(l, '@')
    else Named(r) && Normalised(NameOf(r)[FirstSeparator(NameOf(r))..])
  }

  lemma PlainName(r: EntryRole)
    ensures Named(r) ==> (PlainRole(r) <==> FirstSeparator(NameOf(r)) == |NameOf(r)|)
    ensures !PlainRole(r) ==> Named(r)
  {
    if Named(r) {
      var name := NameOf(r);
      if ':' in name { var i :| 0 <= i < |name| && name[i] == ':'; assert Separator(name[i]); }
      if '@' in name { var i :| 0 <= i < |name| && name[i] == '@'; assert Separator(name[i]); }
    }
  }

  /** A name cut at a separator followed by normalised text can be told by a shorter name. */
  lemma NameSplits(k: OsKind, r: EntryRole, l: Option<string>, v: Option<string>, i: nat)
    returns (r': EntryRole, l': Option<string>, v': Option<string>)
    requires Named(r) && i < |NameOf(r)| && Separator(NameOf(r)[i]) && Normalised(NameOf(r)[i..])
    ensures r' == WithName(r, NameOf(r)[..i]) && r' != r && OptionFree(l', '@')
    ensures ScopedId(k, r, l, v) == ScopedId(k, r', l', v')
  {
    var y, x := NameOf(r)[i..], Extra(l, v);
    ExtraShape(l, v);
    hide Extra, ScopedId, RoleSlug, Normal;
    NormalAppend(y, x);
    assert (y + x)[0] == y[0];
    l', v' := ExtraOf(y + x);
    r' := WithName(r, NameOf(r)[..i]);
    NameTakesBack(r, i, x);
    hide TakesIn, WithName, NameOf;
    IdsEqualExactly(k, r', l', v', k, r, l, v);
  }

  /** The name takes its own tail back in. */
  lemma NameTakesBack(r: EntryRole, i: nat, x: string)
    requires Named(r) && i < |NameOf(r)| && Separator(NameOf(r)[i])
    ensures var r' := WithName(r, NameOf(r)[..i]); r' != r && TakesIn(r', NameOf(r)[i..] + x, r, x)
  {
    var y, r' := NameOf(r)[i..], WithName(r, NameOf(r)[..i]);
    assert NameOf(r') + y == NameOf(r);
    assert |NameOf(r')| < |NameOf(r)|;
    assert Grows(r', r, y);
  }

  lemma LoaderSplits(k: OsKind, r: EntryRole, l: Option<string>, v: Option<string>)
    returns (l': Option<string>, v': Option<string>)
    requires l.Some? && (v.Some? || '@' in l.value)
    ensures OptionFree(l', '@') && Extra(l', v') == Extra(l, v)
    ensures ScopedId(k, r, l, v) == ScopedId(k, r, l', v')
    ensures '@' in l.value ==> NormalOption(l') != NormalOption(l)
  {
    ExtraShape(l, v);
    l', v' := ExtraOf(Extra(l, v));
    ExtraShape(l', v');
    IdsEqualExactly(k, r, l, v, k, r, l', v');
  }

  /** An attribute set shares its id with a different, separator-free one exactly when it reads as plain. */
  lemma PlainCollisionExactly(k: OsKind, r: EntryRole, l: Option<string>, v: Option<string>)
    ensures ReadsAsPlain(r, l) <==>
            exists k': OsKind, r': EntryRole, l': Option<string>, v': Option<string> ::
              ScopedId(k', r', l', v') == ScopedId(k, r, l, v)
              && PlainRole(r') && OptionFree(l', '@') && !(k == k' && Same(r, l, v, r', l', v'))
  {
    PlainName(r);
    if ReadsAsPlain(r, l) {
      if PlainRole(r) {
        var l', v' := LoaderSplits(k, r, l, v);
        assert ScopedId(k, r, l', v') == ScopedId(k, r, l, v) && PlainRole(r) && !Same(r, l, v, r, l', v');
      } else {
        var i := FirstSeparator(NameOf(r));
        var r', l', v' := NameSplits(k, r, l, v, i);
        PlainPrefix(r, i);
        assert ScopedId(k, r', l', v') == ScopedId(k, r, l, v) && PlainRole(r') && !Same(r, l, v, r', l', v');
      }
    }
    if k': OsKind, r': EntryRole, l': Option<string>, v': Option<string> :|
         ScopedId(k', r', l', v') == ScopedId(k, r, l, v)
         && PlainRole(r') && OptionFree(l', '@') && !(k == k' && Same(r, l, v, r', l', v')) {
      OnlyPlainReadings(k, r, l, v, k', r', l', v');
    }
  }

  lemma PlainPrefix(r: EntryRole, i: nat)
    requires Named(r) && i <= FirstSeparator(NameOf(r))
    ensures PlainRole(WithName(r, NameOf(r)[..i]))
  {
    var name := NameOf(r)[..i];
    assert forall j :: 0 <= j < |name| ==> name[j] == NameOf(r)[j];
  }

  lemma GrownNotPlain(r: EntryRole, r': EntryRole, y: string)
    requires Grows(r, r', y) && y != [] && Separator(y[0])
    ensures !PlainRole(r')
  {
    assert NameOf(r')[|NameOf(r)|] == y[0];
  }

  lemma NotTakenIn(r: EntryRole, x: string, r': EntryRole, x': string)
    requires PlainRole(r')
    ensures !TakesIn(r, x, r', x')
  {
    forall y | y != [] && Separator(y[0]) && Grows(r, r', y) ensures false { GrownNotPlain(r, r', y); }
  }

  lemma OnlyPlainReadings(
    k: OsKind, r: EntryRole, l: Option<string>, v: Option<string>,
    k': OsKind, r': EntryRole, l': Option<string>, v': Option<string>)
    requires ScopedId(k', r', l', v') == ScopedId(k, r, l, v)
    requires PlainRole(r') && OptionFree(l', '@') && !(k == k' && Same(r, l, v, r', l', v'))
    ensures ReadsAsPlain(r, l)
  {
    PlainName(r);
    if PlainRole(r) {
      if OptionFree(l, '@') { ScopedInjective(k, r, l, v, k', r', l', v'); }
    } else {
      IdsEqualExactly(k', r', l', v', k, r, l, v);
      ExtraShape(l', v');
      var x, x' := Extra(l, v), Extra(l', v');
      NotTakenIn(r, x, r', x');
      if TakesIn(r', x', r, x) {
        var y :| y != [] && Separator(y[0]) && Grows(r', r, y) && x' == y + x;
        NameTail(r', r, y, x);
      }
    }
  }

  /** A plain name grown by normalised text is plain up to there. */
  lemma NameTail(r': EntryRole, r: EntryRole, y: string, x: string)
    requires PlainRole(r') && Grows(r', r, y) && y != [] && Separator(y[0]) && Normalised(y + x)
    ensures Normalised(NameOf(r)[FirstSeparator(NameOf(r))..])
  {
    var name, n := NameOf(r), FirstSeparator(NameOf(r));
    var i := |NameOf(r')|;
    assert name == NameOf(r') + y && name[i] == y[0];
    PlainName(r');
    assert forall j :: 0 <= j < i ==> name[j] == NameOf(r')[j] && !Separator(name[j]);
    NormalAppend(y, x);
    assert Normal(y + x)[..|y|] == Normal(y) && (y + x)[..|y|] == y;
    assert name[n..] == y;
  }

  // ---- collisions with anything ----

  /** A separator in the role's name is followed by text that normalisation leaves alone. */
  predicate NameSplittable(name: string) {
    exists i :: 0 <= i < |name| && Separator(name[i]) && Normalised(name[i..])
  }

  /** What a caller can test before relying on the id alone. */
  predicate Ambiguous(r: EntryRole, l: Option<string>, v: Option<string>) {
    if Named(r) then l.Some? || v.Some? || NameSplittable(NameOf(r))
    else l.Some? && (v.Some? || '@' in l.value)
  }

  /** Some other attributes have the same id exactly when the attributes are ambiguous. */
  lemma AmbiguousExactly(k: OsKind, r: EntryRole, l: Option<string>, v: Option<string>)
    ensures Ambiguous(r, l, v) <==>
            exists k': OsKind, r': EntryRole, l': Option<string>, v': Option<string> ::
              ScopedId(k', r', l', v') == ScopedId(k, r, l, v) && !(k == k' && Same(r, l, v, r', l', v'))
  {
    if Ambiguous(r, l, v) {
      var r', l', v' := OtherReading(k, r, l, v);
      assert ScopedId(k, r', l', v') == ScopedId(k, r, l, v) && !Same(r, l, v, r', l', v');
    }
    if k': OsKind, r': EntryRole, l': Option<string>, v': Option<string> :|
         ScopedId(k', r', l', v') == ScopedId(k, r, l, v) && !(k == k' && Same(r, l, v, r', l', v')) {
      OnlyAmbiguous(k, r, l, v, k', r', l', v');
    }
  }

  lemma OtherReading(k: OsKind, r: EntryRole, l: Option<string>, v: Option<string>)
    returns (r': EntryRole, l': Option<string>, v': Option<string>)
    requires Ambiguous(r, l, v)
    ensures ScopedId(k, r', l', v') == ScopedId(k, r, l, v) && !Same(r, l, v, r', l', v')
  {
    if Named(r) && (l.Some? || v.Some?) {
      r', l', v' := WithName(r, NameOf(r) + Extra(l, v)), None, None;
      AllTakenIn(k, r, l, v);
    } else if Named(r) {
      var i :| 0 <= i < |NameOf(r)| && Separator(NameOf(r)[i]) && Normalised(NameOf(r)[i..]);
      r', l', v' := NameSplits(k, r, l, v, i);
    } else if '@' in l.value {
      r' := r;
      l', v' := LoaderSplits(k, r, l, v);
    } else {
      r', v' := r, None;
      l' := VolumeInLoader(k, r, l, v);
    }
  }

  lemma AllTakenIn(k: OsKind, r: EntryRole, l: Option<string>, v: Option<string>)
    requires Named(r) && (l.Some? || v.Some?)
    ensures var r' := WithName(r, NameOf(r) + Extra(l, v));
            r' != r && ScopedId(k, r', None, None) == ScopedId(k, r, l, v)
  {
    ExtraShape(l, v);
    ExtraShape(None, None);
    hide Extra, ScopedId, RoleSlug;
    var x := Extra(l, v);
    var r' := WithName(r, NameOf(r) + x);
    assert x == x + [];
    assert TakesIn(r, x, r', []);
    IdsEqualExactly(k, r, l, v, k, r', None, None);
    assert |NameOf(r')| > |NameOf(r)|;
  }

  lemma VolumeInLoader(k: OsKind, r: EntryRole, l: Option<string>, v: Option<string>) returns (l': Option<string>)
    requires l.Some? && v.Some?
    ensures l'.Some? && ScopedId(k, r, l', None) == ScopedId(k, r, l, v)
  {
    ExtraShape(l, v);
    var x := Extra(l, v);
    l' := Some(x[1..]);
    assert x == [':'] + x[1..];
    NormalTail([':'], x[1..]);
    hide Normal;
    assert "" + [':'] == [':'];
    assert Extra(l', None) == "" + [':'] + Normal(x[1..]);
    hide Extra, ScopedId, RoleSlug;
    IdsEqualExactly(k, r, l, v, k, r, l', None);
  }

  lemma OnlyAmbiguous(
    k: OsKind, r: EntryRole, l: Option<string>, v: Option<string>,
    k': OsKind, r': EntryRole, l': Option<string>, v': Option<string>)
    requires ScopedId(k', r', l', v') == ScopedId(k, r, l, v) && !(k == k' && Same(r, l, v, r', l', v'))
    ensures Ambiguous(r, l, v)
  {
    hide Extra, Normal, ScopedId;
    IdsEqualExactly(k, r, l, v, k', r', l', v');
    ExtraShape(l, v);
    ExtraShape(l', v');
    var x, x' := Extra(l, v), Extra(l', v');
    if r == r' && x == x' {
      if l.None? || (v.None? && OptionFree(l, '@')) { ExtraSettles(l, v, l', v'); }
    } else if TakesIn(r', x', r, x) {
      var y :| y != [] && Separator(y[0]) && Grows(r', r, y) && x' == y + x;
      NormalTail(y, x);
      SplittableAt(r', r, y);
    }
  }

  lemma SplittableAt(r': EntryRole, r: EntryRole, y: string)
    requires Grows(r', r, y) && y != [] && Separator(y[0]) && Normalised(y)
    ensures Named(r) && NameSplittable(NameOf(r))
  {
    var i := |NameOf(r')|;
    assert NameOf(r)[i..] == y && NameOf(r)[i] == y[0];
  }
}
