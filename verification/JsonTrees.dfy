/** When a text of the standard is read as exactly the tree it stands for, objects included. */
module JsonTrees {
  import opened Basics
  import opened Json
  import opened JsonGrammar
  import opened JsonStandard

  // ---- objects as lists of names ----

  /** The name a key stands for, and the name the reader makes of it. */
  function NameOf(ps: seq<Piece>): string { if Meaning(ps).Some? then Meaning(ps).value else "" }

  function ReaderName(ps: seq<Piece>): string { if GoodPieces(ps) then Chars(ps) else "" }

  function Keys(ms: Members): (r: seq<seq<Piece>>)
    ensures r != [] && r[0] == ms.key
  {
    [ms.key] + if ms.LastMember? then [] else Keys(ms.rest)
  }

  function Names(ms: Members): seq<string> { Map(Keys(ms), NameOf) }

  function ReaderNames(ms: Members): seq<string> { Map(Keys(ms), ReaderName) }

  /** Section 4: the names within an object should be unique. */
  predicate UniqueNames(ms: Members) { Distinct(Names(ms)) }

  /** Members of one name spell it in ways that the reader takes for the same. */
  predicate SpeltAlike(ms: Members) {
    forall i, j :: 0 <= i < j < |Keys(ms)| && Names(ms)[i] == Names(ms)[j] ==> ReaderNames(ms)[i] == ReaderNames(ms)[j]
  }

  /** No later member of the object has the name of the first. */
  predicate FirstSurvives(ms: Members) { ms.LastMember? || NameOf(ms.key) !in Names(ms.rest) }

  predicate KeysClean(ms: Members) { Clean(ms.key) && (ms.NextMember? ==> KeysClean(ms.rest)) }

  /** Every string that reaches the tree is clean: all names, and the values of members that are not replaced. */
  predicate RightDoc(d: Doc) {
    match d
    case StrDoc(ps) => Clean(ps)
    case ArrDoc(items) => RightItems(items)
    case ObjDoc(members) => KeysClean(members) && RightMembers(members)
    case _ => true
  }

  predicate RightItems(items: Items) { RightDoc(items.value) && (items.NextItem? ==> RightItems(items.rest)) }

  predicate RightMembers(ms: Members) {
    (FirstSurvives(ms) ==> RightDoc(ms.value)) && (ms.NextMember? ==> RightMembers(ms.rest))
  }

  /** In every object that reaches the tree, equal names are spelt alike. */
  predicate RegularDoc(d: Doc) {
    match d
    case ArrDoc(items) => RegularItems(items)
    case ObjDoc(members) => SpeltAlike(members) && RegularMembers(members)
    case _ => true
  }

  predicate RegularItems(items: Items) { RegularDoc(items.value) && (items.NextItem? ==> RegularItems(items.rest)) }

  predicate RegularMembers(ms: Members) {
    (FirstSurvives(ms) ==> RegularDoc(ms.value)) && (ms.NextMember? ==> RegularMembers(ms.rest))
  }

  // ---- the maps the two readings build ----

  function TreeMap(ms: Members): map<string, Json>
    requires StandardMembers(ms)
  {
    var first := map[Meaning(ms.key).value := TreeOf(ms.value)];
    if ms.LastMember? then first else first + TreeMap(ms.rest)
  }

  function ReaderMap(ms: Members): map<string, Json>
    requires GoodMembers(ms)
  {
    var first := map[Chars(ms.key) := Denote(ms.value)];
    if ms.LastMember? then first else first + ReaderMap(ms.rest)
  }

  lemma {:induction false} TreeMapBuilt(ms: Members, acc: map<string, Json>)
    requires StandardMembers(ms)
    ensures MembersTree(ms, acc) == acc + TreeMap(ms)
    decreases ms
  {
    hide TreeOf, Meaning, StandardDoc;
    if ms.NextMember? { TreeMapBuilt(ms.rest, acc[Meaning(ms.key).value := TreeOf(ms.value)]); }
  }

  lemma {:induction false} ReaderMapBuilt(ms: Members, acc: map<string, Json>)
    requires GoodMembers(ms)
    ensures DenoteMembers(ms, acc) == acc + ReaderMap(ms)
    decreases ms
  {
    hide Denote, Chars, GoodDoc;
    if ms.NextMember? { ReaderMapBuilt(ms.rest, acc[Chars(ms.key) := Denote(ms.value)]); }
  }

  lemma {:induction false} TreeMapKeys(ms: Members)
    requires StandardMembers(ms)
    ensures forall x :: x in TreeMap(ms) <==> x in Names(ms)
    decreases ms
  {
    hide TreeOf, Meaning, StandardDoc;
    if ms.NextMember? {
      TreeMapKeys(ms.rest);
      MapCons(ms.key, Keys(ms.rest), NameOf);
    }
  }

  lemma {:induction false} ReaderMapKeys(ms: Members)
    requires GoodMembers(ms)
    ensures forall x :: x in ReaderMap(ms) <==> x in ReaderNames(ms)
    decreases ms
  {
    hide Denote, Chars, GoodDoc;
    if ms.NextMember? {
      ReaderMapKeys(ms.rest);
      MapCons(ms.key, Keys(ms.rest), ReaderName);
    }
  }

  // ---- equal names force clean keys ----

  /** A name is never longer than what the reader makes of it, and is that itself when as long. */
  predicate KeyLaw(name: string, readerName: string, clean: bool) {
    && |name| <= |readerName|
    && (clean <==> name == readerName)
    && (name != readerName ==> |name| < |readerName|)
  }

  lemma OneKey(ps: seq<Piece>)
    requires Meaning(ps).Some? && GoodPieces(ps)
    ensures KeyLaw(NameOf(ps), ReaderName(ps), Clean(ps))
  {
    MeaningLength(ps);
    CharsLength(ps);
  }

  predicate ReadableKey(ps: seq<Piece>) { Meaning(ps).Some? && GoodPieces(ps) }

  lemma {:induction false} KeysReadable(ms: Members)
    requires StandardMembers(ms) && GoodMembers(ms)
    ensures forall i :: 0 <= i < |Keys(ms)| ==> ReadableKey(Keys(ms)[i])
    decreases ms
  {
    assert ReadableKey(ms.key);
    hide ReadableKey, StandardDoc, GoodDoc, Meaning, GoodPieces;
    if ms.LastMember? {
      assert Keys(ms) == [ms.key];
    } else {
      KeysReadable(ms.rest);
      assert forall i :: 0 < i < |Keys(ms)| ==> Keys(ms)[i] == Keys(ms.rest)[i - 1];
    }
  }

  lemma KeyLengths(ms: Members)
    requires StandardMembers(ms) && GoodMembers(ms)
    ensures |Names(ms)| == |ReaderNames(ms)| == |Keys(ms)|
    ensures forall i :: 0 <= i < |Keys(ms)| ==> KeyLaw(Names(ms)[i], ReaderNames(ms)[i], Clean(Keys(ms)[i]))
  {
    KeysReadable(ms);
    hide NameOf, ReaderName, Clean, Keys, StandardMembers, GoodMembers, KeyLaw;
    forall i | 0 <= i < |Keys(ms)| ensures KeyLaw(Names(ms)[i], ReaderNames(ms)[i], Clean(Keys(ms)[i])) {
      assert ReadableKey(Keys(ms)[i]);
      OneKey(Keys(ms)[i]);
    }
  }

  predicate Growing(m: seq<string>, c: seq<string>) {
    && |m| == |c|
    && (forall j, k :: 0 <= j < |m| && 0 <= k < |m| && m[j] == m[k] ==> c[j] == c[k])
    && (forall j :: 0 <= j < |m| && m[j] != c[j] ==> |m[j]| < |c[j]|)
    && (forall j :: 0 <= j < |m| ==> m[j] in c)
  }

  /**
   * Texts that only ever grow, equal ones alike, and yet produce every one of the originals: none has changed.
   * The original that a changed text would need for its source is shorter, and changed as well.
   */
  lemma {:induction false} NothingGrew(m: seq<string>, c: seq<string>, i: nat)
    requires Growing(m, c) && i < |m|
    ensures m[i] == c[i]
    decreases |m[i]|
  {
    if m[i] == c[i] {
    } else {
      var j :| 0 <= j < |c| && c[j] == m[i];
      if m[j] != c[j] { NothingGrew(m, c, j); }
    }
  }

  predicate AllClean(keys: seq<seq<Piece>>) { forall i :: 0 <= i < |keys| ==> Clean(keys[i]) }

  lemma {:induction false} AllKeysClean(ms: Members)
    ensures KeysClean(ms) <==> AllClean(Keys(ms))
    decreases ms
  {
    hide Clean;
    if ms.LastMember? {
      assert Keys(ms) == [ms.key];
    } else {
      AllKeysClean(ms.rest);
      var keys, rest := Keys(ms), Keys(ms.rest);
      assert keys == [ms.key] + rest;
      assert forall i :: 0 <= i < |rest| ==> keys[i + 1] == rest[i];
      if AllClean(keys) {
        forall i | 0 <= i < |rest| ensures Clean(rest[i]) { assert Clean(keys[i + 1]); }
      }
      if Clean(ms.key) && AllClean(rest) {
        forall i | 0 <= i < |keys| ensures Clean(keys[i]) {
          if i > 0 { assert Clean(rest[i - 1]); }
        }
      }
    }
  }

  /** When the maps agree, every key is clean. */
  lemma MapsForceClean(ms: Members)
    requires StandardMembers(ms) && GoodMembers(ms) && SpeltAlike(ms) && TreeMap(ms) == ReaderMap(ms)
    ensures KeysClean(ms)
  {
    NamesGrow(ms);
    hide *;
    forall i | 0 <= i < |Names(ms)| ensures Names(ms)[i] == ReaderNames(ms)[i] {
      NothingGrew(Names(ms), ReaderNames(ms), i);
    }
    CleanByName(ms);
  }

  lemma NamesGrow(ms: Members)
    requires StandardMembers(ms) && GoodMembers(ms) && SpeltAlike(ms) && TreeMap(ms) == ReaderMap(ms)
    ensures Growing(Names(ms), ReaderNames(ms)) && |Names(ms)| == |ReaderNames(ms)| == |Keys(ms)|
  {
    KeyLengths(ms);
    NamesCovered(ms);
    NamesAlike(ms);
    hide NameOf, ReaderName, Keys, Clean, Names, ReaderNames, StandardMembers, GoodMembers, SpeltAlike, TreeMap;
    hide ReaderMap;
  }

  lemma NamesCovered(ms: Members)
    requires StandardMembers(ms) && GoodMembers(ms) && TreeMap(ms) == ReaderMap(ms)
    ensures forall j :: 0 <= j < |Names(ms)| ==> Names(ms)[j] in ReaderNames(ms)
  {
    TreeMapKeys(ms);
    ReaderMapKeys(ms);
    hide TreeMap, ReaderMap, StandardMembers, GoodMembers, Names, ReaderNames;
    forall j | 0 <= j < |Names(ms)| ensures Names(ms)[j] in ReaderNames(ms) { assert Names(ms)[j] in TreeMap(ms); }
  }

  lemma NamesAlike(ms: Members)
    requires SpeltAlike(ms)
    ensures |Names(ms)| == |ReaderNames(ms)| == |Keys(ms)|
    ensures forall j, k :: 0 <= j < |Names(ms)| && 0 <= k < |Names(ms)| && Names(ms)[j] == Names(ms)[k] ==>
              ReaderNames(ms)[j] == ReaderNames(ms)[k]
  {
    hide NameOf, ReaderName, Keys;
  }

  lemma CleanByName(ms: Members)
    requires StandardMembers(ms) && GoodMembers(ms)
    requires |Names(ms)| == |ReaderNames(ms)| == |Keys(ms)|
    requires forall i :: 0 <= i < |Names(ms)| ==> Names(ms)[i] == ReaderNames(ms)[i]
    ensures KeysClean(ms)
  {
    KeyLengths(ms);
    AllKeysClean(ms);
    hide KeysClean, Clean, Names, ReaderNames, Keys, StandardMembers, GoodMembers;
    forall i | 0 <= i < |Keys(ms)| ensures Clean(Keys(ms)[i]) { assert Names(ms)[i] == ReaderNames(ms)[i]; }
  }

  /** With clean keys, the reader's names are the names. */
  lemma CleanNames(ms: Members)
    requires StandardMembers(ms) && GoodMembers(ms) && KeysClean(ms)
    ensures Names(ms) == ReaderNames(ms)
  {
    KeyLengths(ms);
    AllKeysClean(ms);
    hide StandardMembers, GoodMembers, Clean, KeysClean, NameOf, ReaderName, Keys;
  }

  // ---- the values ----

  lemma {:induction false} DocExactly(d: Doc)
    requires StandardDoc(d) && GoodDoc(d) && RegularDoc(d)
    ensures Denote(d) == TreeOf(d) <==> RightDoc(d)
    decreases d, 1
  {
    match d {
      case StrDoc(ps) =>
        MeaningLength(ps);
        CharsLength(ps);
      case ArrDoc(items) => ItemsExactly(items);
      case ObjDoc(members) => ObjectExactly(members);
      case _ =>
    }
  }

  lemma {:induction false} ItemsExactly(items: Items)
    requires StandardItems(items) && GoodItems(items) && RegularItems(items)
    ensures DenoteItems(items) == TreesOf(items) <==> RightItems(items)
    decreases items, 1
  {
    DocExactly(items.value);
    var a, b := DenoteItems(items), TreesOf(items);
    assert a[0] == Denote(items.value) && b[0] == TreeOf(items.value);
    if items.NextItem? {
      ItemsExactly(items.rest);
      assert a[1..] == DenoteItems(items.rest) && b[1..] == TreesOf(items.rest);
    }
  }

  lemma {:induction false} ObjectExactly(ms: Members)
    requires StandardMembers(ms) && GoodMembers(ms) && SpeltAlike(ms) && RegularMembers(ms)
    ensures DenoteMembers(ms, map[]) == MembersTree(ms, map[]) <==> KeysClean(ms) && RightMembers(ms)
    decreases ms, 1
  {
    hide SpeltAlike, RegularMembers, StandardMembers, GoodMembers, TreeMap, ReaderMap, KeysClean, RightMembers;
    TreeMapBuilt(ms, map[]);
    ReaderMapBuilt(ms, map[]);
    assert map[] + TreeMap(ms) == TreeMap(ms) && map[] + ReaderMap(ms) == ReaderMap(ms);
    if TreeMap(ms) == ReaderMap(ms) { MapsForceClean(ms); }
    if KeysClean(ms) { ValuesExactly(ms); }
  }

  /** With clean keys the maps agree exactly when the members that are not replaced do. */
  lemma {:induction false} ValuesExactly(ms: Members)
    requires StandardMembers(ms) && GoodMembers(ms) && KeysClean(ms) && RegularMembers(ms)
    ensures TreeMap(ms) == ReaderMap(ms) <==> RightMembers(ms)
    decreases ms, 0
  {
    MeaningLength(ms.key);
    if FirstSurvives(ms) { DocExactly(ms.value); }
    if ms.LastMember? {
      var k := Meaning(ms.key).value;
      assert TreeMap(ms)[k] == TreeOf(ms.value) && ReaderMap(ms)[k] == Denote(ms.value);
    } else {
      ValuesExactly(ms.rest);
      TreeMapKeys(ms.rest);
      ReaderMapKeys(ms.rest);
      CleanNames(ms.rest);
      hide TreeOf, Denote, Meaning, Chars, StandardDoc, GoodDoc, Clean, RightDoc, RegularDoc;
      FirstApart(Meaning(ms.key).value, TreeOf(ms.value), Denote(ms.value), TreeMap(ms.rest), ReaderMap(ms.rest));
    }
  }

  /** Two maps over the same names, with one more entry in front. */
  lemma FirstApart(k: string, v: Json, w: Json, a: map<string, Json>, b: map<string, Json>)
    requires a.Keys == b.Keys
    ensures map[k := v] + a == map[k := w] + b <==> (k !in a ==> v == w) && a == b
  {
    var x, y := map[k := v] + a, map[k := w] + b;
    if x == y {
      forall z | z in a ensures a[z] == b[z] { assert x[z] == a[z] && y[z] == b[z]; }
      assert a == b;
      assert k !in a ==> x[k] == v && y[k] == w;
    }
  }

  // ---- the main result ----

  /**
   * A text of the standard in whose objects equal names are spelt alike is read as the tree it stands for if and
   * only if no string uses `\b` or `\f`, all names are clean, and so is every string in a value that is not replaced.
   */
  lemma RightTreeExactly(t: Text)
    requires StandardText(t) && RegularDoc(t.doc)
    ensures Parsed(PrintText(t)) == Ok(TreeOf(t.doc)) <==> KnownDoc(t.doc) && RightDoc(t.doc)
  {
    StandardTextRead(t);
    hide Parsed, PrintText, KnownDoc, GoodDoc, StandardDoc, TreeOf, Denote, CleanDoc, RegularDoc, RightDoc;
    if KnownDoc(t.doc) { DocExactly(t.doc); }
  }

  /** Objects whose names are unique, as the standard asks for. */
  predicate UniqueDoc(d: Doc) {
    match d
    case ArrDoc(items) => UniqueItems(items)
    case ObjDoc(members) => UniqueNames(members) && UniqueMembers(members)
    case _ => true
  }

  predicate UniqueItems(items: Items) { UniqueDoc(items.value) && (items.NextItem? ==> UniqueItems(items.rest)) }

  predicate UniqueMembers(ms: Members) { UniqueDoc(ms.value) && (ms.NextMember? ==> UniqueMembers(ms.rest)) }

  lemma {:induction false} UniqueRegular(d: Doc)
    requires UniqueDoc(d)
    ensures RegularDoc(d) && (RightDoc(d) <==> CleanDoc(d))
    decreases d
  {
    match d {
      case ArrDoc(items) => UniqueRegularItems(items);
      case ObjDoc(members) => UniqueRegularMembers(members);
      case _ =>
    }
  }

  lemma {:induction false} UniqueRegularItems(items: Items)
    requires UniqueItems(items)
    ensures RegularItems(items) && (RightItems(items) <==> CleanItems(items))
    decreases items
  {
    UniqueRegular(items.value);
    if items.NextItem? { UniqueRegularItems(items.rest); }
  }

  lemma {:induction false} UniqueRegularMembers(ms: Members)
    requires UniqueNames(ms) && UniqueMembers(ms)
    ensures RegularMembers(ms) && FirstSurvives(ms) && (KeysClean(ms) && RightMembers(ms) <==> CleanMembers(ms))
    decreases ms
  {
    UniqueRegular(ms.value);
    if ms.NextMember? {
      MapCons(ms.key, Keys(ms.rest), NameOf);
      assert Names(ms)[1..] == Names(ms.rest);
      hide NameOf, Clean, UniqueDoc, RightDoc, RegularDoc, CleanDoc;
      assert forall i :: 0 <= i < |Names(ms.rest)| ==> Names(ms)[i + 1] == Names(ms.rest)[i];
      UniqueRegularMembers(ms.rest);
    }
  }

  /** For the texts that keep the standard's advice on names: read right exactly when nothing in them is misread. */
  lemma UniqueNamesExactly(t: Text)
    requires StandardText(t) && UniqueDoc(t.doc)
    ensures Parsed(PrintText(t)) == Ok(TreeOf(t.doc)) <==> KnownDoc(t.doc) && CleanDoc(t.doc)
  {
    hide StandardText, PrintText, TreeOf, KnownDoc, CleanDoc, UniqueDoc, RegularDoc, RightDoc, Parsed;
    UniqueRegular(t.doc);
    RightTreeExactly(t);
  }

  // ---- why equal names must be spelt alike ----

  lemma {:induction false} EscapesMean(s: string)
    requires BasicPlane(s)
    ensures Meaning(EscapesOf(s)) == Some(s)
  {
    if s == [] {
    } else {
      EscapesMean(s[1..]);
      var p, rest := EscapeOf(s[0]), EscapesOf(s[1..]);
      assert EscapesOf(s) == [p] + rest && ([p] + rest)[1..] == rest;
      assert [s[0]] + s[1..] == s;
      PieceKnown(p);
      hide EscapeOf, EscapesOf, HexFour, CodeUnit;
      assert UnitOf(p) == Some(s[0] as int) by { HexKnown(p.hex); }
    }
  }

  function Member(key: seq<Piece>): Members { LastMember([], key, [], [], NullDoc, []) }

  function MemberThen(key: seq<Piece>, rest: Members): Members { NextMember([], key, [], [], NullDoc, [], rest) }

  /**
   * Any misread name can go unnoticed: beside it, spell the same name with escapes, and the name the reader makes
   * of it as well. Then the tree is right although a name is misread.
   */
  lemma MisreadingUnnoticed(p: seq<Piece>) returns (d: Doc)
    requires Meaning(p).Some? && GoodPieces(p) && !Clean(p) && BasicPlane(Meaning(p).value)
    ensures StandardDoc(d) && GoodDoc(d) && d.ObjDoc? && p in Keys(d.members)
    ensures Denote(d) == TreeOf(d) && !RightDoc(d) && !RegularDoc(d)
  {
    var name, other := Meaning(p).value, Chars(p);
    CharsBasic(p);
    EscapesMean(name);
    EscapesMean(other);
    var q, r := EscapesOf(name), EscapesOf(other);
    d := ObjDoc(MemberThen(p, MemberThen(q, Member(r))));
    ThreeMembers(p, q, r);
    var ms := d.members;
    hide Meaning, Chars, GoodPiece, Clean, EscapesOf, BasicPlane, SpeltAlike, TreeMap, ReaderMap;
    TreeMapBuilt(ms, map[]);
    ReaderMapBuilt(ms, map[]);
    if RegularDoc(d) { DocExactly(d); }
  }

  /** Three members without values, the first two of one name, the first and last of one name to the reader. */
  lemma ThreeMembers(p: seq<Piece>, q: seq<Piece>, r: seq<Piece>)
    requires ReadableKey(p) && ReadableKey(q) && ReadableKey(r)
    requires Meaning(p) == Meaning(q) == Some(Chars(q)) && Meaning(r) == Some(Chars(p)) && Chars(r) == Chars(p)
    ensures var ms := MemberThen(p, MemberThen(q, Member(r)));
            && StandardMembers(ms) && GoodMembers(ms) && p in Keys(ms)
            && TreeMap(ms) == ReaderMap(ms) && (KeysClean(ms) ==> Clean(p))
  {
    var name, other := Chars(q), Chars(p);
    var last := Member(r);
    var second := MemberThen(q, last);
    var ms := MemberThen(p, second);
    assert StandardMembers(last) && GoodMembers(last);
    assert StandardMembers(second) && GoodMembers(second);
    assert StandardMembers(ms) && GoodMembers(ms);
    hide Meaning, Chars, GoodPieces, Clean;
    assert TreeMap(last) == map[other := Null] && ReaderMap(last) == map[other := Null];
    assert TreeMap(second) == map[name := Null, other := Null] && ReaderMap(second) == map[name := Null, other := Null];
    assert ms.rest == second && name in TreeMap(second) && other in TreeMap(second);
    hide TreeMap, ReaderMap, StandardMembers, GoodMembers;
    TwoReadings(ms);
    assert Keys(ms)[0] == p;
  }

  /** One more member in front of maps that agree and hold both its names. */
  lemma TwoReadings(ms: Members)
    requires StandardMembers(ms) && GoodMembers(ms) && ms.NextMember? && ms.value.NullDoc?
    requires TreeMap(ms.rest) == ReaderMap(ms.rest)
    requires Meaning(ms.key).value in TreeMap(ms.rest) && Chars(ms.key) in TreeMap(ms.rest)
    ensures TreeMap(ms) == ReaderMap(ms)
  {
    hide Meaning, Chars, StandardDoc, GoodDoc;
    var rest := TreeMap(ms.rest);
    assert map[Meaning(ms.key).value := Null] + rest == rest && map[Chars(ms.key) := Null] + rest == rest;
  }
}
