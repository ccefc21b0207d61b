/**
 * The JSON texts the reader accepts, as concrete syntax: every choice of white space, escapes and
 * number spelling is explicit, so printing and reading can be proved inverse to each other.
 */
module JsonGrammar {
  import opened Basics
  import opened Json
  import Utf8

  datatype Piece = Raw(c: byte) | Escaped(letter: byte) | Unicode(hex: seq<byte>)

  datatype Doc =
    | NullDoc
    | BoolDoc(value: bool)
    | NumDoc(lexeme: seq<byte>)
    | StrDoc(pieces: seq<Piece>)
    | EmptyArr(gap: seq<byte>)
    | ArrDoc(items: Items)
    | EmptyObj(gap: seq<byte>)
    | ObjDoc(members: Members)

  datatype Items =
    | LastItem(lead: seq<byte>, value: Doc, trail: seq<byte>)
    | NextItem(lead: seq<byte>, value: Doc, trail: seq<byte>, rest: Items)

  datatype Members =
    | LastMember(lead: seq<byte>, key: seq<Piece>, gap: seq<byte>, inner: seq<byte>, value: Doc, trail: seq<byte>)
    | NextMember(lead: seq<byte>, key: seq<Piece>, gap: seq<byte>, inner: seq<byte>, value: Doc, trail: seq<byte>,
        rest: Members)

  datatype Text = Text(before: seq<byte>, doc: Doc, after: seq<byte>)

  // ---- printing ----

  function PrintPiece(p: Piece): (r: seq<byte>)
    ensures |r| > 0
  {
    match p
    case Raw(c) => [c]
    case Escaped(letter) => [BACKSLASH, letter]
    case Unicode(hex) => [BACKSLASH, LETTER_U] + hex
  }

  function PrintPieces(ps: seq<Piece>): seq<byte> {
    if ps == [] then [] else PrintPiece(ps[0]) + PrintPieces(ps[1..])
  }

  function PrintString(ps: seq<Piece>): seq<byte> { [QUOTE] + PrintPieces(ps) + [QUOTE] }

  function Print(d: Doc): seq<byte> {
    match d
    case NullDoc => NULL_TEXT
    case BoolDoc(v) => if v then TRUE_TEXT else FALSE_TEXT
    case NumDoc(lexeme) => lexeme
    case StrDoc(ps) => PrintString(ps)
    case EmptyArr(gap) => [LBRACKET] + gap + [RBRACKET]
    case ArrDoc(items) => [LBRACKET] + PrintItems(items)
    case EmptyObj(gap) => [LBRACE] + gap + [RBRACE]
    case ObjDoc(members) => [LBRACE] + PrintMembers(members)
  }

  function PrintItems(items: Items): seq<byte> {
    items.lead + (Print(items.value) + (items.trail +
      match items
      case LastItem(_, _, _) => [RBRACKET]
      case NextItem(_, _, _, rest) => [COMMA] + PrintItems(rest)))
  }

  function PrintMembers(ms: Members): seq<byte> {
    ms.lead + (PrintString(ms.key) + (ms.gap + ([COLON] + (ms.inner + (Print(ms.value) + (ms.trail +
      match ms
      case LastMember(_, _, _, _, _, _) => [RBRACE]
      case NextMember(_, _, _, _, _, _, rest) => [COMMA] + PrintMembers(rest)))))))
  }

  function PrintText(t: Text): seq<byte> { t.before + Print(t.doc) + t.after }

  // ---- meaning ----

  function PieceChar(p: Piece): char
    requires GoodPiece(p)
  {
    match p
    case Raw(c) => c as char
    case Escaped(letter) => SimpleEscape(letter).value
    case Unicode(hex) => ScalarOrReplacement(HexFour(hex).value)
  }

  function Chars(ps: seq<Piece>): string
    requires GoodPieces(ps)
  {
    if ps == [] then [] else [PieceChar(ps[0])] + Chars(ps[1..])
  }

  function Denote(d: Doc): Json
    requires GoodDoc(d)
  {
    match d
    case NullDoc => Null
    case BoolDoc(v) => Bool(v)
    case NumDoc(lexeme) => Num(lexeme)
    case StrDoc(ps) => Str(Chars(ps))
    case EmptyArr(_) => Arr([])
    case ArrDoc(items) => Arr(DenoteItems(items))
    case EmptyObj(_) => Obj(map[])
    case ObjDoc(members) => Obj(DenoteMembers(members, map[]))
  }

  function DenoteItems(items: Items): seq<Json>
    requires GoodItems(items)
  {
    [Denote(items.value)] + if items.LastItem? then [] else DenoteItems(items.rest)
  }

  /** Members read in order over what is already there, so the last duplicate key wins. */
  function DenoteMembers(ms: Members, acc: map<string, Json>): map<string, Json>
    requires GoodMembers(ms)
  {
    var next := acc[Chars(ms.key) := Denote(ms.value)];
    if ms.LastMember? then next else DenoteMembers(ms.rest, next)
  }

  // ---- well-formedness ----

  predicate AllSpace(ws: seq<byte>) { forall i :: 0 <= i < |ws| ==> IsSpace(ws[i]) }

  predicate GoodPiece(p: Piece) {
    match p
    case Raw(c) => c != QUOTE && c != BACKSLASH
    case Escaped(letter) => SimpleEscape(letter).Some?
    case Unicode(hex) => |hex| == 4 && HexFour(hex).Some?
  }

  predicate GoodPieces(ps: seq<Piece>) { forall i :: 0 <= i < |ps| ==> GoodPiece(ps[i]) }

  predicate GoodNumber(lexeme: seq<byte>) {
    lexeme != [] && StartsNumber(lexeme[0]) && NumberRun(lexeme) == |lexeme| && IsFloat(lexeme)
  }

  predicate GoodDoc(d: Doc) {
    match d
    case NullDoc => true
    case BoolDoc(_) => true
    case NumDoc(lexeme) => GoodNumber(lexeme)
    case StrDoc(ps) => GoodPieces(ps)
    case EmptyArr(gap) => AllSpace(gap)
    case ArrDoc(items) => GoodItems(items)
    case EmptyObj(gap) => AllSpace(gap)
    case ObjDoc(members) => GoodMembers(members)
  }

  predicate GoodItems(items: Items) {
    && AllSpace(items.lead) && GoodDoc(items.value) && AllSpace(items.trail)
    && (items.NextItem? ==> GoodItems(items.rest))
  }

  predicate GoodMembers(ms: Members) {
    && AllSpace(ms.lead) && GoodPieces(ms.key) && AllSpace(ms.gap) && AllSpace(ms.inner)
    && GoodDoc(ms.value) && AllSpace(ms.trail)
    && (ms.NextMember? ==> GoodMembers(ms.rest))
  }

  predicate GoodText(t: Text) { AllSpace(t.before) && GoodDoc(t.doc) && AllSpace(t.after) }

  // ---- white space ----

  lemma {:induction false} SkipSpaces(ws: seq<byte>, s: seq<byte>)
    requires AllSpace(ws)
    ensures SkipWs(ws + s) == SkipWs(s)
  {
    if ws == [] {
      assert ws + s == s;
    } else {
      assert (ws + s)[1..] == ws[1..] + s;
      SkipSpaces(ws[1..], s);
    }
  }

  lemma {:induction false} SpacesSkipped(s: seq<byte>) returns (ws: seq<byte>)
    ensures AllSpace(ws) && s == ws + SkipWs(s)
  {
    if s != [] && IsSpace(s[0]) {
      var rest := SpacesSkipped(s[1..]);
      ws := [s[0]] + rest;
    } else {
      ws := [];
    }
  }

  lemma SkipTwice(s: seq<byte>)
    ensures SkipWs(SkipWs(s)) == SkipWs(s)
    ensures ParseValue(SkipWs(s)) == ParseValue(s)
  {
  }

  lemma ListSkipsSpace(s: seq<byte>)
    ensures ParseItems(SkipWs(s), []) == ParseItems(s, [])
    ensures ParseMembers(SkipWs(s), map[]) == ParseMembers(s, map[])
  {
    SkipTwice(s);
  }

  // ---- strings ----

  lemma EscapeRead(p: Piece, rest: seq<byte>)
    requires GoodPiece(p) && !p.Raw?
    ensures ParseEscape(PrintPiece(p)[1..] + rest) == Some((PieceChar(p), rest))
  {
    var s := PrintPiece(p)[1..] + rest;
    if p.Unicode? {
      assert s[1..][..4] == p.hex && s[5..] == rest;
      assert HexFour(s[1..]) == HexFour(p.hex);
    }
  }

  /** One printed piece is one character. */
  lemma PieceRead(p: Piece, acc: string, tail: seq<byte>)
    requires GoodPiece(p)
    ensures ParseChars(PrintPiece(p) + tail, acc) == ParseChars(tail, acc + [PieceChar(p)])
  {
    var s := PrintPiece(p) + tail;
    assert s[1..] == PrintPiece(p)[1..] + tail;
    if !p.Raw? { EscapeRead(p, tail); }
  }

  lemma CharsEnd(acc: string, rest: seq<byte>)
    ensures ParseChars([QUOTE] + rest, acc) == Some((acc, rest))
    ensures GoodPieces([]) && PrintPieces([]) + ([QUOTE] + rest) == [QUOTE] + rest && acc + Chars([]) == acc
  {
    assert ([QUOTE] + rest)[1..] == rest;
  }

  lemma {:induction false} CharsRead(ps: seq<Piece>, acc: string, rest: seq<byte>)
    requires GoodPieces(ps)
    ensures ParseChars(PrintPieces(ps) + ([QUOTE] + rest), acc) == Some((acc + Chars(ps), rest))
    decreases |ps|
  {
    if ps == [] {
      CharsEnd(acc, rest);
    } else {
      hide ParseChars, PrintPieces, Chars, PieceChar, PrintPiece, GoodPiece, GoodPieces;
      PiecesUnfold(ps, [QUOTE] + rest);
      PieceRead(ps[0], acc, PrintPieces(ps[1..]) + ([QUOTE] + rest));
      CharsRead(ps[1..], acc + [PieceChar(ps[0])], rest);
      AppendAssociative(acc, [PieceChar(ps[0])], Chars(ps[1..]));
    }
  }

  lemma StringRead(ps: seq<Piece>, rest: seq<byte>)
    requires GoodPieces(ps)
    ensures ParseString(PrintString(ps) + rest) == Some((Chars(ps), rest))
  {
    CharsRead(ps, "", rest);
    var inside := PrintPieces(ps) + ([QUOTE] + rest);
    assert PrintString(ps) + rest == [QUOTE] + inside;
    assert ([QUOTE] + inside)[1..] == inside;
    assert "" + Chars(ps) == Chars(ps);
  }

  lemma EscapeSound(s: seq<byte>) returns (p: Piece)
    requires ParseEscape(s).Some?
    ensures GoodPiece(p) && !p.Raw?
    ensures ParseEscape(s).value.0 == PieceChar(p) && [BACKSLASH] + s == PrintPiece(p) + ParseEscape(s).value.1
  {
    if SimpleEscape(s[0]).Some? {
      p := Escaped(s[0]);
    } else {
      p := Unicode(s[1..5]);
      assert s == [LETTER_U] + s[1..5] + s[5..];
    }
  }

  /** The next character of a string comes from one piece of it. */
  lemma PieceSound(s: seq<byte>, acc: string) returns (p: Piece, tail: seq<byte>)
    requires ParseChars(s, acc).Some? && s[0] != QUOTE
    ensures GoodPiece(p) && s == PrintPiece(p) + tail && |tail| < |s|
    ensures ParseChars(s, acc) == ParseChars(tail, acc + [PieceChar(p)])
  {
    if s[0] == BACKSLASH {
      p := EscapeSound(s[1..]);
      tail := ParseEscape(s[1..]).value.1;
      assert s == [BACKSLASH] + s[1..];
    } else {
      p, tail := Raw(s[0]), s[1..];
    }
  }

  lemma {:induction false} CharsSound(s: seq<byte>, acc: string) returns (ps: seq<Piece>)
    requires ParseChars(s, acc).Some?
    ensures GoodPieces(ps)
    ensures ParseChars(s, acc).value.0 == acc + Chars(ps)
    ensures s == PrintPieces(ps) + ([QUOTE] + ParseChars(s, acc).value.1)
    decreases |s|
  {
    if s[0] == QUOTE {
      ps := [];
      assert s == [QUOTE] + s[1..];
      CharsEnd(acc, s[1..]);
    } else {
      hide ParseChars, PrintPieces, Chars, PieceChar, PrintPiece;
      var p, tail := PieceSound(s, acc);
      var more := CharsSound(tail, acc + [PieceChar(p)]);
      ps := [p] + more;
      PiecesCons(p, more, [QUOTE] + ParseChars(s, acc).value.1);
      AppendAssociative(acc, [PieceChar(p)], Chars(more));
    }
  }

  lemma PiecesUnfold(ps: seq<Piece>, end: seq<byte>)
    requires ps != [] && GoodPieces(ps)
    ensures GoodPiece(ps[0]) && GoodPieces(ps[1..]) && Chars(ps) == [PieceChar(ps[0])] + Chars(ps[1..])
    ensures PrintPieces(ps) + end == PrintPiece(ps[0]) + (PrintPieces(ps[1..]) + end)
  {
    AppendAssociative(PrintPiece(ps[0]), PrintPieces(ps[1..]), end);
  }

  lemma PiecesCons(p: Piece, more: seq<Piece>, end: seq<byte>)
    requires GoodPiece(p) && GoodPieces(more)
    ensures GoodPieces([p] + more) && Chars([p] + more) == [PieceChar(p)] + Chars(more)
    ensures PrintPieces([p] + more) + end == PrintPiece(p) + (PrintPieces(more) + end)
  {
    assert ([p] + more)[1..] == more;
  }

  lemma StringSound(s: seq<byte>) returns (ps: seq<Piece>)
    requires ParseString(s).Some?
    ensures GoodPieces(ps)
    ensures ParseString(s).value.0 == Chars(ps) && s == PrintString(ps) + ParseString(s).value.1
  {
    ps := CharsSound(s[1..], "");
    assert s == [QUOTE] + s[1..];
    assert "" + Chars(ps) == Chars(ps);
  }

  // ---- reading what was printed ----

  /** A printed value starts with a byte that is no space and closes nothing. */
  lemma FirstByte(d: Doc)
    requires d.NumDoc? ==> GoodNumber(d.lexeme)
    ensures Print(d) != [] && !IsSpace(Print(d)[0]) && Print(d)[0] != RBRACKET && Print(d)[0] != RBRACE
  {
  }

  lemma {:induction false} NumberRunAppend(a: seq<byte>, b: seq<byte>)
    requires NumberRun(a) == |a| && (b == [] || !IsNumberByte(b[0]))
    ensures NumberRun(a + b) == |a|
  {
    if a == [] {
      assert a + b == b;
    } else {
      assert (a + b)[1..] == a[1..] + b;
      NumberRunAppend(a[1..], b);
    }
  }

  lemma LiteralRead(d: Doc, rest: seq<byte>)
    requires d.NullDoc? || d.BoolDoc?
    ensures ParseValue(Print(d) + rest) == Some((Denote(d), rest))
  {
    hide ParseItems, ParseMembers, ParseChars, ParseNumber;
    var s, n := Print(d) + rest, |Print(d)|;
    assert SkipWs(s) == s && s[..n] == Print(d) && s[n..] == rest;
  }

  lemma NumberRead(lexeme: seq<byte>, rest: seq<byte>)
    requires GoodNumber(lexeme) && (rest == [] || !IsNumberByte(rest[0]))
    ensures ParseValue(lexeme + rest) == Some((Num(lexeme), rest))
  {
    hide ParseItems, ParseMembers, ParseChars, ParseLiteral, IsFloat;
    var s := lexeme + rest;
    NumberRunAppend(lexeme, rest);
    assert SkipWs(s) == s && s[..|lexeme|] == lexeme && s[|lexeme|..] == rest;
  }

  lemma ScalarRead(d: Doc, rest: seq<byte>)
    requires GoodDoc(d) && (d.NullDoc? || d.BoolDoc? || d.NumDoc? || d.StrDoc?)
    requires d.NumDoc? ==> rest == [] || !IsNumberByte(rest[0])
    ensures ParseValue(Print(d) + rest) == Some((Denote(d), rest))
  {
    match d {
      case NullDoc => LiteralRead(d, rest);
      case BoolDoc(_) => LiteralRead(d, rest);
      case NumDoc(lexeme) => NumberRead(lexeme, rest);
      case StrDoc(ps) =>
        hide ParseItems, ParseMembers, ParseString, ParseNumber, ParseLiteral;
        StringRead(ps, rest);
        assert SkipWs(Print(d) + rest) == Print(d) + rest;
    }
  }

  lemma EmptyRead(gap: seq<byte>, rest: seq<byte>)
    requires AllSpace(gap)
    ensures ParseValue([LBRACKET] + gap + [RBRACKET] + rest) == Some((Arr([]), rest))
    ensures ParseValue([LBRACE] + gap + [RBRACE] + rest) == Some((Obj(map[]), rest))
  {
    var a, o := [LBRACKET] + gap + [RBRACKET] + rest, [LBRACE] + gap + [RBRACE] + rest;
    assert SkipWs(a) == a && SkipWs(o) == o;
    assert a[1..] == gap + ([RBRACKET] + rest) && o[1..] == gap + ([RBRACE] + rest);
    SkipSpaces(gap, [RBRACKET] + rest);
    SkipSpaces(gap, [RBRACE] + rest);
    assert ([RBRACKET] + rest)[1..] == rest && ([RBRACE] + rest)[1..] == rest;
  }

  /** Reading a printed value, with any white space in front, gives its meaning back and stops after it. */
  lemma {:induction false} ValueRead(d: Doc, lead: seq<byte>, rest: seq<byte>)
    requires GoodDoc(d) && AllSpace(lead)
    requires d.NumDoc? ==> rest == [] || !IsNumberByte(rest[0])
    ensures ParseValue(lead + (Print(d) + rest)) == Some((Denote(d), rest))
    decreases d, 1
  {
    var s := Print(d) + rest;
    FirstByte(d);
    SkipSpaces(lead, s);
    SkipTwice(lead + s);
    assert SkipWs(s) == s;
    match d {
      case EmptyArr(gap) => EmptyRead(gap, rest);
      case EmptyObj(gap) => EmptyRead(gap, rest);
      case ArrDoc(items) =>
        ItemsRead(items, [], rest);
        ArrayRead(items, rest);
      case ObjDoc(members) =>
        MembersRead(members, map[], rest);
        ObjectRead(members, rest);
      case _ => ScalarRead(d, rest);
    }
  }

  lemma ArrayRead(items: Items, rest: seq<byte>)
    requires GoodItems(items)
    requires ParseItems(PrintItems(items) + rest, []) == Some(([] + DenoteItems(items), rest))
    ensures ParseValue([LBRACKET] + PrintItems(items) + rest) == Some((Arr(DenoteItems(items)), rest))
  {
    hide ParseValue, ParseItems, PrintItems, DenoteItems;
    var inside := PrintItems(items) + rest;
    var t := [LBRACKET] + PrintItems(items) + rest;
    assert t[1..] == inside;
    ArrayUnfold(t);
    ItemsStart(items, rest);
    ListSkipsSpace(inside);
    assert [] + DenoteItems(items) == DenoteItems(items);
  }

  lemma ObjectRead(ms: Members, rest: seq<byte>)
    requires GoodMembers(ms)
    requires ParseMembers(PrintMembers(ms) + rest, map[]) == Some((DenoteMembers(ms, map[]), rest))
    ensures ParseValue([LBRACE] + PrintMembers(ms) + rest) == Some((Obj(DenoteMembers(ms, map[])), rest))
  {
    hide ParseValue, ParseMembers, PrintMembers, DenoteMembers;
    var inside := PrintMembers(ms) + rest;
    var t := [LBRACE] + PrintMembers(ms) + rest;
    assert t[1..] == inside;
    ObjectUnfold(t);
    MembersStart(ms, rest);
    ListSkipsSpace(inside);
  }

  lemma ItemsStart(items: Items, rest: seq<byte>)
    requires AllSpace(items.lead) && (items.value.NumDoc? ==> GoodNumber(items.value.lexeme))
    ensures var u := SkipWs(PrintItems(items) + rest); u != [] && u[0] != RBRACKET
  {
    FirstByte(items.value);
    var s := PrintItems(items) + rest;
    var tail := s[|items.lead|..];
    assert s == items.lead + tail;
    assert tail[0] == Print(items.value)[0];
    SkipSpaces(items.lead, tail);
  }

  lemma MembersStart(ms: Members, rest: seq<byte>)
    requires AllSpace(ms.lead)
    ensures var u := SkipWs(PrintMembers(ms) + rest); u != [] && u[0] == QUOTE
  {
    var s := PrintMembers(ms) + rest;
    var tail := s[|ms.lead|..];
    assert s == ms.lead + tail;
    assert tail[0] == QUOTE;
    SkipSpaces(ms.lead, tail);
  }

  /** What follows an element: its separator, then the rest. */
  function AfterItem(items: Items, rest: seq<byte>): seq<byte> {
    if items.LastItem? then [RBRACKET] + rest else [COMMA] + (PrintItems(items.rest) + rest)
  }

  lemma {:induction false} ItemsRead(items: Items, acc: seq<Json>, rest: seq<byte>)
    requires GoodItems(items)
    ensures ParseItems(PrintItems(items) + rest, acc) == Some((acc + DenoteItems(items), rest))
    decreases items, 0
  {
    var s := PrintItems(items) + rest;
    var after := AfterItem(items, rest);
    ItemLayout(items, rest);
    assert !IsSpace(after[0]) && !IsNumberByte(after[0]);
    NotNumberAfter(items.trail, after);
    ValueRead(items.value, items.lead, items.trail + after);
    SkipSpaces(items.trail, after);
    assert SkipWs(after) == after;
    var v := Denote(items.value);
    if items.LastItem? {
      assert after[1..] == rest;
      assert [v] + [] == [v];
    } else {
      assert after[1..] == PrintItems(items.rest) + rest;
      ItemsRead(items.rest, acc + [v], rest);
      assert acc + [v] + DenoteItems(items.rest) == acc + ([v] + DenoteItems(items.rest));
    }
  }

  lemma NotNumberAfter(trail: seq<byte>, after: seq<byte>)
    requires AllSpace(trail) && after != [] && !IsNumberByte(after[0])
    ensures trail + after != [] && !IsNumberByte((trail + after)[0])
  {
  }

  function AfterMember(ms: Members, rest: seq<byte>): seq<byte> {
    if ms.LastMember? then [RBRACE] + rest else [COMMA] + (PrintMembers(ms.rest) + rest)
  }

  lemma MemberLayout(ms: Members, rest: seq<byte>)
    ensures PrintMembers(ms) + rest ==
            ms.lead + (PrintString(ms.key) +
                (ms.gap + ([COLON] + (ms.inner + (Print(ms.value) + (ms.trail + AfterMember(ms, rest)))))))
  {
    hide Print, PrintString;
    var end := if ms.LastMember? then [RBRACE] else [COMMA] + PrintMembers(ms.rest);
    assert end + rest == AfterMember(ms, rest);
    var e := ms.trail + end;
    AppendAssociative(ms.trail, end, rest);
    var d := Print(ms.value) + e;
    AppendAssociative(Print(ms.value), e, rest);
    var c := ms.inner + d;
    AppendAssociative(ms.inner, d, rest);
    var b := [COLON] + c;
    AppendAssociative([COLON], c, rest);
    var a := ms.gap + b;
    AppendAssociative(ms.gap, b, rest);
    AppendAssociative(PrintString(ms.key), a, rest);
    AppendAssociative(ms.lead, PrintString(ms.key) + a, rest);
    assert PrintMembers(ms) == ms.lead + (PrintString(ms.key) + a);
  }

  lemma {:induction false} MembersRead(ms: Members, acc: map<string, Json>, rest: seq<byte>)
    requires GoodMembers(ms)
    ensures ParseMembers(PrintMembers(ms) + rest, acc) == Some((DenoteMembers(ms, acc), rest))
    decreases ms, 0
  {
    hide Print, PrintMembers, PrintPieces, ParseValue, ParseString, GoodDoc, Denote, Chars;
    var after := AfterMember(ms, rest);
    var tail := Print(ms.value) + (ms.trail + after);
    var colon := [COLON] + (ms.inner + tail);
    var keyed := PrintString(ms.key) + (ms.gap + colon);
    MemberLayout(ms, rest);
    SkipSpaces(ms.lead, keyed);
    assert keyed[0] == QUOTE && SkipWs(keyed) == keyed;
    StringRead(ms.key, ms.gap + colon);
    SkipSpaces(ms.gap, colon);
    assert SkipWs(colon) == colon && colon[1..] == ms.inner + tail;
    assert !IsSpace(after[0]) && !IsNumberByte(after[0]);
    NotNumberAfter(ms.trail, after);
    ValueRead(ms.value, ms.inner, ms.trail + after);
    SkipSpaces(ms.trail, after);
    assert SkipWs(after) == after;
    if ms.LastMember? {
      assert after[1..] == rest;
    } else {
      assert after[1..] == PrintMembers(ms.rest) + rest;
      MembersRead(ms.rest, acc[Chars(ms.key) := Denote(ms.value)], rest);
    }
  }

  // ---- everything read was printed ----

  function WithLead(items: Items, gap: seq<byte>): Items { items.(lead := gap + items.lead) }

  function WithLeadMembers(ms: Members, gap: seq<byte>): Members { ms.(lead := gap + ms.lead) }

  lemma ItemsLead(items: Items, gap: seq<byte>)
    requires AllSpace(gap) && GoodItems(items)
    ensures PrintItems(WithLead(items, gap)) == gap + PrintItems(items)
    ensures GoodItems(WithLead(items, gap)) && DenoteItems(WithLead(items, gap)) == DenoteItems(items)
  {
    hide Print, GoodDoc;
    var end := if items.LastItem? then [RBRACKET] else [COMMA] + PrintItems(items.rest);
    AppendAssociative(gap, items.lead, Print(items.value) + (items.trail + end));
  }

  lemma MembersLead(ms: Members, gap: seq<byte>)
    requires AllSpace(gap) && GoodMembers(ms)
    ensures PrintMembers(WithLeadMembers(ms, gap)) == gap + PrintMembers(ms)
    ensures GoodMembers(WithLeadMembers(ms, gap))
    ensures DenoteMembers(WithLeadMembers(ms, gap), map[]) == DenoteMembers(ms, map[])
  {
    hide Print, PrintString, GoodDoc;
    var end := if ms.LastMember? then [RBRACE] else [COMMA] + PrintMembers(ms.rest);
    AppendAssociative(gap, ms.lead,
      PrintString(ms.key) + (ms.gap + ([COLON] + (ms.inner + (Print(ms.value) + (ms.trail + end))))));
  }

  lemma LiteralSound(t: seq<byte>) returns (d: Doc)
    requires ParseLiteral(t).Some?
    ensures GoodDoc(d) && t == Print(d) + ParseLiteral(t).value.1 && Denote(d) == ParseLiteral(t).value.0
  {
    d := if TRUE_TEXT <= t then BoolDoc(true) else if FALSE_TEXT <= t then BoolDoc(false) else NullDoc;
    assert t == t[..|Print(d)|] + t[|Print(d)|..];
  }

  lemma NumberSound(t: seq<byte>) returns (d: Doc)
    requires t != [] && StartsNumber(t[0]) && ParseNumber(t).Some?
    ensures GoodDoc(d) && t == Print(d) + ParseNumber(t).value.1 && Denote(d) == ParseNumber(t).value.0
  {
    hide IsFloat;
    var n := NumberRun(t);
    d := NumDoc(t[..n]);
    NumberRunPrefix(t);
    assert t == t[..n] + t[n..];
  }

  lemma ScalarUnfold(t: seq<byte>)
    requires t != [] && !IsSpace(t[0]) && t[0] != LBRACE && t[0] != LBRACKET && ParseValue(t).Some?
    ensures if t[0] == QUOTE then
              ParseString(t).Some? && ParseValue(t) == Some((Str(ParseString(t).value.0), ParseString(t).value.1))
            else if StartsNumber(t[0]) then ParseValue(t) == ParseNumber(t)
            else ParseValue(t) == ParseLiteral(t)
  {
    hide ParseItems, ParseMembers, ParseString, ParseNumber, ParseLiteral;
    assert SkipWs(t) == t;
  }

  lemma ScalarSound(t: seq<byte>) returns (d: Doc)
    requires t != [] && !IsSpace(t[0]) && t[0] != LBRACE && t[0] != LBRACKET && ParseValue(t).Some?
    ensures GoodDoc(d) && t == Print(d) + ParseValue(t).value.1 && Denote(d) == ParseValue(t).value.0
  {
    hide ParseValue, ParseString, ParseNumber, ParseLiteral, PrintString, Chars, GoodPieces;
    ScalarUnfold(t);
    if t[0] == QUOTE {
      var ps := StringSound(t);
      d := StrDoc(ps);
    } else if StartsNumber(t[0]) {
      d := NumberSound(t);
    } else {
      d := LiteralSound(t);
    }
  }

  lemma {:induction false} ValueSound(s: seq<byte>) returns (lead: seq<byte>, d: Doc)
    requires ParseValue(s).Some?
    ensures AllSpace(lead) && GoodDoc(d)
    ensures s == lead + (Print(d) + ParseValue(s).value.1) && Denote(d) == ParseValue(s).value.0
    decreases |s|, 1
  {
    lead := SpacesSkipped(s);
    SkipTwice(s);
    var t := SkipWs(s);
    assert t != [];
    if t[0] == LBRACE {
      d := ObjectSound(t);
    } else if t[0] == LBRACKET {
      d := ArraySound(t);
    } else {
      d := ScalarSound(t);
    }
  }

  lemma {:induction false} NumberRunPrefix(s: seq<byte>)
    ensures NumberRun(s[..NumberRun(s)]) == NumberRun(s)
  {
    var n := NumberRun(s);
    if n == 0 {
    } else {
      NumberRunPrefix(s[1..]);
      assert s[..n][1..] == s[1..][..n - 1];
    }
  }

  /** A bracket, white space, and what is left after it. */
  lemma Opened(t: seq<byte>) returns (gap: seq<byte>)
    requires t != []
    ensures AllSpace(gap) && t == [t[0]] + (gap + SkipWs(t[1..]))
  {
    gap := SpacesSkipped(t[1..]);
    assert t == [t[0]] + t[1..];
  }

  lemma {:induction false} ArraySound(t: seq<byte>) returns (d: Doc)
    requires t != [] && t[0] == LBRACKET && ParseValue(t).Some?
    ensures GoodDoc(d)
    ensures t == Print(d) + ParseValue(t).value.1 && Denote(d) == ParseValue(t).value.0
    decreases |t|, 0
  {
    hide ParseValue, ParseItems, PrintItems, DenoteItems, GoodItems, SkipWs;
    ArrayUnfold(t);
    var gap := Opened(t);
    var u, rest := SkipWs(t[1..]), ParseValue(t).value.1;
    if u != [] && u[0] == RBRACKET {
      d := EmptyArr(gap);
      assert u == [RBRACKET] + rest;
    } else {
      var items := ItemsSound(u, []);
      ItemsLead(items, gap);
      d := ArrDoc(WithLead(items, gap));
      AppendAssociative(gap, PrintItems(items), rest);
      AppendAssociative([LBRACKET], gap + PrintItems(items), rest);
      assert [] + DenoteItems(items) == DenoteItems(items);
    }
  }

  lemma {:induction false} ObjectSound(t: seq<byte>) returns (d: Doc)
    requires t != [] && t[0] == LBRACE && ParseValue(t).Some?
    ensures GoodDoc(d)
    ensures t == Print(d) + ParseValue(t).value.1 && Denote(d) == ParseValue(t).value.0
    decreases |t|, 0
  {
    hide ParseValue, ParseMembers, PrintMembers, DenoteMembers, GoodMembers, SkipWs;
    ObjectUnfold(t);
    var gap := Opened(t);
    var u, rest := SkipWs(t[1..]), ParseValue(t).value.1;
    if u != [] && u[0] == RBRACE {
      d := EmptyObj(gap);
      assert u == [RBRACE] + rest;
    } else {
      var ms := MembersSound(u, map[]);
      MembersLead(ms, gap);
      d := ObjDoc(WithLeadMembers(ms, gap));
      AppendAssociative(gap, PrintMembers(ms), rest);
      AppendAssociative([LBRACE], gap + PrintMembers(ms), rest);
    }
  }

  lemma {:induction false} ItemsSound(s: seq<byte>, acc: seq<Json>) returns (items: Items)
    requires ParseItems(s, acc).Some?
    ensures GoodItems(items)
    ensures s == PrintItems(items) + ParseItems(s, acc).value.1
    ensures ParseItems(s, acc).value.0 == acc + DenoteItems(items)
    decreases |s|, 2
  {
    hide ParseValue, Print, PrintItems, GoodDoc, Denote;
    var lead, d := ValueSound(s);
    var (v, t) := ParseValue(s).value;
    var trail := SpacesSkipped(t);
    var u := SkipWs(t);
    if u[0] == COMMA {
      var rest := ItemsSound(u[1..], acc + [v]);
      items := NextItem(lead, d, trail, rest);
      AppendAssociative(acc, [v], DenoteItems(rest));
      assert u == [COMMA] + u[1..];
    } else {
      items := LastItem(lead, d, trail);
      assert u == [RBRACKET] + u[1..];
      assert [v] + [] == [v];
    }
    ItemLayout(items, ParseItems(s, acc).value.1);
  }

  lemma ItemLayout(items: Items, rest: seq<byte>)
    ensures PrintItems(items) + rest == items.lead + (Print(items.value) + (items.trail + AfterItem(items, rest)))
  {
    hide Print;
    var end := if items.LastItem? then [RBRACKET] else [COMMA] + PrintItems(items.rest);
    assert end + rest == AfterItem(items, rest);
    AppendAssociative(items.trail, end, rest);
    AppendAssociative(Print(items.value), items.trail + end, rest);
    AppendAssociative(items.lead, Print(items.value) + (items.trail + end), rest);
  }

  lemma {:induction false} MembersSound(s: seq<byte>, acc: map<string, Json>) returns (ms: Members)
    requires ParseMembers(s, acc).Some?
    ensures GoodMembers(ms)
    ensures s == PrintMembers(ms) + ParseMembers(s, acc).value.1
    ensures ParseMembers(s, acc).value.0 == DenoteMembers(ms, acc)
    decreases |s|, 2, 1
  {
    hide ParseMembers, Print, PrintString, PrintMembers, GoodDoc, Denote, Chars, GoodPiece;
    var head, x := MemberSound(s, acc);
    var next := acc[Chars(head.key) := Denote(head.value)];
    if x[0] == COMMA {
      var rest := MembersSound(x[1..], next);
      ms := NextMember(head.lead, head.key, head.gap, head.inner, head.value, head.trail, rest);
      assert x == [COMMA] + x[1..];
    } else {
      ms := head;
      assert x == [RBRACE] + x[1..];
    }
    MemberLayout(ms, ParseMembers(s, acc).value.1);
  }

  /** One member: its pieces, and the separator where it ends. */
  lemma {:induction false} MemberSound(s: seq<byte>, acc: map<string, Json>) returns (m: Members, x: seq<byte>)
    requires ParseMembers(s, acc).Some?
    ensures m.LastMember? && GoodMembers(m) && x != [] && |x| < |s|
    ensures s == m.lead + (PrintString(m.key) + (m.gap + ([COLON] + (m.inner + (Print(m.value) + (m.trail + x))))))
    ensures x[0] == COMMA || x[0] == RBRACE
    ensures var next := acc[Chars(m.key) := Denote(m.value)];
            ParseMembers(s, acc) == if x[0] == COMMA then ParseMembers(x[1..], next) else Some((next, x[1..]))
    decreases |s|, 2, 0
  {
    hide ParseValue, ParseString, Print, PrintString, GoodDoc, Denote, Chars, GoodPiece;
    var lead := SpacesSkipped(s);
    var key := StringSound(SkipWs(s));
    var (name, t) := ParseString(SkipWs(s)).value;
    var gap := SpacesSkipped(t);
    var u := SkipWs(t);
    var inner, d := ValueSound(u[1..]);
    var (v, w) := ParseValue(u[1..]).value;
    var trail := SpacesSkipped(w);
    x := SkipWs(w);
    assert u == [COLON] + u[1..];
    m := LastMember(lead, key, gap, inner, d, trail);
  }

  // ---- the main results ----

  ghost predicate IsTextOf(input: seq<byte>, j: Json) {
    exists t: Text :: GoodText(t) && PrintText(t) == input && Denote(t.doc) == j
  }

  /** Reading a text gives exactly its meaning, whatever white space and escapes it uses. */
  lemma TextRead(t: Text)
    requires GoodText(t)
    ensures Parsed(PrintText(t)) == Ok(Denote(t.doc))
  {
    var s := Print(t.doc) + t.after;
    assert PrintText(t) == t.before + s;
    assert t.after == [] || !IsNumberByte(t.after[0]);
    ValueRead(t.doc, [], t.after);
    assert [] + s == s;
    SkipSpaces(t.before, s);
    SkipTwice(s);
    SkipTwice(t.before + s);
    SkipSpaces(t.after, []);
    assert t.after + [] == t.after;
  }

  /** The reader accepts a buffer, with a given tree, exactly when the buffer is a text of that tree. */
  lemma ReaderExact(input: seq<byte>, j: Json)
    ensures Parsed(input) == Ok(j) <==> IsTextOf(input, j)
  {
    hide ParseValue, Print, GoodDoc, Denote;
    if Parsed(input) == Ok(j) {
      var before := SpacesSkipped(input);
      var s := SkipWs(input);
      var lead, d := ValueSound(s);
      var after := SpacesSkipped(ParseValue(s).value.1);
      assert after + [] == after;
      var t := Text(before + lead, d, after);
      assert PrintText(t) == input;
      assert GoodText(t);
    }
    if IsTextOf(input, j) {
      var t: Text :| GoodText(t) && PrintText(t) == input && Denote(t.doc) == j;
      TextRead(t);
    }
  }

  // ---- which trees have a text ----

  /** Characters a single escape can name. */
  predicate BasicPlane(s: string) { forall i :: 0 <= i < |s| ==> s[i] as int < 0x1_0000 }

  predicate Expressible(j: Json) {
    match j
    case Null => true
    case Bool(_) => true
    case Num(lexeme) => GoodNumber(lexeme)
    case Str(s) => BasicPlane(s)
    case Arr(items) => forall i :: 0 <= i < |items| ==> Expressible(items[i])
    case Obj(members) => forall k :: k in members ==> BasicPlane(k) && Expressible(members[k])
  }

  function HexDigit(d: nat): (r: byte)
    requires d < 16
    ensures HexValue(r) == Some(d) && r < 0x80
  {
    if d < 10 then 0x30 + d else 0x61 + d - 10
  }

  function EscapeOf(c: char): (p: Piece)
    requires c as int < 0x1_0000
    ensures GoodPiece(p) && PieceChar(p) == c && AllAscii(PrintPiece(p))
    ensures p.Unicode? && HexFour(p.hex) == Some(c as int)
  {
    var v := c as int;
    var a, b, d, e := v / 16 / 16 / 16, v / 16 / 16 % 16, v / 16 % 16, v % 16;
    assert v == 16 * (v / 16) + e && v / 16 == 16 * (v / 16 / 16) + d && v / 16 / 16 == 16 * a + b;
    var hex := [HexDigit(a), HexDigit(b), HexDigit(d), HexDigit(e)];
    assert HexFour(hex) == Some(((a * 16 + b) * 16 + d) * 16 + e);
    Unicode(hex)
  }

  function EscapesOf(s: string): (ps: seq<Piece>)
    requires BasicPlane(s)
    ensures GoodPieces(ps) && Chars(ps) == s && AllAscii(PrintPieces(ps))
  {
    if s == [] then []
    else
      var ps := [EscapeOf(s[0])] + EscapesOf(s[1..]);
      assert ps[1..] == EscapesOf(s[1..]);
      ps
  }

  predicate AllAscii(b: seq<byte>) { forall i :: 0 <= i < |b| ==> b[i] < 0x80 }

  /** ASCII bytes are the encoding of the text they spell. */
  lemma {:induction false} AsciiText(b: seq<byte>) returns (s: string)
    requires AllAscii(b)
    ensures Utf8.Encode(s) == b
  {
    s := [];
    if b == [] {
    } else {
      var rest := AsciiText(b[1..]);
      s := [b[0] as char] + rest;
      assert s[1..] == rest;
    }
  }

  lemma {:induction false} DocOf(j: Json) returns (d: Doc)
    requires Expressible(j)
    ensures GoodDoc(d) && Denote(d) == j && AllAscii(Print(d))
    decreases j, 0
  {
    match j {
      case Null => d := NullDoc;
      case Bool(v) => d := BoolDoc(v);
      case Num(lexeme) => d := NumDoc(lexeme);
      case Str(s) => d := StrDoc(EscapesOf(s));
      case Arr(items) =>
        if items == [] {
          d := EmptyArr([]);
        } else {
          var printed := ItemsOf(j, 0);
          d := ArrDoc(printed);
        }
      case Obj(members) =>
        if members == map[] {
          d := EmptyObj([]);
        } else {
          var printed := MembersOf(j, members.Keys, map[]);
          d := ObjDoc(printed);
        }
    }
  }

  lemma {:induction false} ItemsOf(j: Json, k: nat) returns (items: Items)
    requires j.Arr? && Expressible(j) && k < |j.items|
    ensures GoodItems(items) && DenoteItems(items) == j.items[k..] && AllAscii(PrintItems(items))
    decreases j, 0, |j.items| - k
  {
    var d := DocOf(j.items[k]);
    if k + 1 == |j.items| {
      items := LastItem([], d, []);
    } else {
      var rest := ItemsOf(j, k + 1);
      items := NextItem([], d, [], rest);
      assert j.items[k..] == [j.items[k]] + j.items[k + 1..];
    }
  }

  lemma {:induction false} MembersOf(j: Json, keys: set<string>, acc: map<string, Json>) returns (ms: Members)
    requires j.Obj? && Expressible(j) && keys != {} && keys <= j.members.Keys
    requires acc.Keys == j.members.Keys - keys && forall k :: k in acc ==> acc[k] == j.members[k]
    ensures GoodMembers(ms) && DenoteMembers(ms, acc) == j.members && AllAscii(PrintMembers(ms))
    decreases j, 0, |keys|
  {
    hide Print, PrintMembers, PrintPieces, GoodPiece, GoodDoc, Denote, Chars, EscapesOf, AllAscii;
    var k :| k in keys;
    var d := DocOf(j.members[k]);
    var next := acc[k := j.members[k]];
    if keys == {k} {
      ms := LastMember([], EscapesOf(k), [], [], d, []);
      assert next == j.members;
    } else {
      var rest := MembersOf(j, keys - {k}, next);
      ms := NextMember([], EscapesOf(k), [], [], d, [], rest);
    }
    TightMemberAscii(ms);
  }

  lemma TightMemberAscii(ms: Members)
    requires ms.lead == ms.gap == ms.inner == ms.trail == []
    requires AllAscii(PrintPieces(ms.key)) && AllAscii(Print(ms.value))
    requires ms.NextMember? ==> AllAscii(PrintMembers(ms.rest))
    ensures AllAscii(PrintMembers(ms))
  {
    var end := if ms.LastMember? then [RBRACE] else [COMMA] + PrintMembers(ms.rest);
    assert PrintMembers(ms) == PrintString(ms.key) + [COLON] + Print(ms.value) + end;
  }

  /** Rendering an expressible tree and reading it gives the same tree back, with any white space around it. */
  lemma TreeRoundTrip(j: Json, before: seq<byte>, after: seq<byte>)
    requires Expressible(j) && AllSpace(before) && AllSpace(after)
    ensures exists d: Doc ::
              && GoodDoc(d) && Denote(d) == j && AllAscii(Print(d))
              && Parsed(before + Print(d) + after) == Ok(j)
  {
    var d := DocOf(j);
    TextRead(Text(before, d, after));
  }

  lemma {:induction false} CharsBasic(ps: seq<Piece>)
    requires GoodPieces(ps)
    ensures BasicPlane(Chars(ps))
  {
    if ps == [] {
    } else {
      CharsBasic(ps[1..]);
    }
  }

  lemma {:induction false} DenoteExpressible(d: Doc)
    requires GoodDoc(d)
    ensures Expressible(Denote(d))
    decreases d
  {
    match d {
      case StrDoc(ps) => CharsBasic(ps);
      case ArrDoc(items) => ItemsExpressible(items);
      case ObjDoc(members) => MembersExpressible(members, map[]);
      case _ =>
    }
  }

  lemma {:induction false} ItemsExpressible(items: Items)
    requires GoodItems(items)
    ensures forall i :: 0 <= i < |DenoteItems(items)| ==> Expressible(DenoteItems(items)[i])
    decreases items
  {
    DenoteExpressible(items.value);
    if items.NextItem? { ItemsExpressible(items.rest); }
  }

  lemma {:induction false} MembersExpressible(ms: Members, acc: map<string, Json>)
    requires GoodMembers(ms) && forall k :: k in acc ==> BasicPlane(k) && Expressible(acc[k])
    ensures var m := DenoteMembers(ms, acc); forall k :: k in m ==> BasicPlane(k) && Expressible(m[k])
    decreases ms
  {
    CharsBasic(ms.key);
    DenoteExpressible(ms.value);
    if ms.NextMember? { MembersExpressible(ms.rest, acc[Chars(ms.key) := Denote(ms.value)]); }
  }

  /**
   * A tree can be read from some text exactly when its strings stay within the basic plane and its numbers are
   * lexemes.
   */
  lemma ReadableTrees(j: Json)
    ensures Expressible(j) <==> exists input: string :: Parsed(Utf8.Encode(input)) == Ok(j)
  {
    if Expressible(j) {
      TreeRoundTrip(j, [], []);
      var d: Doc :| GoodDoc(d) && Denote(d) == j && AllAscii(Print(d)) && Parsed([] + Print(d) + []) == Ok(j);
      assert [] + Print(d) + [] == Print(d);
      var input := AsciiText(Print(d));
      assert Parsed(Utf8.Encode(input)) == Ok(j);
    }
    if input: string :| Parsed(Utf8.Encode(input)) == Ok(j) {
      ReaderExact(Utf8.Encode(input), j);
      var t: Text :| GoodText(t) && PrintText(t) == Utf8.Encode(input) && Denote(t.doc) == j;
      DenoteExpressible(t.doc);
    }
  }

  // ---- unescaped text ----

  predicate Plain(s: string) { '\"' !in s && '\\' !in s }

  function RawPieces(b: seq<byte>): (ps: seq<Piece>)
    ensures |ps| == |b|
  {
    if b == [] then [] else [Raw(b[0])] + RawPieces(b[1..])
  }

  lemma {:induction false} RawPiecesPrint(b: seq<byte>)
    requires QUOTE !in b && BACKSLASH !in b
    ensures GoodPieces(RawPieces(b)) && PrintPieces(RawPieces(b)) == b
    ensures |Chars(RawPieces(b))| == |b|
    ensures forall i :: 0 <= i < |b| ==> Chars(RawPieces(b))[i] == b[i] as char
  {
    if b == [] {
    } else {
      var more := RawPieces(b[1..]);
      RawPiecesPrint(b[1..]);
      assert RawPieces(b) == [Raw(b[0])] + more;
      hide PrintPieces, Chars, RawPieces, GoodPieces;
      assert GoodPiece(Raw(b[0])) && PrintPiece(Raw(b[0])) == [b[0]];
      PiecesCons(Raw(b[0]), more, []);
      assert PrintPieces(RawPieces(b)) + [] == PrintPieces(RawPieces(b)) && PrintPieces(more) + [] == PrintPieces(more);
      assert [b[0]] + b[1..] == b;
    }
  }

  lemma {:induction false} PlainBytes(s: string)
    requires Plain(s)
    ensures QUOTE !in Utf8.Encode(s) && BACKSLASH !in Utf8.Encode(s)
  {
    if s == [] {
    } else {
      PlainBytes(s[1..]);
      PlainChar(s[0]);
    }
  }

  lemma PlainChar(c: char)
    requires c != '\"' && c != '\\'
    ensures QUOTE !in Utf8.EncodeChar(c) && BACKSLASH !in Utf8.EncodeChar(c)
  {
    var e := Utf8.EncodeChar(c);
    if c as int >= 0x80 {
      forall b | b in e ensures b >= 0x80 {}
    }
  }

  /** Text written without escapes is read back unchanged exactly when it is ASCII. */
  lemma PlainTextExactly(s: string)
    requires Plain(s)
    ensures Parsed([QUOTE] + Utf8.Encode(s) + [QUOTE]) == Ok(Str(s)) <==> Utf8.IsAscii(s)
  {
    var b := Utf8.Encode(s);
    PlainBytes(s);
    RawPiecesPrint(b);
    var t := Text([], StrDoc(RawPieces(b)), []);
    TextRead(t);
    assert PrintText(t) == [QUOTE] + b + [QUOTE];
    Utf8.AsciiBytes(s);
    var chars := Chars(RawPieces(b));
    if Utf8.IsAscii(s) {
      forall i | 0 <= i < |s| ensures chars[i] == s[i] { assert b[i] == s[i] as int; }
      assert chars == s;
    }
  }
}
