/** The texts of RFC 8259 (sections 2 to 7) and what the reader makes of them. */
module JsonStandard {
  import opened Basics
  import opened Json
  import opened JsonGrammar
  import Utf8

  const LETTER_B: byte := 0x62
  const ZERO: byte := 0x30
  const POINT: byte := 0x2E

  // ---- the tables of the standard, written out apart from the reader's ----

  /** Section 2: space, horizontal tab, line feed and carriage return. */
  predicate Blank(c: byte) { c == 0x20 || c == 0x09 || c == 0x0A || c == 0x0D }

  predicate Blanks(ws: seq<byte>) { forall i :: 0 <= i < |ws| ==> Blank(ws[i]) }

  /** Section 7: the eight letters an escape may have, and the character each stands for. */
  function StandardEscape(letter: byte): Option<char> {
    match letter as char
    case '\"' => Some('\"')
    case '\\' => Some('\\')
    case '/' => Some('/')
    case 'b' => Some(8 as char)
    case 'f' => Some(12 as char)
    case 'n' => Some(10 as char)
    case 'r' => Some(13 as char)
    case 't' => Some(9 as char)
    case _ => None
  }

  /** The two of them that the reader does not know. */
  predicate UnknownEscape(letter: byte) { letter == LETTER_B || letter == LETTER_F }

  /** A hex digit, in either case. */
  function HexDigitOf(d: byte): (r: Option<nat>)
    ensures r.Some? ==> r.value < 16
  {
    var c := d as char;
    if '0' <= c <= '9' then Some(c as int - '0' as int)
    else if 'a' <= c <= 'f' then Some(10 + (c as int - 'a' as int))
    else if 'A' <= c <= 'F' then Some(10 + (c as int - 'A' as int))
    else None
  }

  /** The number four hex digits spell, the first one weighing most. */
  function CodeUnit(hex: seq<byte>): (r: Option<nat>)
    ensures r.Some? ==> r.value < 0x1_0000
  {
    if |hex| != 4 then None
    else
      var a :- HexDigitOf(hex[0]);
      var b :- HexDigitOf(hex[1]);
      var c :- HexDigitOf(hex[2]);
      var d :- HexDigitOf(hex[3]);
      Some(0x1000 * a + 0x100 * b + 0x10 * c + d)
  }

  /** Section 6: digits run from 0x30 to 0x39. */
  predicate Numeral(c: byte) { 0x30 <= c < 0x3A }

  predicate Numerals(s: seq<byte>) { forall i :: 0 <= i < |s| ==> Numeral(s[i]) }

  predicate SignPart(s: seq<byte>) { s == [] || s == ['-' as int] }

  predicate WholePart(s: seq<byte>) { s != [] && Numerals(s) && (s[0] as char == '0' ==> |s| == 1) }

  predicate FractionPart(s: seq<byte>) {
    s == [] || (s[0] as char == '.' && |s| > 1 && Numerals(s[1..]))
  }

  predicate ExponentPart(s: seq<byte>) {
    || s == []
    || ((s[0] as char == 'e' || s[0] as char == 'E') &&
        (|| (|s| > 1 && Numerals(s[1..]))
         || (|s| > 2 && (s[1] as char == '+' || s[1] as char == '-') && Numerals(s[2..]))))
  }

  predicate SpeltNumber(
    lexeme: seq<byte>, sign: seq<byte>, whole: seq<byte>, fraction: seq<byte>, exponent: seq<byte>)
  {
    && lexeme == sign + (whole + (fraction + exponent))
    && SignPart(sign) && WholePart(whole) && FractionPart(fraction) && ExponentPart(exponent)
  }

  /** Section 6: a sign, digits without a leading zero, a fraction and an exponent, all but the digits optional. */
  ghost predicate StandardNumber(lexeme: seq<byte>) {
    exists sign, whole, fraction, exponent :: SpeltNumber(lexeme, sign, whole, fraction, exponent)
  }

  /** The code unit a `\u` escape spells, if it spells one. */
  function UnitOf(p: Piece): (r: Option<nat>)
    ensures r.Some? ==> r.value < 0x1_0000
  {
    if p.Unicode? then CodeUnit(p.hex) else None
  }

  predicate HighHalf(p: Piece) { UnitOf(p).Some? && 0xD800 <= UnitOf(p).value < 0xDC00 }

  predicate LowHalf(p: Piece) { UnitOf(p).Some? && 0xDC00 <= UnitOf(p).value < 0xE000 }

  function PairChar(high: Piece, low: Piece): char
    requires HighHalf(high) && LowHalf(low)
  {
    (0x1_0000 + (UnitOf(high).value - 0xD800) * 0x400 + (UnitOf(low).value - 0xDC00)) as char
  }

  /** The unescaped bytes a string goes on with. */
  function RawRun(ps: seq<Piece>): (b: seq<byte>)
    ensures |b| <= |ps|
    ensures forall i :: 0 <= i < |b| ==> ps[i] == Raw(b[i])
  {
    if ps == [] || !ps[0].Raw? then [] else [ps[0].c] + RawRun(ps[1..])
  }

  /**
   * The text a string stands for: unescaped bytes are UTF-8, surrogate escapes combine in pairs, and an
   * unpaired one is the replacement character. `None` when it is no string of the standard.
   */
  function Meaning(ps: seq<Piece>): (r: Option<string>)
    decreases |ps|
  {
    if ps == [] then Some([])
    else
      match ps[0]
      case Raw(_) =>
        var (c, n) :- Utf8.DecodeChar(RawRun(ps));
        if c < ' ' || c == '\"' || c == '\\' then None
        else
          var rest :- Meaning(ps[n..]);
          Some([c] + rest)
      case Escaped(letter) =>
        var c :- StandardEscape(letter);
        var rest :- Meaning(ps[1..]);
        Some([c] + rest)
      case Unicode(_) =>
        if UnitOf(ps[0]).None? then None
        else if |ps| >= 2 && HighHalf(ps[0]) && LowHalf(ps[1]) then
          var rest :- Meaning(ps[2..]);
          Some([PairChar(ps[0], ps[1])] + rest)
        else
          var rest :- Meaning(ps[1..]);
          Some([if HighHalf(ps[0]) || LowHalf(ps[0]) then 0xFFFD as char else UnitOf(ps[0]).value as char] + rest)
  }

  ghost predicate StandardDoc(d: Doc) {
    match d
    case NullDoc => true
    case BoolDoc(_) => true
    case NumDoc(lexeme) => StandardNumber(lexeme)
    case StrDoc(ps) => Meaning(ps).Some?
    case EmptyArr(gap) => Blanks(gap)
    case ArrDoc(items) => StandardItems(items)
    case EmptyObj(gap) => Blanks(gap)
    case ObjDoc(members) => StandardMembers(members)
  }

  ghost predicate StandardItems(items: Items) {
    && Blanks(items.lead) && StandardDoc(items.value) && Blanks(items.trail)
    && (items.NextItem? ==> StandardItems(items.rest))
  }

  ghost predicate StandardMembers(ms: Members) {
    && Blanks(ms.lead) && Meaning(ms.key).Some? && Blanks(ms.gap) && Blanks(ms.inner)
    && StandardDoc(ms.value) && Blanks(ms.trail)
    && (ms.NextMember? ==> StandardMembers(ms.rest))
  }

  /** A JSON text of the standard. */
  ghost predicate StandardText(t: Text) { Blanks(t.before) && StandardDoc(t.doc) && Blanks(t.after) }

  // ---- the reader's tables against the standard's ----

  /** Of the eight escapes the reader knows six, each with the standard's meaning, and no other letter. */
  lemma EscapesKnown(letter: byte)
    ensures SimpleEscape(letter) == if UnknownEscape(letter) then None else StandardEscape(letter)
    ensures UnknownEscape(letter) ==> StandardEscape(letter).Some?
  {
  }

  lemma HexKnown(hex: seq<byte>)
    requires |hex| == 4
    ensures HexFour(hex) == CodeUnit(hex)
  {
    forall i | 0 <= i < 4 ensures HexValue(hex[i]) == HexDigitOf(hex[i]) { DigitKnown(hex[i]); }
    hide HexValue, HexDigitOf;
  }

  lemma DigitKnown(d: byte)
    ensures HexValue(d) == HexDigitOf(d)
  {
  }

  lemma SpacesKnown(ws: seq<byte>)
    ensures AllSpace(ws) <==> Blanks(ws)
  {
  }

  /** The syntax of sections 2 to 5 and 7, character by character. */
  lemma Syntax(v: Doc, a: seq<byte>, b: seq<byte>, c: seq<byte>, d: seq<byte>, items: Items, ms: Members)
    ensures Print(NullDoc) == ['n' as int, 'u' as int, 'l' as int, 'l' as int]
    ensures Print(BoolDoc(true)) == ['t' as int, 'r' as int, 'u' as int, 'e' as int]
    ensures Print(BoolDoc(false)) == ['f' as int, 'a' as int, 'l' as int, 's' as int, 'e' as int]
    ensures Print(EmptyArr(a)) == ['[' as int] + a + [']' as int]
    ensures Print(ArrDoc(items)) == ['[' as int] + PrintItems(items)
    ensures PrintItems(LastItem(a, v, b)) == a + (Print(v) + (b + [']' as int]))
    ensures PrintItems(NextItem(a, v, b, items)) == a + (Print(v) + (b + ([',' as int] + PrintItems(items))))
    ensures Print(EmptyObj(a)) == ['{' as int] + a + ['}' as int]
    ensures Print(ObjDoc(ms)) == ['{' as int] + PrintMembers(ms)
    ensures PrintMembers(LastMember(a, [], b, c, v, d)) ==
            a + (['\"' as int, '\"' as int] + (b + ([':' as int] + (c + (Print(v) + (d + ['}' as int]))))))
    ensures PrintMembers(NextMember(a, [], b, c, v, d, ms)) ==
            a + (['\"' as int, '\"' as int] + (b + ([':' as int] +
            (c + (Print(v) + (d + ([',' as int] + PrintMembers(ms))))))))
  {
    assert PrintString([]) == ['\"' as int, '\"' as int];
  }

  lemma StringSyntax(ps: seq<Piece>, letter: byte, hex: seq<byte>)
    ensures PrintString(ps) == ['\"' as int] + PrintPieces(ps) + ['\"' as int]
    ensures PrintPiece(Raw(letter)) == [letter] && PrintPiece(Escaped(letter)) == ['\\' as int, letter]
    ensures PrintPiece(Unicode(hex)) == ['\\' as int, 'u' as int] + hex
  {
  }

  /** What the reader takes a piece for is what the standard does, except for raw bytes beyond ASCII. */
  lemma PieceKnown(p: Piece)
    ensures p.Escaped? ==> (GoodPiece(p) <==> StandardEscape(p.letter).Some? && !UnknownEscape(p.letter))
    ensures p.Unicode? ==> (GoodPiece(p) <==> UnitOf(p).Some?)
    ensures GoodPiece(p) && p.Escaped? ==> StandardEscape(p.letter) == Some(PieceChar(p))
    ensures GoodPiece(p) && p.Unicode? ==>
              PieceChar(p) == if HighHalf(p) || LowHalf(p) then 0xFFFD as char else UnitOf(p).value as char
  {
    hide StandardEscape, SimpleEscape, HexFour, HexDigitOf;
    match p {
      case Raw(_) =>
      case Escaped(letter) => EscapesKnown(letter);
      case Unicode(hex) => if |hex| == 4 { HexKnown(hex); }
    }
  }

  lemma {:induction false} DigitsRun(s: seq<byte>)
    ensures Numerals(s[..DigitRun(s)]) && forall i :: 0 <= i < DigitRun(s) ==> IsDigit(s[i])
    ensures DigitRun(s) < |s| ==> !IsDigit(s[DigitRun(s)])
  {
    if s != [] && IsDigit(s[0]) {
      DigitsRun(s[1..]);
      assert forall i :: 0 < i < DigitRun(s) ==> s[i] == s[1..][i - 1];
    }
  }

  lemma {:induction false} NumeralsRun(a: seq<byte>, b: seq<byte>)
    requires Numerals(a) && (b == [] || !Numeral(b[0]))
    ensures DigitRun(a + b) == |a|
  {
    if a == [] {
      assert a + b == b;
    } else {
      AppendTail(a, b);
      NumeralsRun(a[1..], b);
    }
  }

  lemma NumeralsExactly(s: seq<byte>)
    ensures Numerals(s) <==> DigitRun(s) == |s|
  {
    DigitsRun(s);
    assert s[..|s|] == s && s + [] == s;
    if Numerals(s) { NumeralsRun(s, []); }
  }

  lemma ExponentScanned(u: seq<byte>)
    requires u != []
    ensures IsExponent(u) <==> ExponentPart(u)
  {
    NumeralsExactly(u[1..]);
    if |u| > 1 { NumeralsExactly(u[2..]); }
    assert |u| > 1 ==> u[1..][0] == u[1];
  }

  /** What may follow the digits of a number, found by scanning. */
  predicate ScannedTail(t: seq<byte>) {
    t == [] || IsExponent(t) ||
    (t[0] == POINT && var f := DigitRun(t[1..]); f > 0 && (t[1 + f..] == [] || IsExponent(t[1 + f..])))
  }

  function Unsigned(lexeme: seq<byte>): seq<byte> {
    if lexeme != [] && lexeme[0] == MINUS then lexeme[1..] else lexeme
  }

  /** A number of the standard, found by scanning. */
  predicate ScannedNumber(lexeme: seq<byte>) {
    var s := Unsigned(lexeme);
    DigitRun(s) > 0 && (s[0] == ZERO ==> DigitRun(s) == 1) && ScannedTail(s[DigitRun(s)..])
  }

  lemma NumberScanned(lexeme: seq<byte>)
    ensures StandardNumber(lexeme) <==> ScannedNumber(lexeme)
  {
    if ScannedNumber(lexeme) { ScannedSpelt(lexeme); }
    hide ScannedNumber;
    if sign, whole, fraction, exponent :| SpeltNumber(lexeme, sign, whole, fraction, exponent) {
      SpeltScanned(lexeme, sign, whole, fraction, exponent);
    }
  }

  lemma TailSpelt(fraction: seq<byte>, exponent: seq<byte>)
    requires FractionPart(fraction) && ExponentPart(exponent)
    ensures ScannedTail(fraction + exponent)
    ensures fraction + exponent != [] ==> !Numeral((fraction + exponent)[0])
  {
    if exponent != [] { ExponentScanned(exponent); }
    if fraction == [] {
      assert fraction + exponent == exponent;
    } else {
      var digits := fraction[1..];
      NumeralsRun(digits, exponent);
      AppendTail(fraction, exponent);
      hide DigitRun, IsExponent;
      assert (fraction + exponent)[1 + |digits|..] == exponent;
    }
  }

  lemma SpeltScanned(
    lexeme: seq<byte>, sign: seq<byte>, whole: seq<byte>, fraction: seq<byte>, exponent: seq<byte>)
    requires SpeltNumber(lexeme, sign, whole, fraction, exponent)
    ensures ScannedNumber(lexeme)
  {
    var t := fraction + exponent;
    TailSpelt(fraction, exponent);
    NumeralsRun(whole, t);
    hide DigitRun, FractionPart, ExponentPart, ScannedTail;
    assert sign != [] ==> ([MINUS] + (whole + t))[1..] == whole + t;
    assert (whole + t)[0] == whole[0];
    assert Unsigned(lexeme) == whole + t;
    assert (whole + t)[|whole|..] == t;
  }

  lemma TailParts(t: seq<byte>) returns (f: nat)
    requires ScannedTail(t)
    ensures f <= |t| && FractionPart(t[..f]) && ExponentPart(t[f..])
  {
    f := if t != [] && t[0] == POINT then 1 + DigitRun(t[1..]) else 0;
    if f > 0 {
      DigitsRun(t[1..]);
      assert t[..f][1..] == t[1..][..f - 1];
    }
    assert t[0..] == t;
    if t[f..] != [] { ExponentScanned(t[f..]); }
  }

  lemma SignOf(lexeme: seq<byte>) returns (sign: seq<byte>)
    ensures SignPart(sign) && lexeme == sign + Unsigned(lexeme)
  {
    sign := if lexeme != [] && lexeme[0] == MINUS then [MINUS] else [];
  }

  lemma WholeDigits(s: seq<byte>)
    requires DigitRun(s) > 0 && (s[0] == ZERO ==> DigitRun(s) == 1)
    ensures WholePart(s[..DigitRun(s)])
  {
    DigitsRun(s);
  }

  lemma ScannedSpelt(lexeme: seq<byte>)
    requires ScannedNumber(lexeme)
    ensures StandardNumber(lexeme)
  {
    hide DigitRun, IsExponent, ScannedTail, Unsigned, StandardNumber, WholePart, FractionPart, ExponentPart, SignPart;
    var s := Unsigned(lexeme);
    var n := DigitRun(s);
    var sign := SignOf(lexeme);
    WholeDigits(s);
    var f := TailParts(s[n..]);
    hide *;
    var t := s[n..];
    assert s == s[..n] + t && t == t[..f] + t[f..];
    SpeltBy(lexeme, sign, s[..n], t[..f], t[f..]);
  }

  lemma SpeltBy(
    lexeme: seq<byte>, sign: seq<byte>, whole: seq<byte>, fraction: seq<byte>, exponent: seq<byte>)
    requires lexeme == sign + (whole + (fraction + exponent))
    requires SignPart(sign) && WholePart(whole) && FractionPart(fraction) && ExponentPart(exponent)
    ensures StandardNumber(lexeme)
  {
    hide SignPart, WholePart, FractionPart, ExponentPart;
    assert SpeltNumber(lexeme, sign, whole, fraction, exponent);
  }

  // ---- what the reader knows of the standard ----

  predicate NoUnknown(ps: seq<Piece>) {
    forall i :: 0 <= i < |ps| ==> !(ps[i].Escaped? && UnknownEscape(ps[i].letter))
  }

  /** No string of the text uses `\b` or `\f`. */
  predicate KnownDoc(d: Doc) {
    match d
    case StrDoc(ps) => NoUnknown(ps)
    case ArrDoc(items) => KnownItems(items)
    case ObjDoc(members) => KnownMembers(members)
    case _ => true
  }

  predicate KnownItems(items: Items) { KnownDoc(items.value) && (items.NextItem? ==> KnownItems(items.rest)) }

  predicate KnownMembers(ms: Members) {
    NoUnknown(ms.key) && KnownDoc(ms.value) && (ms.NextMember? ==> KnownMembers(ms.rest))
  }

  lemma MeaningRaw(ps: seq<Piece>)
    requires ps != [] && ps[0].Raw? && Meaning(ps).Some?
    ensures RawRun(ps) != [] && Utf8.DecodeChar(RawRun(ps)).Some?
    ensures var (c, n) := Utf8.DecodeChar(RawRun(ps)).value;
            n <= |ps| && Meaning(ps[n..]).Some? && c != '\"' && c != '\\'
  {
  }

  lemma RawByte(c: byte)
    ensures GoodPiece(Raw(c)) <==> c != QUOTE && c != BACKSLASH
  {
  }

  /** The raw pieces of one character are pieces the reader knows. */
  lemma RawGood(ps: seq<Piece>)
    requires ps != [] && ps[0].Raw? && Meaning(ps).Some?
    ensures RawRun(ps) != [] && Utf8.DecodeChar(RawRun(ps)).Some?
    ensures var (_, n) := Utf8.DecodeChar(RawRun(ps)).value;
            n <= |ps| && (n == 1 <==> ps[0].c < 0x80) && forall i :: 0 <= i < n ==> GoodPiece(ps[i])
  {
    var b := RawRun(ps);
    MeaningRaw(ps);
    var (c, n) := Utf8.DecodeChar(b).value;
    Utf8.DecodedBytes(b);
    hide Utf8.DecodeChar, RawRun, Meaning, GoodPiece;
    forall i | 0 <= i < n ensures GoodPiece(ps[i]) {
      assert ps[i] == Raw(b[i]);
      RawByte(b[i]);
    }
  }

  /** A piece the standard allows: the reader knows it, or it is one of the two unknown escapes. */
  predicate Expected(p: Piece) { GoodPiece(p) || (p.Escaped? && UnknownEscape(p.letter)) }

  predicate AllExpected(ps: seq<Piece>) { forall i :: 0 <= i < |ps| ==> Expected(ps[i]) }

  lemma {:induction false} PiecesExpected(ps: seq<Piece>)
    requires Meaning(ps).Some?
    ensures AllExpected(ps)
    decreases |ps|
  {
    if ps == [] {
    } else {
      hide Meaning, Expected, HighHalf, LowHalf;
      var n := Taken(ps);
      PiecesExpected(ps[n..]);
      assert forall i :: n <= i < |ps| ==> ps[i] == ps[n..][i - n];
    }
  }

  lemma ExpectedKnown(p: Piece)
    requires Expected(p)
    ensures GoodPiece(p) <==> !(p.Escaped? && UnknownEscape(p.letter))
  {
  }

  /** In a string of the standard only those two escapes are unknown to the reader. */
  lemma PiecesKnown(ps: seq<Piece>)
    requires Meaning(ps).Some?
    ensures AllExpected(ps)
    ensures GoodPieces(ps) <==> NoUnknown(ps)
  {
    PiecesExpected(ps);
    hide GoodPiece, UnknownEscape, Expected, Meaning;
    forall i | 0 <= i < |ps| ensures GoodPiece(ps[i]) <==> !(ps[i].Escaped? && UnknownEscape(ps[i].letter)) {
      ExpectedKnown(ps[i]);
    }
  }

  /** How many pieces the first character takes up. */
  lemma Taken(ps: seq<Piece>) returns (n: nat)
    requires ps != [] && Meaning(ps).Some?
    ensures 1 <= n <= |ps| && Meaning(ps[n..]).Some? && |Meaning(ps).value| == 1 + |Meaning(ps[n..]).value|
    ensures Meaning(ps).value[1..] == Meaning(ps[n..]).value
    ensures forall i :: 0 <= i < n ==> Expected(ps[i])
    ensures n == 1 && GoodPiece(ps[0]) ==> Meaning(ps).value[0] == PieceChar(ps[0])
    ensures n == 1 <==> !(ps[0].Raw? && ps[0].c >= 0x80) && !(|ps| >= 2 && HighHalf(ps[0]) && LowHalf(ps[1]))
  {
    PieceKnown(ps[0]);
    if |ps| > 1 { PieceKnown(ps[1]); }
    if ps[0].Raw? {
      RawGood(ps);
      n := Utf8.DecodeChar(RawRun(ps)).value.1;
    } else {
      n := if |ps| >= 2 && HighHalf(ps[0]) && LowHalf(ps[1]) then 2 else 1;
    }
  }

  predicate NumberBytes(s: seq<byte>) { forall i :: 0 <= i < |s| ==> IsNumberByte(s[i]) }

  lemma {:induction false} AllNumberBytes(s: seq<byte>)
    requires NumberBytes(s)
    ensures NumberRun(s) == |s|
  {
    if s == [] {
    } else {
      AllNumberBytes(s[1..]);
    }
  }

  lemma ExponentBytes(u: seq<byte>)
    requires u != [] && IsExponent(u)
    ensures NumberBytes(u)
  {
    var k := if |u| > 1 && (u[1] == 0x2B || u[1] == MINUS) then 2 else 1;
    DigitsRun(u[k..]);
    forall i | 0 <= i < |u| ensures IsNumberByte(u[i]) {
      if i >= k { assert u[i] == u[k..][i - k]; }
    }
  }

  lemma TailBytes(t: seq<byte>)
    requires ScannedTail(t)
    ensures NumberBytes(t)
  {
    if t == [] {
    } else if IsExponent(t) {
      ExponentBytes(t);
    } else {
      var f := DigitRun(t[1..]);
      DigitsRun(t[1..]);
      if t[1 + f..] != [] { ExponentBytes(t[1 + f..]); }
      forall i | 0 <= i < |t| ensures IsNumberByte(t[i]) {
        if 0 < i <= f { assert t[i] == t[1..][i - 1]; }
        if i > f { assert t[i] == t[1 + f..][i - 1 - f]; }
      }
    }
  }

  /** Every number of the standard is a number to the reader. */
  lemma NumbersRead(lexeme: seq<byte>)
    requires StandardNumber(lexeme)
    ensures GoodNumber(lexeme)
  {
    NumberScanned(lexeme);
    ScannedFloat(lexeme);
    ScannedBytes(lexeme);
    hide *;
    AllNumberBytes(lexeme);
    Accepted(lexeme);
  }

  lemma Accepted(lexeme: seq<byte>)
    requires lexeme != [] && StartsNumber(lexeme[0]) && NumberRun(lexeme) == |lexeme| && IsFloat(lexeme)
    ensures GoodNumber(lexeme)
  {
  }

  lemma ScannedBytes(lexeme: seq<byte>)
    requires ScannedNumber(lexeme)
    ensures NumberBytes(lexeme)
  {
    hide ScannedTail, IsExponent, Unsigned;
    var s := Unsigned(lexeme);
    var n := DigitRun(s);
    var sign := SignOf(lexeme);
    DigitsRun(s);
    TailBytes(s[n..]);
    hide DigitRun;
    assert NumberBytes(s[..n]) && NumberBytes(sign);
    hide NumberBytes;
    NumberBytesJoin(s[..n], s[n..]);
    assert s == s[..n] + s[n..];
    NumberBytesJoin(sign, s);
  }

  lemma NumberBytesJoin(a: seq<byte>, b: seq<byte>)
    requires NumberBytes(a) && NumberBytes(b)
    ensures NumberBytes(a + b)
  {
  }

  lemma ScannedFloat(lexeme: seq<byte>)
    requires ScannedNumber(lexeme)
    ensures IsFloat(lexeme) && StartsNumber(lexeme[0])
  {
    var t := Unsigned(lexeme)[DigitRun(Unsigned(lexeme))..];
    DigitsRun(Unsigned(lexeme));
    hide DigitRun;
    assert t != [] && IsExponent(t) ==> t[0] != POINT;
  }

  lemma {:induction false} DocKnown(d: Doc)
    requires StandardDoc(d)
    ensures GoodDoc(d) <==> KnownDoc(d)
    decreases d
  {
    match d {
      case NumDoc(lexeme) => NumbersRead(lexeme);
      case StrDoc(ps) => PiecesKnown(ps);
      case ArrDoc(items) => ItemsKnown(items);
      case ObjDoc(members) => MembersKnown(members);
      case _ =>
    }
  }

  lemma {:induction false} ItemsKnown(items: Items)
    requires StandardItems(items)
    ensures GoodItems(items) <==> KnownItems(items)
    decreases items
  {
    DocKnown(items.value);
    if items.NextItem? { ItemsKnown(items.rest); }
  }

  lemma {:induction false} MembersKnown(ms: Members)
    requires StandardMembers(ms)
    ensures GoodMembers(ms) <==> KnownMembers(ms)
    decreases ms
  {
    PiecesKnown(ms.key);
    DocKnown(ms.value);
    if ms.NextMember? { MembersKnown(ms.rest); }
  }

  // ---- an unknown escape anywhere refuses the text ----

  lemma {:induction false} CharsRefused(ps: seq<Piece>, acc: string, rest: seq<byte>)
    requires AllExpected(ps) && !GoodPieces(ps)
    ensures ParseChars(PrintPieces(ps) + ([QUOTE] + rest), acc).None?
    decreases |ps|
  {
    var more := PrintPieces(ps[1..]) + ([QUOTE] + rest);
    AppendAssociative(PrintPiece(ps[0]), PrintPieces(ps[1..]), [QUOTE] + rest);
    if GoodPiece(ps[0]) {
      PieceRead(ps[0], acc, more);
      assert forall i :: 0 < i < |ps| ==> ps[i] == ps[1..][i - 1];
      CharsRefused(ps[1..], acc + [PieceChar(ps[0])], rest);
    } else {
      EscapeRefused(ps[0], acc, more);
    }
  }

  lemma EscapeRefused(p: Piece, acc: string, more: seq<byte>)
    requires p.Escaped? && UnknownEscape(p.letter)
    ensures ParseChars(PrintPiece(p) + more, acc).None?
  {
    var s := PrintPiece(p) + more;
    assert s[0] == BACKSLASH && s[1..][0] == p.letter;
  }

  lemma StringRefused(ps: seq<Piece>, rest: seq<byte>)
    requires Meaning(ps).Some? && !GoodPieces(ps)
    ensures ParseString(PrintString(ps) + rest).None?
  {
    PiecesKnown(ps);
    CharsRefused(ps, "", rest);
    var inside := PrintPieces(ps) + ([QUOTE] + rest);
    assert PrintString(ps) + rest == [QUOTE] + inside;
    assert ([QUOTE] + inside)[1..] == inside;
  }

  lemma {:induction false} ValueRefused(d: Doc, lead: seq<byte>, rest: seq<byte>)
    requires StandardDoc(d) && !GoodDoc(d) && AllSpace(lead)
    ensures ParseValue(lead + (Print(d) + rest)).None?
    decreases d, 1
  {
    var s := Print(d) + rest;
    SkipSpaces(lead, s);
    SkipTwice(lead + s);
    SkipTwice(s);
    if d.NumDoc? { NumbersRead(d.lexeme); }
    FirstByte(d);
    assert SkipWs(s) == s;
    match d {
      case StrDoc(ps) => StringRefused(ps, rest);
      case ArrDoc(items) =>
        ItemsRefused(items, [], rest);
        ArrayRefused(items, rest);
      case ObjDoc(members) =>
        MembersRefused(members, map[], rest);
        ObjectRefused(members, rest);
      case _ => assert false;
    }
  }

  lemma ArrayRefused(items: Items, rest: seq<byte>)
    requires StandardItems(items) && ParseItems(PrintItems(items) + rest, []).None?
    ensures ParseValue([LBRACKET] + PrintItems(items) + rest).None?
  {
    var inside := PrintItems(items) + rest;
    var t := [LBRACKET] + PrintItems(items) + rest;
    if items.value.NumDoc? { NumbersRead(items.value.lexeme); }
    ItemsStart(items, rest);
    hide ParseValue, ParseItems, PrintItems;
    assert t[1..] == inside;
    ArrayUnfold(t);
    ListSkipsSpace(inside);
  }

  lemma ObjectRefused(ms: Members, rest: seq<byte>)
    requires StandardMembers(ms) && ParseMembers(PrintMembers(ms) + rest, map[]).None?
    ensures ParseValue([LBRACE] + PrintMembers(ms) + rest).None?
  {
    var inside := PrintMembers(ms) + rest;
    var t := [LBRACE] + PrintMembers(ms) + rest;
    MembersStart(ms, rest);
    hide ParseValue, ParseMembers, PrintMembers;
    assert t[1..] == inside;
    ObjectUnfold(t);
    ListSkipsSpace(inside);
  }

  lemma {:induction false} ItemsRefused(items: Items, acc: seq<Json>, rest: seq<byte>)
    requires StandardItems(items) && !GoodItems(items)
    ensures ParseItems(PrintItems(items) + rest, acc).None?
    decreases items, 0
  {
    var after := AfterItem(items, rest);
    ItemLayout(items, rest);
    assert !IsSpace(after[0]) && !IsNumberByte(after[0]);
    if GoodDoc(items.value) {
      NotNumberAfter(items.trail, after);
      ValueRead(items.value, items.lead, items.trail + after);
      SkipSpaces(items.trail, after);
      assert SkipWs(after) == after;
      assert after[1..] == PrintItems(items.rest) + rest;
      ItemsRefused(items.rest, acc + [Denote(items.value)], rest);
    } else {
      ValueRefused(items.value, items.lead, items.trail + after);
    }
  }

  lemma {:induction false} MembersRefused(ms: Members, acc: map<string, Json>, rest: seq<byte>)
    requires StandardMembers(ms) && !GoodMembers(ms)
    ensures ParseMembers(PrintMembers(ms) + rest, acc).None?
    decreases ms, 0
  {
    hide Print, PrintMembers, PrintPieces, ParseValue, ParseString, GoodDoc, StandardDoc, Denote, Chars, Meaning;
    var after := AfterMember(ms, rest);
    var tail := Print(ms.value) + (ms.trail + after);
    var colon := [COLON] + (ms.inner + tail);
    var keyed := PrintString(ms.key) + (ms.gap + colon);
    MemberLayout(ms, rest);
    SkipSpaces(ms.lead, keyed);
    assert keyed[0] == QUOTE && SkipWs(keyed) == keyed;
    if !GoodPieces(ms.key) {
      StringRefused(ms.key, ms.gap + colon);
    } else {
      StringRead(ms.key, ms.gap + colon);
      SkipSpaces(ms.gap, colon);
      assert SkipWs(colon) == colon && colon[1..] == ms.inner + tail;
      assert !IsSpace(after[0]) && !IsNumberByte(after[0]);
      if GoodDoc(ms.value) {
        NotNumberAfter(ms.trail, after);
        ValueRead(ms.value, ms.inner, ms.trail + after);
        SkipSpaces(ms.trail, after);
        assert SkipWs(after) == after;
        assert after[1..] == PrintMembers(ms.rest) + rest;
        MembersRefused(ms.rest, acc[Chars(ms.key) := Denote(ms.value)], rest);
      } else {
        ValueRefused(ms.value, ms.inner, ms.trail + after);
      }
    }
  }

  lemma TextRefused(t: Text)
    requires StandardText(t) && !GoodDoc(t.doc)
    ensures Parsed(PrintText(t)).Err?
  {
    var s := Print(t.doc) + t.after;
    hide ParseValue, Print, GoodDoc, StandardDoc;
    assert PrintText(t) == t.before + s;
    ValueRefused(t.doc, [], t.after);
    assert [] + s == s;
    SkipSpaces(t.before, s);
    SkipTwice(s);
    SkipTwice(t.before + s);
  }

  // ---- with which tree ----

  /** Nothing in the string that the reader takes apart: no byte beyond ASCII, no surrogate pair. */
  predicate Clean(ps: seq<Piece>) {
    && (forall i :: 0 <= i < |ps| ==> (ps[i].Raw? ==> ps[i].c < 0x80))
    && (forall i :: 0 <= i < |ps| - 1 ==> !(HighHalf(ps[i]) && LowHalf(ps[i + 1])))
  }

  lemma {:induction false} CharsLength(ps: seq<Piece>)
    requires GoodPieces(ps)
    ensures |Chars(ps)| == |ps|
  {
    if ps == [] {
    } else {
      CharsLength(ps[1..]);
    }
  }

  /** The reader yields one character a piece; the standard yields fewer as soon as the string is not clean. */
  lemma {:induction false} MeaningLength(ps: seq<Piece>)
    requires Meaning(ps).Some? && GoodPieces(ps)
    ensures |Meaning(ps).value| <= |ps|
    ensures if Clean(ps) then Meaning(ps).value == Chars(ps) else |Meaning(ps).value| < |ps|
    decreases |ps|
  {
    if ps == [] {
    } else {
      hide Meaning, GoodPiece, PieceChar;
      var n := Taken(ps);
      var rest := ps[n..];
      assert forall i :: 0 <= i < |rest| ==> rest[i] == ps[n + i];
      MeaningLength(rest);
      CleanStep(ps, n);
    }
  }

  lemma CleanStep(ps: seq<Piece>, n: nat)
    requires 1 <= n <= |ps|
    requires n == 1 <==> !(ps[0].Raw? && ps[0].c >= 0x80) && !(|ps| >= 2 && HighHalf(ps[0]) && LowHalf(ps[1]))
    ensures n == 1 ==> (Clean(ps) <==> Clean(ps[1..]))
    ensures n > 1 ==> !Clean(ps)
  {
    hide HighHalf, LowHalf;
    if n == 1 && Clean(ps[1..]) {
      forall i | 0 <= i < |ps| ensures ps[i].Raw? ==> ps[i].c < 0x80 {
        if i > 0 { assert ps[i] == ps[1..][i - 1]; }
      }
      forall i | 0 <= i < |ps| - 1 ensures !(HighHalf(ps[i]) && LowHalf(ps[i + 1])) {
        if i > 0 { assert ps[i] == ps[1..][i - 1] && ps[i + 1] == ps[1..][i]; }
      }
    }
  }

  /** A string as a whole text. */
  lemma StringAsText(ps: seq<Piece>)
    ensures var t := Text([], StrDoc(ps), []);
            && PrintText(t) == PrintString(ps)
            && (Meaning(ps).Some? ==> StandardText(t))
            && (GoodPieces(ps) ==> GoodText(t) && Denote(t.doc) == Str(Chars(ps)))
            && (GoodDoc(t.doc) <==> GoodPieces(ps))
  {
    hide Meaning, GoodPieces, Chars, PrintPieces;
  }

  /** A string of the standard is read as the text it stands for exactly when its escapes are known and it is clean. */
  lemma StandardStringExactly(ps: seq<Piece>)
    requires Meaning(ps).Some?
    ensures Parsed(PrintString(ps)) == Ok(Str(Meaning(ps).value)) <==> NoUnknown(ps) && Clean(ps)
  {
    StringAsText(ps);
    PiecesKnown(ps);
    hide *;
    var t := Text([], StrDoc(ps), []);
    if GoodPieces(ps) {
      TextRead(t);
      MeaningLength(ps);
      CharsLength(ps);
    } else {
      TextRefused(t);
    }
  }

  predicate CleanDoc(d: Doc) {
    match d
    case StrDoc(ps) => Clean(ps)
    case ArrDoc(items) => CleanItems(items)
    case ObjDoc(members) => CleanMembers(members)
    case _ => true
  }

  predicate CleanItems(items: Items) { CleanDoc(items.value) && (items.NextItem? ==> CleanItems(items.rest)) }

  predicate CleanMembers(ms: Members) {
    Clean(ms.key) && CleanDoc(ms.value) && (ms.NextMember? ==> CleanMembers(ms.rest))
  }

  /** The tree the standard gives a text; of members with the same name the last counts. */
  function TreeOf(d: Doc): Json
    requires StandardDoc(d)
  {
    match d
    case NullDoc => Null
    case BoolDoc(v) => Bool(v)
    case NumDoc(lexeme) => Num(lexeme)
    case StrDoc(ps) => Str(Meaning(ps).value)
    case EmptyArr(_) => Arr([])
    case ArrDoc(items) => Arr(TreesOf(items))
    case EmptyObj(_) => Obj(map[])
    case ObjDoc(members) => Obj(MembersTree(members, map[]))
  }

  function TreesOf(items: Items): seq<Json>
    requires StandardItems(items)
  {
    [TreeOf(items.value)] + if items.LastItem? then [] else TreesOf(items.rest)
  }

  function MembersTree(ms: Members, acc: map<string, Json>): map<string, Json>
    requires StandardMembers(ms)
  {
    var next := acc[Meaning(ms.key).value := TreeOf(ms.value)];
    if ms.LastMember? then next else MembersTree(ms.rest, next)
  }

  lemma {:induction false} CleanTree(d: Doc)
    requires StandardDoc(d) && GoodDoc(d) && CleanDoc(d)
    ensures Denote(d) == TreeOf(d)
    decreases d
  {
    match d {
      case StrDoc(ps) => MeaningLength(ps);
      case ArrDoc(items) => CleanTrees(items);
      case ObjDoc(members) => CleanMembersTree(members, map[]);
      case _ =>
    }
  }

  lemma {:induction false} CleanTrees(items: Items)
    requires StandardItems(items) && GoodItems(items) && CleanItems(items)
    ensures DenoteItems(items) == TreesOf(items)
    decreases items
  {
    CleanTree(items.value);
    if items.NextItem? { CleanTrees(items.rest); }
  }

  lemma {:induction false} CleanMembersTree(ms: Members, acc: map<string, Json>)
    requires StandardMembers(ms) && GoodMembers(ms) && CleanMembers(ms)
    ensures DenoteMembers(ms, acc) == MembersTree(ms, acc)
    decreases ms
  {
    MeaningLength(ms.key);
    CleanTree(ms.value);
    if ms.NextMember? { CleanMembersTree(ms.rest, acc[Chars(ms.key) := Denote(ms.value)]); }
  }

  /** Of the texts of the standard the reader accepts exactly those without `\b` and `\f`. */
  lemma StandardTextRead(t: Text)
    requires StandardText(t)
    ensures Parsed(PrintText(t)).Ok? <==> KnownDoc(t.doc)
    ensures KnownDoc(t.doc) ==> GoodDoc(t.doc) && Parsed(PrintText(t)) == Ok(Denote(t.doc))
    ensures KnownDoc(t.doc) && CleanDoc(t.doc) ==> Parsed(PrintText(t)) == Ok(TreeOf(t.doc))
  {
    DocKnown(t.doc);
    hide Parsed, PrintText, KnownDoc, GoodDoc, StandardDoc, TreeOf, Denote, CleanDoc;
    if GoodDoc(t.doc) {
      TextRead(t);
      if CleanDoc(t.doc) { CleanTree(t.doc); }
    } else {
      TextRefused(t);
    }
  }

  /** The reader accepts more than the standard: leading zeros, a bare point, raw control characters. */
  lemma AcceptedBeyond()
    ensures GoodNumber([ZERO, ZERO]) && !StandardNumber([ZERO, ZERO])
    ensures GoodNumber([ZERO, POINT]) && !StandardNumber([ZERO, POINT])
    ensures GoodPieces([Raw(LF)]) && Meaning([Raw(LF)]).None?
  {
    AllNumberBytes([ZERO, ZERO]);
    AllNumberBytes([ZERO, POINT]);
    assert [ZERO, ZERO][1..] == [ZERO] && [ZERO][1..] == [] && [ZERO, POINT][1..] == [POINT];
    assert DigitRun([ZERO, ZERO]) == 2 && DigitRun([ZERO, POINT]) == 1;
    assert [ZERO, ZERO][2..] == [] && [POINT][1..] == [];
    assert RawRun([Raw(LF)]) == [LF];
  }
}
