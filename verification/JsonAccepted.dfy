/** Which of the accepted texts are texts of RFC 8259. */
module JsonAccepted {
  import opened Basics
  import opened Json
  import opened JsonGrammar
  import opened JsonStandard
  import Utf8

  // ---- numbers ----

  predicate LooseFraction(s: seq<byte>) { s == [] || (s[0] as char == '.' && Numerals(s[1..])) }

  /** A number as the reader takes it: digits before or after a point, or on both sides of it. */
  predicate LooseNumber(
    lexeme: seq<byte>, sign: seq<byte>, whole: seq<byte>, fraction: seq<byte>, exponent: seq<byte>)
  {
    && lexeme == sign + (whole + (fraction + exponent))
    && SignPart(sign) && Numerals(whole) && LooseFraction(fraction) && ExponentPart(exponent)
    && (whole != [] || (sign != [] && |fraction| > 1))
  }

  /** What the scanner finds behind the leading digits of a number. */
  lemma LooseTail(fraction: seq<byte>, exponent: seq<byte>)
    requires LooseFraction(fraction) && ExponentPart(exponent)
    ensures var t := fraction + exponent;
            && (t != [] ==> !Numeral(t[0]))
            && (t != [] && t[0] == POINT <==> fraction != [])
            && (fraction != [] ==> DigitRun(t[1..]) == |fraction| - 1 && t[|fraction|..] == exponent)
            && (exponent == [] || IsExponent(exponent))
  {
    if exponent != [] { ExponentScanned(exponent); }
    if fraction == [] {
      assert fraction + exponent == exponent;
    } else {
      NumeralsRun(fraction[1..], exponent);
      AppendTail(fraction, exponent);
    }
  }

  lemma LooseUnsigned(lexeme: seq<byte>, sign: seq<byte>, whole: seq<byte>, t: seq<byte>)
    requires lexeme == sign + (whole + t) && SignPart(sign) && Numerals(whole) && (whole != [] || sign != [])
    ensures lexeme != [] && StartsNumber(lexeme[0]) && Unsigned(lexeme) == whole + t
  {
    var s := whole + t;
    if sign == [] {
      assert lexeme == s && s[0] == whole[0] && Numeral(whole[0]);
    } else {
      assert lexeme == [MINUS] + s && lexeme[1..] == s;
    }
  }

  lemma LooseFloat(
    lexeme: seq<byte>, sign: seq<byte>, whole: seq<byte>, fraction: seq<byte>, exponent: seq<byte>)
    requires LooseNumber(lexeme, sign, whole, fraction, exponent)
    ensures lexeme != [] && IsFloat(lexeme) && StartsNumber(lexeme[0])
  {
    var t := fraction + exponent;
    LooseTail(fraction, exponent);
    LooseUnsigned(lexeme, sign, whole, t);
    NumeralsRun(whole, t);
    hide DigitRun, IsExponent, LooseFraction, ExponentPart, Numerals, SignPart, StartsNumber;
    assert (whole + t)[|whole|..] == t;
    assert fraction == [] ==> t == exponent;
  }

  lemma LooseBytes(
    lexeme: seq<byte>, sign: seq<byte>, whole: seq<byte>, fraction: seq<byte>, exponent: seq<byte>)
    requires LooseNumber(lexeme, sign, whole, fraction, exponent)
    ensures NumberBytes(lexeme)
  {
    if exponent != [] {
      ExponentScanned(exponent);
      ExponentBytes(exponent);
    }
    assert fraction != [] ==> forall i :: 0 < i < |fraction| ==> fraction[i] == fraction[1..][i - 1];
    NumberBytesJoin(fraction, exponent);
    NumberBytesJoin(whole, fraction + exponent);
    NumberBytesJoin(sign, whole + (fraction + exponent));
  }

  /** The parts of what follows the digits. */
  lemma TailLoose(t: seq<byte>) returns (f: nat)
    requires var fraction := if t != [] && t[0] == POINT then DigitRun(t[1..]) else 0;
             var u := if t != [] && t[0] == POINT then t[1 + fraction..] else t;
             u == [] || IsExponent(u)
    ensures f == (if t != [] && t[0] == POINT then 1 + DigitRun(t[1..]) else 0)
    ensures f <= |t| && LooseFraction(t[..f]) && ExponentPart(t[f..])
  {
    f := if t != [] && t[0] == POINT then 1 + DigitRun(t[1..]) else 0;
    if f > 0 {
      DigitsRun(t[1..]);
      assert t[..f][1..] == t[1..][..f - 1];
    }
    assert t[0..] == t;
    if t[f..] != [] { ExponentScanned(t[f..]); }
  }

  /** The parts of an accepted number. */
  lemma GoodLoose(lexeme: seq<byte>)
    requires GoodNumber(lexeme)
    ensures exists sign, whole, fraction, exponent :: LooseNumber(lexeme, sign, whole, fraction, exponent)
  {
    hide NumberRun, IsExponent;
    var s := Unsigned(lexeme);
    var n := DigitRun(s);
    var f := TailLoose(s[n..]);
    var sign := SignOf(lexeme);
    DigitsRun(s);
    assert sign == [] ==> s == lexeme;
    assert s != [] && n == 0 ==> !IsDigit(s[0]);
    hide DigitRun, LooseFraction, ExponentPart, Numerals, IsFloat;
    LooseParts(lexeme, sign, s, n, s[n..], f);
  }

  lemma LooseParts(lexeme: seq<byte>, sign: seq<byte>, s: seq<byte>, n: nat, t: seq<byte>, f: nat)
    requires n <= |s| && t == s[n..] && f <= |t| && lexeme == sign + s
    requires SignPart(sign) && Numerals(s[..n]) && LooseFraction(t[..f]) && ExponentPart(t[f..])
    requires n > 0 || (sign != [] && f > 1)
    ensures exists sign, whole, fraction, exponent :: LooseNumber(lexeme, sign, whole, fraction, exponent)
  {
    hide SignPart, Numerals, LooseFraction, ExponentPart;
    assert s == s[..n] + (t[..f] + t[f..]);
    assert LooseNumber(lexeme, sign, s[..n], t[..f], t[f..]);
  }

  /** Which numbers are accepted, part by part. */
  lemma AcceptedNumbers(lexeme: seq<byte>)
    ensures GoodNumber(lexeme) <==>
            exists sign, whole, fraction, exponent :: LooseNumber(lexeme, sign, whole, fraction, exponent)
  {
    if GoodNumber(lexeme) { GoodLoose(lexeme); }
    hide GoodNumber;
    if sign, whole, fraction, exponent :| LooseNumber(lexeme, sign, whole, fraction, exponent) {
      LooseFloat(lexeme, sign, whole, fraction, exponent);
      LooseBytes(lexeme, sign, whole, fraction, exponent);
      hide LooseNumber;
      AllNumberBytes(lexeme);
      Accepted(lexeme);
    }
  }

  /** A digit before the point, no leading zero before another digit, and a digit after any point. */
  predicate LawfulNumber(lexeme: seq<byte>) {
    var s := Unsigned(lexeme);
    && s != [] && Numeral(s[0])
    && (s[0] == ZERO ==> |s| == 1 || !Numeral(s[1]))
    && (forall i :: 0 <= i < |s| && s[i] == POINT ==> i + 1 < |s| && Numeral(s[i + 1]))
  }

  lemma DigitRunFirst(s: seq<byte>)
    ensures DigitRun(s) > 0 <==> s != [] && IsDigit(s[0])
    ensures DigitRun(s) == 1 <==> s != [] && IsDigit(s[0]) && (|s| == 1 || !IsDigit(s[1]))
  {
    if s != [] { assert s[1..] != [] ==> s[1..][0] == s[1]; }
  }

  /** After its digits a number's fraction holds no further point. */
  lemma NoSecondPoint(t: seq<byte>)
    requires t != [] && t[0] == POINT
    requires var u := t[1 + DigitRun(t[1..])..]; u == [] || IsExponent(u)
    ensures forall j :: 0 < j < |t| ==> t[j] != POINT
  {
    var fraction := DigitRun(t[1..]);
    var u := t[1 + fraction..];
    DigitsRun(t[1..]);
    if u != [] { NoPointInExponents(u); }
    assert !IsDigit(POINT);
    hide DigitRun, IsExponent, IsDigit;
    forall j | 0 < j < |t| ensures t[j] != POINT {
      if j <= fraction { assert IsDigit(t[1..][j - 1]); } else { assert u[j - 1 - fraction] == t[j]; }
    }
  }

  /** The only point of an accepted number is the byte after its leading digits. */
  lemma PointPlace(s: seq<byte>, i: nat)
    requires i < |s| && s[i] == POINT
    requires var whole := DigitRun(s);
             var t := s[whole..];
             var fraction := if t != [] && t[0] == POINT then DigitRun(t[1..]) else 0;
             var u := if t != [] && t[0] == POINT then t[1 + fraction..] else t;
             u == [] || IsExponent(u)
    ensures i == DigitRun(s)
  {
    var whole := DigitRun(s);
    var t := s[whole..];
    DigitsRun(s);
    assert !IsDigit(POINT);
    hide DigitRun, IsExponent, IsDigit;
    assert i >= whole;
    if t[0] == POINT { NoSecondPoint(t); } else { NoPointInExponents(t); }
    assert t[i - whole] == POINT;
  }

  lemma NoPointInExponents(u: seq<byte>)
    requires u != [] && IsExponent(u)
    ensures forall i :: 0 <= i < |u| ==> u[i] != POINT
  {
    var k := if |u| > 1 && (u[1] == 0x2B || u[1] == MINUS) then 2 else 1;
    DigitsRun(u[k..]);
    assert forall i :: k <= i < |u| ==> u[i] == u[k..][i - k];
  }

  /** Where an accepted number may hold a point, and what that takes. */
  lemma PointRule(s: seq<byte>)
    requires var whole := DigitRun(s);
             var t := s[whole..];
             var fraction := if t != [] && t[0] == POINT then DigitRun(t[1..]) else 0;
             var u := if t != [] && t[0] == POINT then t[1 + fraction..] else t;
             u == [] || IsExponent(u)
    ensures var t := s[DigitRun(s)..];
            (forall i :: 0 <= i < |s| && s[i] == POINT ==> i + 1 < |s| && IsDigit(s[i + 1])) <==>
            (t != [] && t[0] == POINT ==> DigitRun(t[1..]) > 0)
  {
    var whole := DigitRun(s);
    var t := s[whole..];
    forall i | 0 <= i < |s| && s[i] == POINT ensures i == whole { PointPlace(s, i); }
    if t != [] {
      DigitRunFirst(t[1..]);
      assert s[whole] == t[0];
      assert |t| > 1 ==> s[whole + 1] == t[1..][0];
    }
    hide DigitRun, IsExponent, IsDigit;
  }

  /** Among accepted numbers, the lawful ones are those of the standard. */
  lemma NumberExactly(lexeme: seq<byte>)
    requires GoodNumber(lexeme)
    ensures StandardNumber(lexeme) <==> LawfulNumber(lexeme)
  {
    NumberScanned(lexeme);
    hide StandardNumber, NumberRun;
    var s := Unsigned(lexeme);
    var t := s[DigitRun(s)..];
    DigitRunFirst(s);
    PointRule(s);
    assert t != [] && IsExponent(t) ==> t[0] != POINT;
    hide DigitRun, IsExponent, IsDigit;
  }

  // ---- strings ----

  predicate NoControl(ps: seq<Piece>) { forall i :: 0 <= i < |ps| && ps[i].Raw? ==> ps[i].c >= 0x20 }

  lemma HexAscii(hex: seq<byte>)
    requires |hex| == 4 && HexFour(hex).Some?
    ensures forall i :: 0 <= i < 4 ==> hex[i] < 0x80
  {
  }

  /** A known escape is ASCII, so what follows it is well-formed as the whole was. */
  lemma StripEscape(p: Piece, rest: seq<byte>)
    requires GoodPiece(p) && !p.Raw? && Utf8.WellFormed(PrintPiece(p) + rest)
    ensures Utf8.WellFormed(rest)
  {
    hide Utf8.WellFormed;
    if p.Escaped? {
      assert PrintPiece(p) + rest == [BACKSLASH] + ([p.letter] + rest);
      Utf8.WellFormedHead(BACKSLASH, [p.letter] + rest);
      Utf8.WellFormedHead(p.letter, rest);
    } else {
      var h := p.hex;
      HexAscii(h);
      assert PrintPiece(p) + rest ==
        [BACKSLASH] + ([LETTER_U] + ([h[0]] + ([h[1]] + ([h[2]] + ([h[3]] + rest)))));
      Utf8.WellFormedHead(BACKSLASH, [LETTER_U] + ([h[0]] + ([h[1]] + ([h[2]] + ([h[3]] + rest)))));
      Utf8.WellFormedHead(LETTER_U, [h[0]] + ([h[1]] + ([h[2]] + ([h[3]] + rest))));
      Utf8.WellFormedHead(h[0], [h[1]] + ([h[2]] + ([h[3]] + rest)));
      Utf8.WellFormedHead(h[1], [h[2]] + ([h[3]] + rest));
      Utf8.WellFormedHead(h[2], [h[3]] + rest);
      Utf8.WellFormedHead(h[3], rest);
    }
  }

  /** Raw pieces print as themselves, and what follows them starts with a backslash if at all. */
  lemma {:induction false} RunPrinted(ps: seq<Piece>, n: nat)
    requires GoodPieces(ps) && n <= |RawRun(ps)|
    ensures PrintPieces(ps) == RawRun(ps)[..n] + PrintPieces(ps[n..])
    ensures RawRun(ps[n..]) == RawRun(ps)[n..]
    decreases n
  {
    if n == 0 {
      assert RawRun(ps)[..0] + PrintPieces(ps) == PrintPieces(ps) && ps[0..] == ps;
    } else {
      RunPrinted(ps[1..], n - 1);
      assert ps[1..][n - 1..] == ps[n..];
      assert RawRun(ps)[..n] == [ps[0].c] + RawRun(ps[1..])[..n - 1];
      AppendAssociative([ps[0].c], RawRun(ps[1..])[..n - 1], PrintPieces(ps[n..]));
    }
  }

  lemma AfterRun(ps: seq<Piece>)
    requires GoodPieces(ps)
    ensures var b := RawRun(ps);
            PrintPieces(ps) == b + PrintPieces(ps[|b|..])
            && (ps[|b|..] != [] ==> PrintPieces(ps[|b|..])[0] == BACKSLASH)
  {
    var b := RawRun(ps);
    RunPrinted(ps, |b|);
    assert b[..|b|] == b;
    assert RawRun(ps[|b|..]) == [];
  }

  /** The first character of a string that starts with a raw byte is made of raw bytes. */
  lemma FirstRaw(ps: seq<Piece>) returns (n: nat)
    requires ps != [] && ps[0].Raw? && GoodPieces(ps) && Utf8.WellFormed(PrintPieces(ps))
    ensures Utf8.DecodeChar(RawRun(ps)).Some? && n == Utf8.DecodeChar(RawRun(ps)).value.1 && n <= |RawRun(ps)| <= |ps|
    ensures Utf8.WellFormed(PrintPieces(ps[n..]))
  {
    var b := RawRun(ps);
    AfterRun(ps);
    var all, tail := PrintPieces(ps), PrintPieces(ps[|b|..]);
    Utf8.WellFormedUnfold(all);
    Utf8.DecodedBytes(all);
    n := Utf8.DecodeChar(all).value.1;
    assert b != [];
    hide Utf8.DecodeChar, Utf8.WellFormed, RawRun, PrintPieces;
    assert tail != [] ==> all[|b|] == tail[0];
    Utf8.DecodeCharLocal(all, b);
    RunPrinted(ps, n);
    assert all[n..] == PrintPieces(ps[n..]);
  }

  /** The next character of an accepted string, and what is left after it. */
  lemma {:induction false} StringExactly(ps: seq<Piece>)
    requires GoodPieces(ps) && Utf8.WellFormed(PrintPieces(ps))
    ensures Meaning(ps).Some? <==> NoControl(ps)
    decreases |ps|
  {
    if ps == [] {
    } else if ps[0].Raw? {
      var n := FirstRaw(ps);
      StringExactly(ps[n..]);
      RawStep(ps, n);
    } else {
      StripEscape(ps[0], PrintPieces(ps[1..]));
      if |ps| >= 2 && HighHalf(ps[0]) && LowHalf(ps[1]) {
        StripEscape(ps[1], PrintPieces(ps[2..]));
        assert ps[1..][1..] == ps[2..];
        StringExactly(ps[2..]);
        EscapeStep(ps, 2);
      } else {
        StringExactly(ps[1..]);
        EscapeStep(ps, 1);
      }
    }
  }

  lemma NoControlSplit(ps: seq<Piece>, n: nat)
    requires n <= |ps|
    ensures NoControl(ps) <==> NoControl(ps[..n]) && NoControl(ps[n..])
  {
    assert forall i :: 0 <= i < |ps| - n ==> ps[n..][i] == ps[n + i];
    if NoControl(ps[..n]) && NoControl(ps[n..]) {
      forall i | 0 <= i < |ps| && ps[i].Raw? ensures ps[i].c >= 0x20 {
        if i < n { assert ps[..n][i] == ps[i]; } else { assert ps[n..][i - n] == ps[i]; }
      }
    }
  }

  lemma RawStep(ps: seq<Piece>, n: nat)
    requires ps != [] && ps[0].Raw? && GoodPieces(ps)
    requires Utf8.DecodeChar(RawRun(ps)).Some? && n == Utf8.DecodeChar(RawRun(ps)).value.1 && n <= |RawRun(ps)| <= |ps|
    requires Meaning(ps[n..]).Some? <==> NoControl(ps[n..])
    ensures Meaning(ps).Some? <==> NoControl(ps)
  {
    var b := RawRun(ps);
    var c := Utf8.DecodeChar(b).value.0;
    NoControlSplit(ps, n);
    Utf8.DecodedBytes(b);
    if n > 1 { Utf8.WideChars(b); }
    assert forall i :: 0 <= i < n ==> ps[..n][i] == Raw(b[i]);
    assert NoControl(ps[..n]) <==> c as int >= 0x20 by {
      if n == 1 {
        assert ps[..n][0].c == c as int;
      } else {
        assert forall i :: 0 <= i < n ==> ps[..n][i].c >= 0x80;
      }
    }
    assert GoodPiece(ps[0]);
    hide Utf8.DecodeChar, RawRun, NoControl;
  }

  /** A known escape is no obstacle to a string of the standard. */
  lemma MeaningEscape(ps: seq<Piece>, n: nat)
    requires ps != [] && GoodPiece(ps[0]) && !ps[0].Raw?
    requires n == if |ps| >= 2 && HighHalf(ps[0]) && LowHalf(ps[1]) then 2 else 1
    ensures Meaning(ps).Some? <==> Meaning(ps[n..]).Some?
  {
    PieceKnown(ps[0]);
    hide HexFour, CodeUnit, ScalarOrReplacement;
    assert ps[0].Escaped? ==> !HighHalf(ps[0]);
  }

  lemma EscapeStep(ps: seq<Piece>, n: nat)
    requires GoodPieces(ps) && 1 <= n <= |ps| && !ps[0].Raw?
    requires n == if |ps| >= 2 && HighHalf(ps[0]) && LowHalf(ps[1]) then 2 else 1
    requires Meaning(ps[n..]).Some? <==> NoControl(ps[n..])
    ensures Meaning(ps).Some? <==> NoControl(ps)
  {
    hide Meaning, HexFour, CodeUnit;
    NoControlSplit(ps, n);
    assert n == 2 ==> ps[1].Unicode?;
    assert NoControl(ps[..n]);
    assert GoodPiece(ps[0]);
    hide NoControl, GoodPiece, HighHalf, LowHalf;
    MeaningEscape(ps, n);
  }

  // ---- texts ----

  /** The rules of the standard that an accepted text may still break. */
  predicate ConformingDoc(d: Doc) {
    match d
    case NumDoc(lexeme) => LawfulNumber(lexeme)
    case StrDoc(ps) => NoControl(ps)
    case ArrDoc(items) => ConformingItems(items)
    case ObjDoc(members) => ConformingMembers(members)
    case _ => true
  }

  predicate ConformingItems(items: Items) {
    ConformingDoc(items.value) && (items.NextItem? ==> ConformingItems(items.rest))
  }

  predicate ConformingMembers(ms: Members) {
    NoControl(ms.key) && ConformingDoc(ms.value) && (ms.NextMember? ==> ConformingMembers(ms.rest))
  }

  /** A quoted string inside a well-formed buffer is well-formed. */
  lemma QuotedWellFormed(pre: seq<byte>, ps: seq<Piece>, post: seq<byte>)
    requires Utf8.WellFormed(pre + (PrintString(ps) + post))
    ensures Utf8.WellFormed(PrintPieces(ps))
  {
    hide Utf8.WellFormed, PrintPieces;
    var x := PrintPieces(ps);
    assert PrintString(ps) + post == [QUOTE] + (x + ([QUOTE] + post));
    Utf8.WellFormedSplit(pre, QUOTE, x + ([QUOTE] + post));
    Utf8.WellFormedSplit(x, QUOTE, post);
  }

  /** Inside a well-formed buffer, an accepted value is one of the standard exactly when it conforms. */
  lemma {:induction false} DocExactly(d: Doc, pre: seq<byte>, post: seq<byte>)
    requires GoodDoc(d) && Utf8.WellFormed(pre + (Print(d) + post))
    ensures StandardDoc(d) <==> ConformingDoc(d)
    decreases d, 1
  {
    match d {
      case NumDoc(lexeme) => NumberExactly(lexeme);
      case StrDoc(ps) =>
        QuotedWellFormed(pre, ps, post);
        StringExactly(ps);
      case ArrDoc(items) =>
        hide Utf8.WellFormed, PrintItems, GoodItems, StandardItems, ConformingItems;
        AppendAssociative([LBRACKET], PrintItems(items), post);
        AppendAssociative(pre, [LBRACKET], PrintItems(items) + post);
        ItemsExactly(items, pre + [LBRACKET], post);
      case ObjDoc(members) =>
        hide Utf8.WellFormed, PrintMembers, GoodMembers, StandardMembers, ConformingMembers;
        AppendAssociative([LBRACE], PrintMembers(members), post);
        AppendAssociative(pre, [LBRACE], PrintMembers(members) + post);
        MembersExactly(members, pre + [LBRACE], post);
      case _ =>
    }
  }

  lemma {:induction false} ItemsExactly(items: Items, pre: seq<byte>, post: seq<byte>)
    requires GoodItems(items) && Utf8.WellFormed(pre + (PrintItems(items) + post))
    ensures StandardItems(items) <==> ConformingItems(items)
    decreases items, 0
  {
    hide Utf8.WellFormed, Print, PrintItems, GoodDoc, StandardDoc, ConformingDoc;
    var after := AfterItem(items, post);
    var v, tail := Print(items.value), items.trail + after;
    ItemLayout(items, post);
    AppendAssociative(pre, items.lead, v + tail);
    DocExactly(items.value, pre + items.lead, tail);
    if items.NextItem? {
      var head := pre + items.lead + v + items.trail + [COMMA];
      var rest := PrintItems(items.rest) + post;
      AppendAssociative(pre + items.lead, v, tail);
      AppendAssociative(pre + items.lead + v, items.trail, after);
      AppendAssociative(pre + items.lead + v + items.trail, [COMMA], rest);
      ItemsExactly(items.rest, head, post);
    }
  }

  lemma {:induction false} MembersExactly(ms: Members, pre: seq<byte>, post: seq<byte>)
    requires GoodMembers(ms) && Utf8.WellFormed(pre + (PrintMembers(ms) + post))
    ensures StandardMembers(ms) <==> ConformingMembers(ms)
    decreases ms, 0
  {
    hide Utf8.WellFormed, Print, PrintString, PrintMembers, PrintPieces, GoodDoc, StandardDoc, ConformingDoc;
    hide Meaning, NoControl;
    var after := AfterMember(ms, post);
    var k, v := PrintString(ms.key), Print(ms.value);
    var tail := v + (ms.trail + after);
    MemberLayout(ms, post);
    var p1 := pre + ms.lead;
    AppendAssociative(pre, ms.lead, k + (ms.gap + ([COLON] + (ms.inner + tail))));
    QuotedWellFormed(p1, ms.key, ms.gap + ([COLON] + (ms.inner + tail)));
    StringExactly(ms.key);
    var p2 := p1 + k;
    AppendAssociative(p1, k, ms.gap + ([COLON] + (ms.inner + tail)));
    var p3 := p2 + ms.gap;
    AppendAssociative(p2, ms.gap, [COLON] + (ms.inner + tail));
    var p4 := p3 + [COLON];
    AppendAssociative(p3, [COLON], ms.inner + tail);
    var p5 := p4 + ms.inner;
    AppendAssociative(p4, ms.inner, tail);
    DocExactly(ms.value, p5, ms.trail + after);
    if ms.NextMember? {
      var p6 := p5 + v;
      AppendAssociative(p5, v, ms.trail + after);
      var p7 := p6 + ms.trail;
      AppendAssociative(p6, ms.trail, after);
      AppendAssociative(p7, [COMMA], PrintMembers(ms.rest) + post);
      MembersExactly(ms.rest, p7 + [COMMA], post);
    }
  }

  /**
   * An accepted text is a text of the standard if and only if its numbers are lawful and no string holds a raw
   * control character. That the buffer is UTF-8 is given: the reader takes a string.
   */
  lemma AcceptedStandardExactly(t: Text)
    requires GoodText(t) && Utf8.WellFormed(PrintText(t))
    ensures StandardText(t) <==> ConformingDoc(t.doc)
  {
    hide Utf8.WellFormed, Print, GoodDoc, StandardDoc, ConformingDoc;
    AppendAssociative(t.before, Print(t.doc), t.after);
    DocExactly(t.doc, t.before, t.after);
  }

  /** The same, of the inputs themselves. */
  lemma AcceptedInputExactly(input: string)
    requires Parsed(Utf8.Encode(input)).Ok?
    ensures (exists t: Text :: StandardText(t) && PrintText(t) == Utf8.Encode(input)) <==>
            (exists t: Text :: GoodText(t) && PrintText(t) == Utf8.Encode(input) && ConformingDoc(t.doc))
  {
    var b := Utf8.Encode(input);
    Utf8.EncodedWellFormed(input);
    hide Utf8.WellFormed, Utf8.Encode, PrintText, ConformingDoc, StandardDoc, GoodDoc, KnownDoc, Parsed;
    if t: Text :| StandardText(t) && PrintText(t) == b {
      StandardTextRead(t);
      AcceptedStandardExactly(t);
      assert GoodText(t) && PrintText(t) == b && ConformingDoc(t.doc);
    }
    if t: Text :| GoodText(t) && PrintText(t) == b && ConformingDoc(t.doc) {
      AcceptedStandardExactly(t);
      assert StandardText(t) && PrintText(t) == b;
    }
  }
}
