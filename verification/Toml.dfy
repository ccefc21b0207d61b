/** The configuration reader: a line-oriented TOML subset. */
module Toml {
  import opened Basics
  import Ids
  import Decimal

  type i64 = x: int | -0x8000_0000_0000_0000 <= x < 0x8000_0000_0000_0000

  datatype Value = Str(text: string) | Int(number: i64) | Bool(flag: bool)

  datatype Pair = Pair(key: string, value: Value)

  datatype Table = Table(name: string, arrayElement: bool, pairs: seq<Pair>)

  datatype Document = Document(root: seq<Pair>, tables: seq<Table>)

  datatype Message = UnterminatedArrayTable | UnterminatedTable | ExpectedPair | BadValue

  datatype ParseError = ParseError(line: nat, msg: Message)

  // ---- text ----

  predicate IsWhite(c: char) {
    var v := c as int;
    9 <= v <= 13 || v == 0x20 || v == 0x85 || v == 0xA0 || v == 0x1680 || 0x2000 <= v <= 0x200A
    || v == 0x2028 || v == 0x2029 || v == 0x202F || v == 0x205F || v == 0x3000
  }

  function TrimStart(s: string): (r: string)
    ensures r == [] || !IsWhite(r[0])
    ensures |r| <= |s|
  {
    if s != [] && IsWhite(s[0]) then TrimStart(s[1..]) else s
  }

  function TrimEnd(s: string): (r: string)
    ensures r <= s
    ensures r == [] || !IsWhite(r[|r| - 1])
  {
    if s != [] && IsWhite(s[|s| - 1]) then TrimEnd(s[..|s| - 1]) else s
  }

  function Trim(s: string): string { TrimEnd(TrimStart(s)) }

  predicate Trimmed(s: string) { s == [] || (!IsWhite(s[0]) && !IsWhite(s[|s| - 1])) }

  function DropCr(line: string): string {
    if line != [] && line[|line| - 1] == '\r' then line[..|line| - 1] else line
  }

  /** `str::lines`: a final line without a newline keeps its carriage return. */
  function Lines(s: string): (r: seq<string>) {
    if s == [] then []
    else
      var line := Ids.Before(s, '\n');
      if |line| == |s| then [line] else [DropCr(line)] + Lines(s[|line| + 1..])
  }

  /** Where a comment starts: the first '#' outside quotes, backslashes notwithstanding. */
  function CommentAt(line: string, inStr: bool): (r: nat)
    ensures r <= |line|
  {
    if line == [] || (line[0] == '#' && !inStr) then 0
    else 1 + CommentAt(line[1..], if line[0] == '\"' then !inStr else inStr)
  }

  method StripComment(line: string) returns (r: string)
    ensures r == line[..CommentAt(line, false)]
  {
    var inStr := false;
    for i := 0 to |line|
      invariant CommentAt(line, false) == i + CommentAt(line[i..], inStr)
    {
      assert line[i..][1..] == line[i + 1..];
      if line[i] == '\"' {
        inStr := !inStr;
      } else if line[i] == '#' && !inStr {
        return line[..i];
      }
    }
    r := line;
    assert line[..|line|] == line;
  }

  // ---- values ----

  /** The next piece of unescaped text and how many characters it takes up. */
  function UnescapeStep(s: string): (r: (string, nat))
    requires s != []
    ensures |r.0| <= r.1 && 1 <= r.1 <= |s|
  {
    if s[0] != '\\' then ([s[0]], 1)
    else if |s| == 1 then (['\\'], 1)
    else if s[1] == '\\' then (['\\'], 2)
    else if s[1] == '\"' then (['\"'], 2)
    else if s[1] == 'n' then (['\n'], 2)
    else if s[1] == 't' then (['\t'], 2)
    else (['\\', s[1]], 2)
  }

  function Unescape(s: string): (r: string)
    ensures |r| <= |s|
    decreases |s|
  {
    if s == [] then [] else UnescapeStep(s).0 + Unescape(s[UnescapeStep(s).1..])
  }

  /** One turn of the unescaping loop: what to push, and where to go on. */
  method UnescapeAt(s: string, i: nat) returns (piece: string, next: nat)
    requires i < |s|
    ensures (piece, next - i) == UnescapeStep(s[i..])
  {
    next := i + 1;
    if s[i] != '\\' {
      piece := [s[i]];
    } else if next == |s| {
      piece := ['\\'];
    } else {
      var c := s[next];
      next := next + 1;
      match c {
        case '\\' => piece := ['\\'];
        case '\"' => piece := ['\"'];
        case 'n' => piece := ['\n'];
        case 't' => piece := ['\t'];
        case _ => piece := ['\\', c];
      }
    }
  }

  method UnescapeText(s: string) returns (out: string)
    ensures out == Unescape(s)
  {
    hide Unescape, UnescapeStep;
    out := [];
    var i := 0;
    UnescapeNothing();
    while i < |s|
      invariant i <= |s|
      invariant out + Unescape(s[i..]) == Unescape(s)
    {
      UnescapeUnfold(s[i..]);
      var piece, next := UnescapeAt(s, i);
      assert s[i..][next - i..] == s[next..];
      assert out + (piece + Unescape(s[next..])) == out + piece + Unescape(s[next..]);
      out := out + piece;
      i := next;
    }
  }

  /** `parse::<i64>`: an optional sign, digits, and the range of the type. */
  function ParseInt(s: string): (r: Option<i64>) {
    var digits := if s != [] && (s[0] == '-' || s[0] == '+') then s[1..] else s;
    if digits == [] || !Decimal.AllDigits(digits) then None
    else
      var n := Decimal.Value(digits);
      var v := if s[0] == '-' then -(n as int) else n;
      if -0x8000_0000_0000_0000 <= v < 0x8000_0000_0000_0000 then Some(v) else None
  }

  /** The text between a leading and a trailing quote that are not the same character. */
  function Unquoted(v: string): Option<string> {
    if |v| >= 2 && v[0] == '\"' && v[|v| - 1] == '\"' then Some(v[1..|v| - 1]) else None
  }

  function ParseValue(v: string): (r: Option<Value>) {
    var inner := Unquoted(v);
    if inner.Some? then Some(Str(Unescape(inner.value)))
    else if v == "true" then Some(Bool(true))
    else if v == "false" then Some(Bool(false))
    else
      var n := ParseInt(v);
      if n.Some? then Some(Int(n.value)) else None
  }

  function SplitKv(line: string): (r: Option<(string, string)>) {
    var left := Ids.Before(line, '=');
    if |left| == |line| then None
    else
      var k, v := Trim(left), Trim(line[|left| + 1..]);
      if k == [] || v == [] then None else Some((k, v))
  }

  // ---- lines ----

  datatype Item = Header(name: string, arrayElement: bool) | Entry(pair: Pair)

  datatype LineResult = Blank | Line(item: Item) | Bad(msg: Message)

  predicate EndsWith(s: string, suffix: string) {
    |suffix| <= |s| && s[|s| - |suffix|..] == suffix
  }

  /** One line, comment and surrounding white space removed. */
  function ParseLine(raw: string): (r: LineResult) { ParseStripped(Trim(raw[..CommentAt(raw, false)])) }

  function ParseStripped(line: string): (r: LineResult) {
    if line == [] then Blank
    else if "[[" <= line then
      if EndsWith(line[2..], "]]") then Line(Header(Trim(line[2..|line| - 2]), true)) else Bad(UnterminatedArrayTable)
    else if "[" <= line then
      if EndsWith(line[1..], "]") then Line(Header(Trim(line[1..|line| - 1]), false)) else Bad(UnterminatedTable)
    else
      var kv := SplitKv(line);
      if kv.None? then Bad(ExpectedPair)
      else
        var value := ParseValue(kv.value.1);
        if value.None? then Bad(BadValue) else Line(Entry(Pair(kv.value.0, value.value)))
  }

  /** A header opens a table; a pair goes to the last table opened, or to the root. */
  function Absorb(doc: Document, item: Item): Document {
    match item
    case Header(name, arrayElement) => doc.(tables := doc.tables + [Table(name, arrayElement, [])])
    case Entry(pair) =>
      if doc.tables == [] then doc.(root := doc.root + [pair])
      else
        var last := |doc.tables| - 1;
        doc.(tables := doc.tables[last := doc.tables[last].(pairs := doc.tables[last].pairs + [pair])])
  }

  function ParseLines(lines: seq<string>, i: nat, doc: Document): (r: Result<Document, ParseError>) {
    if lines == [] then Ok(doc)
    else
      match ParseLine(lines[0])
      case Blank => ParseLines(lines[1..], i + 1, doc)
      case Bad(msg) => Err(ParseError(i + 1, msg))
      case Line(item) => ParseLines(lines[1..], i + 1, Absorb(doc, item))
  }

  const EMPTY := Document([], [])

  function Parsed(input: string): Result<Document, ParseError> { ParseLines(Lines(input), 0, EMPTY) }

  /** One turn of the line loop: `current` is the open table, if any. */
  method ReadLine(raw: string, lineNo: nat, before: Document, openTable: Option<nat>)
    returns (doc: Document, current: Option<nat>, failure: Option<ParseError>)
    requires openTable == if before.tables == [] then None else Some(|before.tables| - 1)
    ensures match ParseLine(raw)
            case Blank => failure.None? && doc == before
            case Bad(msg) => failure == Some(ParseError(lineNo, msg))
            case Line(item) => failure.None? && doc == Absorb(before, item)
    ensures failure.None? ==> current == if doc.tables == [] then None else Some(|doc.tables| - 1)
  {
    hide Trim, CommentAt, ParseValue, SplitKv;
    doc, current, failure := before, openTable, None;
    var stripped := StripComment(raw);
    var line := Trim(stripped);
    if line == [] { return; }
    if "[[" <= line {
      var rest := line[2..];
      if !EndsWith(rest, "]]") {
        failure := Some(ParseError(lineNo, UnterminatedArrayTable));
        return;
      }
      doc := doc.(tables := doc.tables + [Table(Trim(line[2..|line| - 2]), true, [])]);
      current := Some(|doc.tables| - 1);
    } else if "[" <= line {
      var rest := line[1..];
      if !EndsWith(rest, "]") {
        failure := Some(ParseError(lineNo, UnterminatedTable));
        return;
      }
      doc := doc.(tables := doc.tables + [Table(Trim(line[1..|line| - 1]), false, [])]);
      current := Some(|doc.tables| - 1);
    } else {
      var kv := SplitKv(line);
      if kv.None? {
        failure := Some(ParseError(lineNo, ExpectedPair));
        return;
      }
      var value := ParseValue(kv.value.1);
      if value.None? {
        failure := Some(ParseError(lineNo, BadValue));
        return;
      }
      var pair := Pair(kv.value.0, value.value);
      match current {
        case Some(at) =>
          doc := doc.(tables := doc.tables[at := doc.tables[at].(pairs := doc.tables[at].pairs + [pair])]);
        case None =>
          doc := doc.(root := doc.root + [pair]);
      }
    }
  }

  method Parse(input: string) returns (r: Result<Document, ParseError>)
    ensures r == Parsed(input)
  {
    var lines := Lines(input);
    var doc := EMPTY;
    var current: Option<nat> := None;
    for i := 0 to |lines|
      invariant current == if doc.tables == [] then None else Some(|doc.tables| - 1)
      invariant ParseLines(lines, 0, EMPTY) == ParseLines(lines[i..], i, doc)
    {
      assert lines[i..][1..] == lines[i + 1..];
      var failure: Option<ParseError>;
      doc, current, failure := ReadLine(lines[i], i + 1, doc, current);
      if failure.Some? { return Err(failure.value); }
    }
    r := Ok(doc);
  }

  // ---- printing ----

  function EscapeChar(c: char): (r: string)
    ensures 1 <= |r| <= 2
  {
    if c == '\\' then "\\\\"
    else if c == '\"' then "\\\""
    else if c == '\n' then "\\n"
    else if c == '\t' then "\\t"
    else [c]
  }

  function Escape(s: string): string {
    if s == [] then [] else EscapeChar(s[0]) + Escape(s[1..])
  }

  function PrintInt(n: i64): string { if n < 0 then "-" + Decimal.Print(-(n as int)) else Decimal.Print(n) }

  function PrintValue(v: Value): string {
    match v
    case Str(s) => "\"" + Escape(s) + "\""
    case Int(n) => PrintInt(n)
    case Bool(b) => if b then "true" else "false"
  }

  function PrintItem(item: Item): string {
    match item
    case Header(name, true) => "[[" + name + "]]"
    case Header(name, false) => "[" + name + "]"
    case Entry(pair) => pair.key + " = " + PrintValue(pair.value)
  }

  function PrintItems(items: seq<Item>): string {
    if items == [] then [] else PrintItem(items[0]) + "\n" + PrintItems(items[1..])
  }

  function Entries(pairs: seq<Pair>): (r: seq<Item>)
    ensures |r| == |pairs|
    ensures forall i :: 0 <= i < |pairs| ==> r[i] == Entry(pairs[i])
  {
    if pairs == [] then [] else [Entry(pairs[0])] + Entries(pairs[1..])
  }

  function TableItems(tables: seq<Table>): seq<Item> {
    if tables == [] then []
    else
      var t := tables[|tables| - 1];
      TableItems(tables[..|tables| - 1]) + ([Header(t.name, t.arrayElement)] + Entries(t.pairs))
  }

  /** A document as the sequence of its headers and pairs. */
  function ItemsOf(doc: Document): seq<Item> { Entries(doc.root) + TableItems(doc.tables) }

  function PrintDocument(doc: Document): string { PrintItems(ItemsOf(doc)) }

  // ---- what can be printed ----

  predicate GoodKey(k: string) {
    k != [] && Trimmed(k) && '=' !in k && '#' !in k && '\"' !in k && '\n' !in k && k[0] != '['
  }

  predicate GoodName(name: string, arrayElement: bool) {
    Trimmed(name) && '#' !in name && '\n' !in name && (!arrayElement && name != [] ==> name[0] != '[')
  }

  predicate GoodItem(item: Item) {
    match item
    case Header(name, arrayElement) => GoodName(name, arrayElement)
    case Entry(pair) => GoodKey(pair.key)
  }

  predicate GoodDocument(doc: Document) {
    && (forall i :: 0 <= i < |doc.root| ==> GoodKey(doc.root[i].key))
    && (forall i :: 0 <= i < |doc.tables| ==> GoodName(doc.tables[i].name, doc.tables[i].arrayElement))
    && (forall i, j :: 0 <= i < |doc.tables| && 0 <= j < |doc.tables[i].pairs| ==> GoodKey(doc.tables[i].pairs[j].key))
  }

  function Quotes(s: string): nat {
    if s == [] then 0 else (if s[0] == '\"' then 1 else 0) + Quotes(s[1..])
  }

  /** No '#' follows an odd number of quotes. */
  predicate HashSafe(s: string) {
    forall i :: 0 <= i < |s| && s[i] == '#' ==> Quotes(s[..i]) % 2 == 0
  }

  predicate SafeValue(v: Value) { v.Str? ==> HashSafe(v.text) }

  predicate SafePairs(pairs: seq<Pair>) { forall i :: 0 <= i < |pairs| ==> SafeValue(pairs[i].value) }

  predicate SafeTables(tables: seq<Table>) { forall i :: 0 <= i < |tables| ==> SafePairs(tables[i].pairs) }

  predicate SafeDocument(doc: Document) { SafePairs(doc.root) && SafeTables(doc.tables) }

  // ---- escapes ----

  /** Every string survives escaping and unescaping. */
  lemma {:induction false} EscapeRoundTrip(s: string)
    ensures Unescape(Escape(s)) == s
  {
    if s == [] {
    } else {
      EscapeRoundTrip(s[1..]);
      EscapedHead(s[0], Escape(s[1..]));
    }
  }

  lemma UnescapeNothing()
    ensures Unescape([]) == []
  {
  }

  lemma UnescapeUnfold(s: string)
    requires s != []
    ensures Unescape(s) == UnescapeStep(s).0 + Unescape(s[UnescapeStep(s).1..])
  {
  }

  lemma EscapedHead(c: char, rest: string)
    ensures Unescape(EscapeChar(c) + rest) == [c] + Unescape(rest)
  {
    hide Unescape;
    var s := EscapeChar(c) + rest;
    UnescapeUnfold(s);
    assert UnescapeStep(s) == ([c], |EscapeChar(c)|);
    assert s[|EscapeChar(c)|..] == rest;
  }

  /** A cut-off escaped string never unescapes to something longer than what was escaped before the cut. */
  lemma {:induction false} CutEscapeShort(p: string, x: string)
    requires x <= Escape(p)
    ensures |Unescape(x)| <= |p|
  {
    if x == [] {
    } else {
      assert p != [];
      var e := EscapeChar(p[0]);
      if |x| >= |e| {
        assert x == e + x[|e|..];
        EscapedHead(p[0], x[|e|..]);
        CutEscapeShort(p[1..], x[|e|..]);
      } else {
        assert x == ['\\'];
      }
    }
  }

  // ---- the texts themselves ----

  /** What a backslash and a character stand for. */
  lemma EscapesStandFor(c: char, rest: string)
    ensures Unescape(['\\', c] + rest) ==
            (match c
             case 'n' => [10 as char]
             case 't' => [9 as char]
             case '\"' => "\""
             case '\\' => "\\"
             case _ => "\\" + [c]) + Unescape(rest)
  {
    var s := ['\\', c] + rest;
    hide Unescape;
    UnescapeUnfold(s);
    assert s[2..] == rest;
  }

  /** Which texts are values, and which values: quoted text, the two booleans, and numbers. */
  lemma ValueTexts(v: string)
    ensures ParseValue(v) == Some(Bool(true)) <==> v == "true"
    ensures ParseValue(v) == Some(Bool(false)) <==> v == "false"
    ensures forall n: i64 :: ParseValue(v) == Some(Int(n)) <==> ParseInt(v) == Some(n)
    ensures forall s :: ParseValue(v) == Some(Str(s)) <==> exists x :: v == "\"" + x + "\"" && s == Unescape(x)
  {
    hide Unescape;
    if ParseInt(v).Some? { var digits := OnlyIntTexts(v); }
    if Unquoted(v).Some? { assert v == "\"" + Unquoted(v).value + "\""; }
    forall x ensures v == "\"" + x + "\"" ==> Unquoted(v) == Some(x) { Requoted(x); }
  }

  lemma Requoted(x: string)
    ensures Unquoted("\"" + x + "\"") == Some(x)
  {
    var v := "\"" + x + "\"";
    assert v[1..|v| - 1] == x;
  }

  /** Which texts are numbers, and which numbers: digits, after one sign at most, within 64 bits. */
  lemma IntTexts(digits: string)
    requires digits != [] && Decimal.AllDigits(digits)
    ensures var n := Decimal.Value(digits);
            && ParseInt(digits) == (if n <= 0x7FFF_FFFF_FFFF_FFFF then Some(n) else None)
            && ParseInt("+" + digits) == (if n <= 0x7FFF_FFFF_FFFF_FFFF then Some(n) else None)
            && ParseInt("-" + digits) == (if n <= 0x8000_0000_0000_0000 then Some(-(n as int)) else None)
  {
    assert Decimal.IsDigit(digits[0]);
    assert ("+" + digits)[1..] == digits && ("-" + digits)[1..] == digits;
  }

  lemma OnlyIntTexts(s: string) returns (digits: string)
    requires ParseInt(s).Some?
    ensures digits != [] && Decimal.AllDigits(digits) && (s == digits || s == "+" + digits || s == "-" + digits)
  {
    digits := if s != [] && (s[0] == '-' || s[0] == '+') then s[1..] else s;
    assert s == digits || s == [s[0]] + digits;
  }

  /** Trimming takes off white space at both ends and leaves none there. */
  lemma TrimExactly(s: string) returns (before: string, after: string)
    ensures s == before + Trim(s) + after && Trimmed(Trim(s))
    ensures (forall c :: c in before ==> IsWhite(c)) && forall c :: c in after ==> IsWhite(c)
  {
    before := StartTrimmed(s);
    after := EndTrimmed(TrimStart(s));
    hide IsWhite, TrimStart, TrimEnd;
    assert s == before + (Trim(s) + after);
    var t := TrimStart(s);
    assert Trim(s) <= t;
    assert Trim(s) != [] ==> Trim(s)[0] == t[0];
  }

  lemma {:induction false} StartTrimmed(s: string) returns (before: string)
    ensures s == before + TrimStart(s) && forall c :: c in before ==> IsWhite(c)
  {
    before := [];
    if s != [] && IsWhite(s[0]) {
      var more := StartTrimmed(s[1..]);
      before := [s[0]] + more;
    }
  }

  lemma {:induction false} EndTrimmed(s: string) returns (after: string)
    ensures s == TrimEnd(s) + after && forall c :: c in after ==> IsWhite(c)
    decreases |s|
  {
    after := [];
    if s != [] && IsWhite(s[|s| - 1]) {
      var more := EndTrimmed(s[..|s| - 1]);
      after := more + [s[|s| - 1]];
    }
  }

  /** The characters with the Unicode property White_Space. */
  lemma WhiteSpace(c: char)
    ensures IsWhite(c) <==>
            || c as int in [0x09, 0x0A, 0x0B, 0x0C, 0x0D, 0x20, 0x85, 0xA0, 0x1680]
            || 0x2000 <= c as int < 0x200B
            || c as int in [0x2028, 0x2029, 0x202F, 0x205F, 0x3000]
  {
  }

  // ---- lines and errors ----

  /** Lines end at a line feed, with or without a carriage return before it; a last line needs no end. */
  lemma LineEnds(line: string, rest: string)
    requires '\n' !in line
    ensures Lines(line + "\r\n" + rest) == [line] + Lines(rest)
    ensures (line == [] || line[|line| - 1] != '\r') ==> Lines(line + "\n" + rest) == [line] + Lines(rest)
    ensures line != [] ==> Lines(line) == [line]
  {
    hide Lines;
    LineBroken(line + "\r", rest);
    LineBroken(line, rest);
    assert line + "\r\n" + rest == line + "\r" + "\n" + rest;
    assert DropCr(line + "\r") == line;
    LastLine(line);
  }

  lemma LineBroken(line: string, rest: string)
    requires '\n' !in line
    ensures Lines(line + "\n" + rest) == [DropCr(line)] + Lines(rest)
  {
    Ids.BeforeSeparator(line, '\n', rest);
    assert line + "\n" + rest == line + ['\n'] + rest;
    assert (line + ['\n'] + rest)[|line| + 1..] == rest;
  }

  lemma LastLine(line: string)
    requires '\n' !in line
    ensures line != [] ==> Lines(line) == [line]
  {
    Ids.BeforeAbsent(line, '\n');
  }

  /** What is wrong with a line, its comment and outer white space removed. */
  ghost predicate Offends(line: string, msg: Message) {
    match msg
    case UnterminatedArrayTable => "[[" <= line && !exists name :: line == "[[" + name + "]]"
    case UnterminatedTable => "[" <= line && !("[[" <= line) && !exists name :: line == "[" + name + "]"
    case ExpectedPair =>
      line != [] && line[0] != '[' && !exists key, value :: IsPair(line, key, value)
    case BadValue =>
      line != [] && line[0] != '[' && exists key, value :: IsPair(line, key, value) && ParseValue(Trim(value)).None?
  }

  /** The line is a key and a value around its first `=`, both more than white space. */
  predicate IsPair(line: string, key: string, value: string) {
    line == key + "=" + value && '=' !in key && Trim(key) != [] && Trim(value) != []
  }

  lemma SplitExactly(line: string, key: string, value: string)
    requires IsPair(line, key, value)
    ensures SplitKv(line) == Some((Trim(key), Trim(value)))
  {
    hide Trim;
    Ids.BeforeSeparator(key, '=', value);
    assert line == key + ['='] + value && line[|key| + 1..] == value;
  }

  lemma SplitFound(line: string) returns (key: string, value: string)
    requires SplitKv(line).Some?
    ensures IsPair(line, key, value)
  {
    hide Trim;
    key := Ids.Before(line, '=');
    value := line[|key| + 1..];
    assert line == key + "=" + value;
  }

  lemma Closed(line: string, n: nat, end: string)
    requires n <= |line|
    ensures EndsWith(line[n..], end) <==> exists name :: line == line[..n] + name + end
  {
    if EndsWith(line[n..], end) {
      var name := line[n..|line| - |end|];
      assert line == line[..n] + name + end;
    }
    if name :| line == line[..n] + name + end {
      assert line[n..] == name + end && (name + end)[|name|..] == end;
    }
  }

  lemma HeaderOffends(line: string, msg: Message)
    requires "[" <= line
    ensures ParseStripped(line) == Bad(msg) <==> Offends(line, msg)
  {
    hide Trim, EndsWith, ParseValue, SplitKv, IsPair;
    if "[[" <= line {
      Closed(line, 2, "]]");
      assert line[..2] == "[[";
    } else {
      Closed(line, 1, "]");
      assert line[..1] == "[";
    }
  }

  lemma PairOffends(line: string, msg: Message)
    requires line != [] && line[0] != '['
    ensures ParseStripped(line) == Bad(msg) <==> Offends(line, msg)
  {
    hide Trim, EndsWith, ParseValue, IsPair;
    forall key, value | IsPair(line, key, value) ensures SplitKv(line) == Some((Trim(key), Trim(value))) {
      SplitExactly(line, key, value);
    }
    if SplitKv(line).Some? { var key, value := SplitFound(line); }
    hide SplitKv;
  }

  /** A line is refused for exactly one reason, the one that applies to it. */
  lemma OffendsExactly(raw: string, msg: Message)
    ensures ParseLine(raw) == Bad(msg) <==> Offends(Trim(raw[..CommentAt(raw, false)]), msg)
  {
    var line := Trim(raw[..CommentAt(raw, false)]);
    if line == [] {
    } else {
      hide Trim, CommentAt, ParseStripped, Offends;
      if line[0] == '[' { HeaderOffends(line, msg); } else { PairOffends(line, msg); }
    }
  }

  /** None of the first `n` lines is refused. */
  predicate NoneBad(lines: seq<string>, n: nat)
    requires n <= |lines|
  {
    forall i :: 0 <= i < n ==> !ParseLine(lines[i]).Bad?
  }

  /** The first offending line is reported, by its number from one and its offence; without one the text is read. */
  lemma FirstOffence(input: string, n: nat, msg: Message)
    ensures Parsed(input) == Err(ParseError(n, msg)) <==>
            && 1 <= n <= |Lines(input)| && ParseLine(Lines(input)[n - 1]) == Bad(msg) && NoneBad(Lines(input), n - 1)
    ensures Parsed(input).Ok? <==> NoneBad(Lines(input), |Lines(input)|)
  {
    hide Lines, ParseLine, ParseLines, NoneBad;
    FirstBad(Lines(input), 0, EMPTY, n, msg);
  }

  lemma NoneBadTail(lines: seq<string>, n: nat)
    requires 1 <= n <= |lines|
    ensures NoneBad(lines, n) <==> !ParseLine(lines[0]).Bad? && NoneBad(lines[1..], n - 1)
  {
    hide ParseLine;
    assert forall k :: 0 < k < n ==> lines[k] == lines[1..][k - 1];
    if !ParseLine(lines[0]).Bad? && NoneBad(lines[1..], n - 1) {
      forall i | 0 <= i < n ensures !ParseLine(lines[i]).Bad? {
        if i > 0 { assert !ParseLine(lines[1..][i - 1]).Bad?; }
      }
    }
    if NoneBad(lines, n) {
      forall i | 0 <= i < n - 1 ensures !ParseLine(lines[1..][i]).Bad? { assert lines[1..][i] == lines[i + 1]; }
    }
  }

  lemma {:induction false} FirstBad(lines: seq<string>, i: nat, doc: Document, n: nat, msg: Message)
    ensures ParseLines(lines, i, doc) == Err(ParseError(n, msg)) <==>
            && i < n <= i + |lines| && ParseLine(lines[n - i - 1]) == Bad(msg) && NoneBad(lines, n - i - 1)
    ensures ParseLines(lines, i, doc).Ok? <==> NoneBad(lines, |lines|)
    decreases |lines|
  {
    hide ParseLine, Absorb;
    if lines == [] {
    } else {
      var line, rest := ParseLine(lines[0]), lines[1..];
      NoneBadTail(lines, |lines|);
      if 1 <= n - i - 1 <= |lines| { NoneBadTail(lines, n - i - 1); }
      assert 1 <= n - i - 1 < |lines| ==> lines[n - i - 1] == rest[n - i - 2];
      if !line.Bad? { FirstBad(rest, i + 1, if line.Blank? then doc else Absorb(doc, line.item), n, msg); }
    }
  }

  // ---- trimming ----

  lemma TrimTrimmed(s: string)
    requires Trimmed(s)
    ensures Trim(s) == s
  {
  }

  lemma TrimPadded(s: string)
    requires Trimmed(s) && s != []
    ensures Trim(s + " ") == s && Trim(" " + s) == s
  {
    assert (" " + s)[1..] == s;
    assert (s + " ")[..|s|] == s;
    assert TrimStart(s + " ") == s + " ";
    TrimTrimmed(s);
  }

  // ---- comments ----

  /** A '#' at `i` is quoted, in text that starts inside quotes or outside them. */
  predicate HashQuoted(line: string, i: nat, inStr: bool)
    requires i < |line|
  {
    line[i] == '#' ==> (Quotes(line[..i]) % 2 == 1) != inStr
  }

  ghost predicate HashesQuoted(line: string, inStr: bool) {
    forall i :: 0 <= i < |line| ==> HashQuoted(line, i, inStr)
  }

  lemma QuotesCons(c: char, rest: string)
    ensures Quotes([c] + rest) == (if c == '\"' then 1 else 0) + Quotes(rest)
  {
    assert ([c] + rest)[1..] == rest;
  }

  lemma HashQuotedCons(c: char, rest: string, i: nat, inStr: bool)
    requires i < |rest|
    ensures HashQuoted([c] + rest, i + 1, inStr) <==> HashQuoted(rest, i, if c == '\"' then !inStr else inStr)
  {
    hide Quotes;
    assert ([c] + rest)[..i + 1] == [c] + rest[..i];
    QuotesCons(c, rest[..i]);
  }

  lemma HashesQuotedCons(c: char, rest: string, inStr: bool)
    ensures HashesQuoted([c] + rest, inStr) <==>
            !(c == '#' && !inStr) && HashesQuoted(rest, if c == '\"' then !inStr else inStr)
  {
    var line, next := [c] + rest, if c == '\"' then !inStr else inStr;
    assert HashQuoted(line, 0, inStr) <==> !(c == '#' && !inStr) by { assert line[..0] == []; }
    hide HashQuoted;
    forall i | 0 <= i < |rest| ensures HashQuoted(line, i + 1, inStr) <==> HashQuoted(rest, i, next) {
      HashQuotedCons(c, rest, i, inStr);
    }
    if !(c == '#' && !inStr) && HashesQuoted(rest, next) {
      forall i | 0 <= i < |line| ensures HashQuoted(line, i, inStr) {
        if i > 0 { assert HashQuoted(rest, i - 1, next) && i - 1 + 1 == i; }
      }
    }
  }

  /** A line is kept whole exactly when every '#' in it is inside quotes. */
  lemma {:induction false} CommentExactly(line: string, inStr: bool)
    ensures CommentAt(line, inStr) == |line| <==> HashesQuoted(line, inStr)
  {
    if line == [] {
    } else {
      hide HashesQuoted;
      assert line == [line[0]] + line[1..];
      HashesQuotedCons(line[0], line[1..], inStr);
      CommentExactly(line[1..], if line[0] == '\"' then !inStr else inStr);
    }
  }

  lemma {:induction false} CommentAppend(a: string, b: string, inStr: bool)
    requires '#' !in a
    ensures CommentAt(a + b, inStr) == |a| + CommentAt(b, (Quotes(a) % 2 == 1) != inStr)
  {
    if a == [] {
      assert a + b == b;
    } else {
      assert (a + b)[1..] == a[1..] + b;
      CommentAppend(a[1..], b, if a[0] == '\"' then !inStr else inStr);
    }
  }

  /** Escaping moves no quote and no '#' relative to the others. */
  lemma {:induction false} EscapeComment(s: string, inStr: bool)
    ensures var n := CommentAt(s, inStr);
            && (n == |s| ==> CommentAt(Escape(s), inStr) == |Escape(s)|)
            && (n < |s| ==>
                CommentAt(Escape(s), inStr) == |Escape(s[..n])| < |Escape(s)| && Escape(s[..n]) <= Escape(s))
  {
    if s == [] {
    } else if s[0] == '#' && !inStr {
      assert s[..0] == [];
    } else {
      hide Escape, CommentAt, EscapeChar;
      var next, n := if s[0] == '\"' then !inStr else inStr, CommentAt(s, inStr);
      CommentCons(s, inStr);
      EscapeCons(s, n);
      EscapedComment(s[0], Escape(s[1..]), inStr);
      EscapeComment(s[1..], next);
    }
  }

  lemma CommentCons(s: string, inStr: bool)
    requires s != [] && !(s[0] == '#' && !inStr)
    ensures CommentAt(s, inStr) == 1 + CommentAt(s[1..], if s[0] == '\"' then !inStr else inStr)
  {
  }

  lemma EscapeCons(s: string, n: nat)
    requires s != [] && 1 <= n <= |s|
    ensures Escape(s) == EscapeChar(s[0]) + Escape(s[1..])
    ensures Escape(s[..n]) == EscapeChar(s[0]) + Escape(s[1..][..n - 1])
  {
    assert s[..n][1..] == s[1..][..n - 1];
  }

  lemma EscapedComment(c: char, rest: string, inStr: bool)
    requires !(c == '#' && !inStr)
    ensures CommentAt(EscapeChar(c) + rest, inStr) ==
            |EscapeChar(c)| + CommentAt(rest, if c == '\"' then !inStr else inStr)
  {
    var s := EscapeChar(c) + rest;
    if |EscapeChar(c)| == 2 {
      assert s[1..] == [EscapeChar(c)[1]] + rest && s[1..][1..] == rest;
    } else {
      assert s[1..] == rest;
    }
  }

  // ---- one printed line read back ----

  lemma {:induction false} NoQuotes(s: string)
    requires '\"' !in s
    ensures Quotes(s) == 0
  {
    if s == [] {
    } else {
      NoQuotes(s[1..]);
    }
  }

  lemma {:induction false} NoHash(s: string, inStr: bool)
    requires '#' !in s
    ensures CommentAt(s, inStr) == |s|
  {
    if s == [] {
    } else {
      NoHash(s[1..], if s[0] == '\"' then !inStr else inStr);
    }
  }

  /** A line without a comment and already trimmed is parsed as it stands. */
  lemma WholeLine(raw: string)
    requires CommentAt(raw, false) == |raw| && Trimmed(raw)
    ensures ParseLine(raw) == ParseStripped(raw)
  {
    assert raw[..|raw|] == raw;
    TrimTrimmed(raw);
  }

  /** The name between `n` opening and closing brackets. */
  lemma Bracketed(before: string, name: string, after: string)
    ensures var line := before + name + after;
            && |line| == |before| + |name| + |after|
            && before <= line && line[|before|..] == name + after
            && line[|before|..|line| - |after|] == name && EndsWith(line[|before|..], after)
  {
    var line := before + name + after;
    assert line[|before|..] == name + after;
    assert (name + after)[|name|..] == after;
  }

  /** A header of either kind opens a table of what stands between its brackets, white space taken off. */
  lemma HeadersTrimmed(name: string)
    ensures ParseStripped("[[" + name + "]]") == Line(Header(Trim(name), true))
    ensures (name == [] || name[0] != '[') ==> ParseStripped("[" + name + "]") == Line(Header(Trim(name), false))
  {
    hide EndsWith, SplitKv, ParseValue, Trim, IsWhite;
    Bracketed("[[", name, "]]");
    Bracketed("[", name, "]");
    var line := "[" + name + "]";
    assert line[1] == if name == [] then ']' else name[0];
  }

  /** A pair is its key and its value, white space taken off both. */
  lemma PairsTrimmed(line: string, key: string, value: string)
    requires IsPair(line, key, value) && line[0] != '['
    ensures ParseStripped(line) ==
            if ParseValue(Trim(value)).None? then Bad(BadValue)
            else Line(Entry(Pair(Trim(key), ParseValue(Trim(value)).value)))
  {
    SplitExactly(line, key, value);
    hide IsPair, SplitKv, ParseValue, Trim;
  }

  lemma HeaderLine(name: string, arrayElement: bool)
    requires GoodName(name, arrayElement)
    ensures ParseLine(PrintItem(Header(name, arrayElement))) == Line(Header(name, arrayElement))
  {
    var raw := PrintItem(Header(name, arrayElement));
    NoHash(raw, false);
    WholeLine(raw);
    HeadersTrimmed(name);
    TrimTrimmed(name);
  }

  /** A pair whose value text `v` survives comment stripping is read by parsing `v`. */
  lemma PairLine(key: string, v: string)
    requires GoodKey(key) && v != [] && Trimmed(v)
    ensures Trimmed(key + " = " + v)
    ensures ParseStripped(key + " = " + v) ==
            if ParseValue(v).None? then Bad(BadValue) else Line(Entry(Pair(key, ParseValue(v).value)))
  {
    var line := key + " = " + v;
    SplitPair(key, v);
    assert line[0] == key[0] && line[|line| - 1] == v[|v| - 1];
  }

  lemma SplitPair(key: string, v: string)
    requires GoodKey(key) && v != [] && Trimmed(v)
    ensures SplitKv(key + " = " + v) == Some((key, v))
  {
    var line := key + " = " + v;
    var left := key + " ";
    assert line == left + ['='] + (" " + v);
    Ids.BeforeSeparator(left, '=', " " + v);
    assert line[|left| + 1..] == " " + v;
    TrimPadded(key);
    TrimPadded(v);
  }

  lemma KeyPrefix(key: string, v: string)
    requires GoodKey(key)
    ensures CommentAt(key + " = " + v, false) == |key| + 3 + CommentAt(v, false)
  {
    var head := key + " = ";
    NoQuotes(head);
    CommentAppend(head, v, false);
  }

  lemma QuotedLine(s: string)
    ensures var v := "\"" + Escape(s) + "\"";
            CommentAt(v, false) == if CommentAt(s, true) == |s| then |v| else 1 + |Escape(s[..CommentAt(s, true)])|
  {
    EscapeComment(s, true);
    hide Escape;
    CommentPrefix(Escape(s), "\"", true);
    var v := "\"" + Escape(s) + "\"";
    assert v[1..] == Escape(s) + "\"";
  }

  /** Text after a comment has started does not matter; a closing quote starts none. */
  lemma {:induction false} CommentPrefix(a: string, b: string, inStr: bool)
    requires '#' !in b
    ensures CommentAt(a + b, inStr) == if CommentAt(a, inStr) == |a| then |a + b| else CommentAt(a, inStr)
  {
    if a == [] {
      assert a + b == b;
      NoHash(b, inStr);
    } else {
      assert (a + b)[1..] == a[1..] + b;
      if !(a[0] == '#' && !inStr) { CommentPrefix(a[1..], b, if a[0] == '\"' then !inStr else inStr); }
    }
  }

  lemma QuotedValue(x: string)
    ensures ParseValue("\"" + x + "\"") == Some(Str(Unescape(x)))
  {
    var v := "\"" + x + "\"";
    assert v[1..|v| - 1] == x;
  }

  lemma SafeStringLine(key: string, s: string)
    requires GoodKey(key) && CommentAt(s, true) == |s|
    ensures ParseLine(PrintItem(Entry(Pair(key, Str(s))))) == Line(Entry(Pair(key, Str(s))))
  {
    hide Escape, Unescape, CommentAt, Trim, ParseStripped, ParseValue, ParseLine;
    var v := "\"" + Escape(s) + "\"";
    KeyPrefix(key, v);
    QuotedLine(s);
    PairLine(key, v);
    WholeLine(key + " = " + v);
    QuotedValue(Escape(s));
    EscapeRoundTrip(s);
  }

  /** What an opening quote and part of an escaped string read as is never a longer string. */
  lemma CutValue(p: string, w: string)
    requires w != [] && w[0] == '\"' && w <= "\"" + Escape(p)
    ensures ParseValue(w).Some? ==> ParseValue(w).value.Str? && |ParseValue(w).value.text| <= |p|
  {
    QuoteFirst(w);
    if Unquoted(w).Some? {
      InnerPrefix(w, Escape(p));
      CutEscapeShort(p, w[1..|w| - 1]);
    }
  }

  lemma InnerPrefix(w: string, e: string)
    requires |w| >= 2 && w <= "\"" + e
    ensures w[1..|w| - 1] <= e
  {
    var cut := "\"" + e;
    forall i | 0 <= i < |w| - 2 ensures w[1..|w| - 1][i] == e[i] { assert w[i + 1] == cut[i + 1]; }
  }

  /** Nothing that starts with a quote is a number or a boolean. */
  lemma QuoteFirst(w: string)
    requires w != [] && w[0] == '\"'
    ensures ParseInt(w).None? && w != "true" && w != "false"
  {
    assert !Decimal.IsDigit(w[0]);
  }

  /** A value cut by a comment never reads back as itself. */
  lemma CutStringLine(key: string, s: string)
    requires GoodKey(key) && CommentAt(s, true) < |s|
    ensures ParseLine(PrintItem(Entry(Pair(key, Str(s))))) != Line(Entry(Pair(key, Str(s))))
    ensures !ParseLine(PrintItem(Entry(Pair(key, Str(s))))).Blank?
  {
    hide CommentAt, Escape, TrimEnd, Trim, ParseValue, ParseStripped, Unescape, IsWhite;
    var v := "\"" + Escape(s) + "\"";
    var raw := key + " = " + v;
    var p := s[..CommentAt(s, true)];
    var cut := "\"" + Escape(p);
    KeyPrefix(key, v);
    QuotedLine(s);
    EscapeComment(s, true);
    assert raw[..CommentAt(raw, false)] == key + " = " + cut;
    CutTrim(key + " = ", cut);
    PairLine(key, TrimEnd(cut));
    CutValue(p, TrimEnd(cut));
  }

  lemma {:induction false} TrimEndAppend(a: string, b: string)
    requires b != [] && !IsWhite(b[0])
    ensures TrimEnd(a + b) == a + TrimEnd(b)
    ensures TrimEnd(b) != [] && TrimEnd(b)[0] == b[0] && Trimmed(TrimEnd(b))
    decreases |b|
  {
    if IsWhite(b[|b| - 1]) {
      assert (a + b)[..|a + b| - 1] == a + b[..|b| - 1];
      TrimEndAppend(a, b[..|b| - 1]);
    }
  }

  lemma CutTrim(head: string, cut: string)
    requires head != [] && !IsWhite(head[0]) && cut != [] && cut[0] == '\"'
    ensures Trim(head + cut) == head + TrimEnd(cut)
    ensures TrimEnd(cut) != [] && TrimEnd(cut)[0] == '\"' && Trimmed(TrimEnd(cut))
  {
    TrimEndAppend(head, cut);
    assert TrimStart(head + cut) == head + cut;
  }

  lemma IntText(n: i64)
    ensures var v := PrintInt(n);
            v != [] && Trimmed(v) && '#' !in v && v[0] != '\"' && v != "true" && v != "false" && ParseInt(v) == Some(n)
  {
    var m: nat := if n < 0 then -(n as int) else n;
    var d := Decimal.Print(m);
    Decimal.PrintValue(m);
    assert forall i :: 0 <= i < |d| ==> Decimal.IsDigit(d[i]);
    if n < 0 { assert PrintInt(n)[1..] == d; }
  }

  lemma ScalarLine(key: string, value: Value)
    requires GoodKey(key) && !value.Str?
    ensures ParseLine(PrintItem(Entry(Pair(key, value)))) == Line(Entry(Pair(key, value)))
  {
    hide CommentAt, ParseStripped, Trim, ParseInt;
    var v := PrintValue(value);
    if value.Int? { IntText(value.number); }
    assert v != [] && Trimmed(v) && '#' !in v && v[0] != '\"';
    KeyPrefix(key, v);
    NoHash(v, false);
    PairLine(key, v);
    WholeLine(key + " = " + v);
  }

  lemma HashSafeExactly(s: string)
    ensures HashSafe(s) <==> CommentAt(s, true) == |s|
  {
    CommentExactly(s, true);
    hide Quotes, CommentAt;
    if HashSafe(s) {
      forall i | 0 <= i < |s| ensures HashQuoted(s, i, true) {}
    }
    if HashesQuoted(s, true) {
      forall i | 0 <= i < |s| && s[i] == '#' ensures Quotes(s[..i]) % 2 == 0 { assert HashQuoted(s, i, true); }
    }
  }

  predicate SafeItem(item: Item) { item.Entry? ==> SafeValue(item.pair.value) }

  /** A printed line reads back as the item it was printed from, exactly when its value is safe. */
  lemma LineExactly(item: Item)
    requires GoodItem(item)
    ensures ParseLine(PrintItem(item)) == Line(item) <==> SafeItem(item)
    ensures !ParseLine(PrintItem(item)).Blank?
  {
    match item {
      case Header(name, arrayElement) => HeaderLine(name, arrayElement);
      case Entry(pair) =>
        if pair.value.Str? {
          HashSafeExactly(pair.value.text);
          if CommentAt(pair.value.text, true) == |pair.value.text| {
            SafeStringLine(pair.key, pair.value.text);
          } else {
            CutStringLine(pair.key, pair.value.text);
          }
        } else {
          ScalarLine(pair.key, pair.value);
        }
    }
  }

  // ---- whole documents ----

  lemma {:induction false} EscapeNoNewline(s: string)
    ensures '\n' !in Escape(s)
  {
    if s == [] {
    } else {
      EscapeNoNewline(s[1..]);
    }
  }

  lemma ItemIsLine(item: Item)
    requires GoodItem(item)
    ensures var line := PrintItem(item); '\n' !in line && line != [] && line[|line| - 1] != '\r'
  {
    if item.Entry? {
      var v := item.pair.value;
      if v.Str? { EscapeNoNewline(v.text); }
      if v.Int? {
        IntText(v.number);
        IntChars(v.number);
      }
    }
  }

  lemma IntChars(n: i64)
    ensures '\n' !in PrintInt(n) && '\r' !in PrintInt(n)
  {
    var d := Decimal.Print(if n < 0 then -(n as int) else n);
    assert forall i :: 0 <= i < |d| ==> Decimal.IsDigit(d[i]);
  }

  lemma {:induction false} PrintedLines(items: seq<Item>)
    requires forall i :: 0 <= i < |items| ==> GoodItem(items[i])
    ensures Lines(PrintItems(items)) == Map(items, PrintItem)
  {
    if items == [] {
    } else {
      var item, rest := items[0], items[1..];
      assert items == [item] + rest;
      assert forall i :: 0 <= i < |rest| ==> rest[i] == items[i + 1];
      hide *;
      PrintedLines(rest);
      PrintedLine(item, rest);
      MapCons(item, rest, PrintItem);
    }
  }

  /** Printing puts the first item on a line of its own. */
  lemma PrintedLine(item: Item, rest: seq<Item>)
    requires GoodItem(item)
    ensures Lines(PrintItems([item] + rest)) == [PrintItem(item)] + Lines(PrintItems(rest))
  {
    ItemIsLine(item);
    hide Lines, PrintItem, GoodItem;
    assert ([item] + rest)[1..] == rest;
    assert PrintItems([item] + rest) == PrintItem(item) + ['\n'] + PrintItems(rest);
    LinesCons(PrintItem(item), PrintItems(rest));
  }

  lemma LinesCons(line: string, rest: string)
    requires '\n' !in line && (line == [] || line[|line| - 1] != '\r')
    ensures Lines(line + ['\n'] + rest) == [line] + Lines(rest)
  {
    var s := line + ['\n'] + rest;
    Ids.BeforeSeparator(line, '\n', rest);
    assert s[|line| + 1..] == rest;
  }

  function Assemble(doc: Document, items: seq<Item>): Document
    decreases |items|
  {
    if items == [] then doc else Assemble(Absorb(doc, items[0]), items[1..])
  }

  lemma AbsorbItems(doc: Document, item: Item)
    requires item.Header? || doc.tables != []
    ensures ItemsOf(Absorb(doc, item)) == ItemsOf(doc) + [item]
  {
    var tables := doc.tables;
    var next := Absorb(doc, item).tables;
    var last := |next| - 1;
    match item {
      case Header(_, _) =>
        assert next[..last] == tables;
        assert TableItems(next) == TableItems(tables) + [item];
      case Entry(pair) =>
        assert next[..last] == tables[..last];
        EntriesSnoc(tables[last].pairs, pair);
        var headers := [Header(tables[last].name, tables[last].arrayElement)];
        assert TableItems(next) == TableItems(tables[..last]) + (headers + (Entries(tables[last].pairs) + [item]));
        assert TableItems(next) == TableItems(tables) + [item];
    }
  }

  lemma {:induction false} EntriesSnoc(pairs: seq<Pair>, pair: Pair)
    ensures Entries(pairs + [pair]) == Entries(pairs) + [Entry(pair)]
  {
    if pairs == [] {
    } else {
      assert (pairs + [pair])[1..] == pairs[1..] + [pair];
      EntriesSnoc(pairs[1..], pair);
    }
  }

  lemma AbsorbRoot(doc: Document, pair: Pair)
    requires doc.tables == []
    ensures ItemsOf(Absorb(doc, Entry(pair))) == ItemsOf(doc) + [Entry(pair)]
  {
    EntriesSnoc(doc.root, pair);
    assert TableItems([]) == [];
  }

  /** Assembling lists exactly the items absorbed, so different item lists make different documents. */
  lemma {:induction false} AssembleItems(doc: Document, items: seq<Item>)
    ensures ItemsOf(Assemble(doc, items)) == ItemsOf(doc) + items
    decreases |items|
  {
    hide ItemsOf, Absorb;
    if items == [] {
    } else {
      if doc.tables == [] && items[0].Entry? { AbsorbRoot(doc, items[0].pair); } else { AbsorbItems(doc, items[0]); }
      AssembleItems(Absorb(doc, items[0]), items[1..]);
      AppendAssociative(ItemsOf(doc), [items[0]], items[1..]);
      assert [items[0]] + items[1..] == items;
    }
  }

  lemma {:induction false} AssembleAppend(doc: Document, a: seq<Item>, b: seq<Item>)
    ensures Assemble(doc, a + b) == Assemble(Assemble(doc, a), b)
    decreases |a|
  {
    if a == [] {
      assert a + b == b;
    } else {
      assert (a + b)[1..] == a[1..] + b;
      AssembleAppend(Absorb(doc, a[0]), a[1..], b);
    }
  }

  lemma {:induction false} AssembleRoot(root: seq<Pair>, pairs: seq<Pair>)
    ensures Assemble(Document(root, []), Entries(pairs)) == Document(root + pairs, [])
    decreases |pairs|
  {
    if pairs == [] {
      assert root + pairs == root;
    } else {
      AssembleRoot(root + [pairs[0]], pairs[1..]);
      assert root + [pairs[0]] + pairs[1..] == root + pairs;
    }
  }

  lemma {:induction false} AssemblePairs(root: seq<Pair>, tables: seq<Table>, t: Table, pairs: seq<Pair>)
    ensures Assemble(Document(root, tables + [t]), Entries(pairs)) ==
            Document(root, tables + [t.(pairs := t.pairs + pairs)])
    decreases |pairs|
  {
    if pairs == [] {
      assert t.pairs + pairs == t.pairs;
    } else {
      var next := t.(pairs := t.pairs + [pairs[0]]);
      assert (tables + [t])[|tables| := next] == tables + [next];
      AssemblePairs(root, tables, next, pairs[1..]);
      assert t.pairs + [pairs[0]] + pairs[1..] == t.pairs + pairs;
    }
  }

  lemma {:induction false} AssembleTables(root: seq<Pair>, tables: seq<Table>)
    ensures Assemble(Document(root, []), TableItems(tables)) == Document(root, tables)
  {
    if tables == [] {
    } else {
      var front, t := tables[..|tables| - 1], tables[|tables| - 1];
      var head := [Header(t.name, t.arrayElement)];
      AssembleTables(root, front);
      AssembleAppend(Document(root, []), TableItems(front), head + Entries(t.pairs));
      AssembleAppend(Document(root, front), head, Entries(t.pairs));
      assert head[1..] == [];
      AssemblePairs(root, front, Table(t.name, t.arrayElement, []), t.pairs);
      assert [] + t.pairs == t.pairs;
      assert front + [t] == tables;
    }
  }

  lemma AssembleAll(doc: Document)
    ensures Assemble(EMPTY, ItemsOf(doc)) == doc
  {
    AssembleAppend(EMPTY, Entries(doc.root), TableItems(doc.tables));
    AssembleRoot([], doc.root);
    assert [] + doc.root == doc.root;
    AssembleTables(doc.root, doc.tables);
  }

  /** Non-blank lines assemble item by item; one that reads as another item leads to another document. */
  lemma {:induction false} LinesAssemble(lines: seq<string>, i: nat, doc: Document, items: seq<Item>)
    requires |lines| == |items|
    requires forall k :: 0 <= k < |lines| ==> !ParseLine(lines[k]).Blank?
    ensures ParseLines(lines, i, doc) == Ok(Assemble(doc, items)) <==>
            forall k :: 0 <= k < |lines| ==> ParseLine(lines[k]) == Line(items[k])
    decreases |lines|
  {
    if lines != [] && ParseLine(lines[0]).Line? {
      var item := ParseLine(lines[0]).item;
      if item == items[0] {
        LinesAssemble(lines[1..], i + 1, Absorb(doc, item), items[1..]);
        assert forall k :: 0 < k < |lines| ==> lines[k] == lines[1..][k - 1] && items[k] == items[1..][k - 1];
      } else if ParseLines(lines, i, doc).Ok? {
        var read := LinesItems(lines, i, doc);
        AssembleItems(doc, read);
        AssembleItems(doc, items);
        assert (ItemsOf(doc) + read)[|ItemsOf(doc)|] != (ItemsOf(doc) + items)[|ItemsOf(doc)|];
      }
    }
  }

  /** The items a successful read absorbed. */
  lemma {:induction false} LinesItems(lines: seq<string>, i: nat, doc: Document) returns (items: seq<Item>)
    requires ParseLines(lines, i, doc).Ok?
    requires forall k :: 0 <= k < |lines| ==> !ParseLine(lines[k]).Blank?
    ensures |items| == |lines| && ParseLines(lines, i, doc) == Ok(Assemble(doc, items))
    ensures forall k :: 0 <= k < |lines| ==> ParseLine(lines[k]) == Line(items[k])
    decreases |lines|
  {
    items := [];
    if lines == [] {
    } else {
      var item := ParseLine(lines[0]).item;
      var rest := LinesItems(lines[1..], i + 1, Absorb(doc, item));
      items := [item] + rest;
      assert items[1..] == rest;
      assert forall k :: 0 < k < |lines| ==> lines[k] == lines[1..][k - 1];
    }
  }

  lemma {:induction false} TableItemsGood(tables: seq<Table>)
    requires forall i :: 0 <= i < |tables| ==> GoodName(tables[i].name, tables[i].arrayElement)
    requires forall i, j :: 0 <= i < |tables| && 0 <= j < |tables[i].pairs| ==> GoodKey(tables[i].pairs[j].key)
    ensures forall k :: 0 <= k < |TableItems(tables)| ==> GoodItem(TableItems(tables)[k])
  {
    if tables == [] {
    } else {
      TableItemsGood(tables[..|tables| - 1]);
    }
  }

  predicate AllSafe(items: seq<Item>) { forall k :: 0 <= k < |items| ==> SafeItem(items[k]) }

  lemma SafeAppend(a: seq<Item>, b: seq<Item>)
    ensures AllSafe(a + b) <==> AllSafe(a) && AllSafe(b)
  {
    var s := a + b;
    assert forall k :: 0 <= k < |a| ==> s[k] == a[k];
    if AllSafe(s) {
      forall k | 0 <= k < |b| ensures SafeItem(b[k]) { assert s[|a| + k] == b[k]; }
    }
  }

  lemma EntriesSafe(pairs: seq<Pair>)
    ensures AllSafe(Entries(pairs)) <==> SafePairs(pairs)
  {
    var items := Entries(pairs);
    forall k | 0 <= k < |pairs| ensures SafeItem(items[k]) == SafeValue(pairs[k].value) {}
  }

  lemma {:induction false} TablesSafe(tables: seq<Table>)
    ensures AllSafe(TableItems(tables)) <==> SafeTables(tables)
  {
    if tables == [] {
    } else {
      var front, t := tables[..|tables| - 1], tables[|tables| - 1];
      var head := [Header(t.name, t.arrayElement)];
      TablesSafe(front);
      EntriesSafe(t.pairs);
      SafeAppend(head, Entries(t.pairs));
      SafeAppend(TableItems(front), head + Entries(t.pairs));
      assert SafeTables(tables) <==> SafeTables(front) && SafePairs(t.pairs);
    }
  }

  /**
   * A document with printable keys and names survives printing and reading exactly when no string value
   * has a '#' after an odd number of quotes.
   */
  lemma DocumentRoundTrip(doc: Document)
    requires GoodDocument(doc)
    ensures Parsed(PrintDocument(doc)) == Ok(doc) <==> SafeDocument(doc)
  {
    var items := ItemsOf(doc);
    TableItemsGood(doc.tables);
    PrintedLines(items);
    var lines := Lines(PrintDocument(doc));
    forall k | 0 <= k < |items|
      ensures !ParseLine(lines[k]).Blank? && (ParseLine(lines[k]) == Line(items[k]) <==> SafeItem(items[k]))
    {
      LineExactly(items[k]);
    }
    LinesAssemble(lines, 0, EMPTY, items);
    AssembleAll(doc);
    EntriesSafe(doc.root);
    TablesSafe(doc.tables);
    SafeAppend(Entries(doc.root), TableItems(doc.tables));
    assert AllSafe(items) <==> forall k :: 0 <= k < |lines| ==> ParseLine(lines[k]) == Line(items[k]);
  }
}
