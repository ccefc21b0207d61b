/** The JSON reader: what each production consumes and yields, and the cursor that implements it. */
module Json {
  import opened Basics

  /** A number keeps its lexeme: its floating-point value is not part of the model. */
  datatype Json =
    | Null
    | Bool(value: bool)
    | Num(lexeme: seq<byte>)
    | Str(text: string)
    | Arr(items: seq<Json>)
    | Obj(members: map<string, Json>)

  datatype JsonError = JsonError

  const TAB: byte := 0x09
  const LF: byte := 0x0A
  const CR: byte := 0x0D
  const SPACE: byte := 0x20
  const QUOTE: byte := 0x22
  const COMMA: byte := 0x2C
  const MINUS: byte := 0x2D
  const COLON: byte := 0x3A
  const LBRACKET: byte := 0x5B
  const BACKSLASH: byte := 0x5C
  const RBRACKET: byte := 0x5D
  const LETTER_F: byte := 0x66
  const LETTER_N: byte := 0x6E
  const LETTER_T: byte := 0x74
  const LETTER_U: byte := 0x75
  const LBRACE: byte := 0x7B
  const RBRACE: byte := 0x7D

  const TRUE_TEXT: seq<byte> := [0x74, 0x72, 0x75, 0x65]
  const FALSE_TEXT: seq<byte> := [0x66, 0x61, 0x6C, 0x73, 0x65]
  const NULL_TEXT: seq<byte> := [0x6E, 0x75, 0x6C, 0x6C]

  predicate IsSpace(c: byte) { c == SPACE || c == TAB || c == LF || c == CR }

  predicate IsDigit(c: byte) { 0x30 <= c <= 0x39 }

  /** Bytes the number scanner swallows: digits, '.', 'e', 'E', '+', '-'. */
  predicate IsNumberByte(c: byte) { IsDigit(c) || c == 0x2E || c == 0x65 || c == 0x45 || c == 0x2B || c == MINUS }

  function HexValue(d: byte): (r: Option<nat>)
    ensures r.Some? ==> r.value < 16
  {
    if 0x30 <= d <= 0x39 then Some(d as int - 0x30)
    else if 0x61 <= d <= 0x66 then Some(d as int - 0x61 + 10)
    else if 0x41 <= d <= 0x46 then Some(d as int - 0x41 + 10)
    else None
  }

  /** `char::from_u32`, with the replacement character for surrogates. */
  function ScalarOrReplacement(v: nat): char
    requires v < 0x1_0000
  {
    if 0xD800 <= v < 0xE000 then 0xFFFD as char else v as char
  }

  // ---- what each production consumes ----

  function SkipWs(s: seq<byte>): (r: seq<byte>)
    ensures |r| <= |s|
    ensures r != [] ==> !IsSpace(r[0])
  {
    if s != [] && IsSpace(s[0]) then SkipWs(s[1..]) else s
  }

  /** What an escape letter stands for, `\u` apart. */
  function SimpleEscape(e: byte): Option<char> {
    if e == QUOTE then Some('\"')
    else if e == BACKSLASH then Some('\\')
    else if e == 0x2F then Some('/')
    else if e == LETTER_N then Some('\n')
    else if e == LETTER_T then Some('\t')
    else if e == 0x72 then Some('\r')
    else None
  }

  function HexFour(s: seq<byte>): (r: Option<nat>)
    requires |s| >= 4
    ensures r.Some? ==> r.value < 0x1_0000
  {
    var a :- HexValue(s[0]);
    var b :- HexValue(s[1]);
    var c :- HexValue(s[2]);
    var d :- HexValue(s[3]);
    Some(((a * 16 + b) * 16 + c) * 16 + d)
  }

  /** After a backslash. */
  function ParseEscape(s: seq<byte>): (r: Option<(char, seq<byte>)>)
    ensures r.Some? ==> |r.value.1| < |s|
  {
    if s == [] then None
    else if SimpleEscape(s[0]).Some? then Some((SimpleEscape(s[0]).value, s[1..]))
    else if s[0] == LETTER_U && |s| >= 5 then
      var v :- HexFour(s[1..]);
      Some((ScalarOrReplacement(v), s[5..]))
    else None
  }

  /** String contents up to and including the closing quote. */
  function ParseChars(s: seq<byte>, acc: string): (r: Option<(string, seq<byte>)>)
    ensures r.Some? ==> |r.value.1| < |s|
    decreases |s|
  {
    if s == [] then None
    else if s[0] == QUOTE then Some((acc, s[1..]))
    else if s[0] == BACKSLASH then
      var (c, rest) :- ParseEscape(s[1..]);
      ParseChars(rest, acc + [c])
    else ParseChars(s[1..], acc + [s[0] as char])
  }

  function ParseString(s: seq<byte>): (r: Option<(string, seq<byte>)>)
    ensures r.Some? ==> |r.value.1| < |s|
  {
    if s != [] && s[0] == QUOTE then ParseChars(s[1..], "") else None
  }

  /** Length of the longest prefix of number bytes. */
  function NumberRun(s: seq<byte>): (n: nat)
    ensures n <= |s|
    ensures forall i :: 0 <= i < n ==> IsNumberByte(s[i])
    ensures n < |s| ==> !IsNumberByte(s[n])
  {
    if s != [] && IsNumberByte(s[0]) then 1 + NumberRun(s[1..]) else 0
  }

  function DigitRun(s: seq<byte>): (n: nat)
    ensures n <= |s|
  {
    if s != [] && IsDigit(s[0]) then 1 + DigitRun(s[1..]) else 0
  }

  /** The lexemes floating-point parsing accepts among those the scanner can deliver. */
  predicate IsFloat(lexeme: seq<byte>) {
    var s := if lexeme != [] && lexeme[0] == MINUS then lexeme[1..] else lexeme;
    var whole := DigitRun(s);
    var t := s[whole..];
    var fraction := if t != [] && t[0] == 0x2E then DigitRun(t[1..]) else 0;
    var u := if t != [] && t[0] == 0x2E then t[1 + fraction..] else t;
    whole + fraction > 0 && (u == [] || IsExponent(u))
  }

  predicate IsExponent(u: seq<byte>)
    requires u != []
  {
    var v := if |u| > 1 && (u[1] == 0x2B || u[1] == MINUS) then u[2..] else u[1..];
    (u[0] == 0x65 || u[0] == 0x45) && v != [] && DigitRun(v) == |v|
  }

  predicate StartsNumber(c: byte) { c == MINUS || IsDigit(c) }

  function ParseLiteral(s: seq<byte>): (r: Option<(Json, seq<byte>)>)
    ensures r.Some? ==> |r.value.1| < |s|
  {
    if TRUE_TEXT <= s then Some((Bool(true), s[4..]))
    else if FALSE_TEXT <= s then Some((Bool(false), s[5..]))
    else if NULL_TEXT <= s then Some((Null, s[4..]))
    else None
  }

  function ParseNumber(s: seq<byte>): (r: Option<(Json, seq<byte>)>)
    requires s != [] && StartsNumber(s[0])
    ensures r.Some? ==> |r.value.1| < |s|
  {
    var n := NumberRun(s);
    if IsFloat(s[..n]) then Some((Num(s[..n]), s[n..])) else None
  }

  /** Every value consumes at least one byte, which is what makes the mutual recursion end. */
  function ParseValue(s: seq<byte>): (r: Option<(Json, seq<byte>)>)
    ensures r.Some? ==> |r.value.1| < |s|
    decreases |s|, 1
  {
    var t := SkipWs(s);
    if t == [] then None
    else if t[0] == LBRACE then
      var u := SkipWs(t[1..]);
      if u != [] && u[0] == RBRACE then Some((Obj(map[]), u[1..]))
      else
        var (members, rest) :- ParseMembers(u, map[]);
        Some((Obj(members), rest))
    else if t[0] == LBRACKET then
      var u := SkipWs(t[1..]);
      if u != [] && u[0] == RBRACKET then Some((Arr([]), u[1..]))
      else
        var (items, rest) :- ParseItems(u, []);
        Some((Arr(items), rest))
    else if t[0] == QUOTE then
      var (text, rest) :- ParseString(t);
      Some((Str(text), rest))
    else if t[0] == LETTER_T || t[0] == LETTER_F || t[0] == LETTER_N then ParseLiteral(t)
    else if StartsNumber(t[0]) then ParseNumber(t)
    else None
  }

  /** Array elements up to and including the closing bracket. */
  function ParseItems(s: seq<byte>, acc: seq<Json>): (r: Option<(seq<Json>, seq<byte>)>)
    ensures r.Some? ==> |r.value.1| < |s|
    decreases |s|, 2
  {
    var (v, t) :- ParseValue(s);
    var u := SkipWs(t);
    if u == [] then None
    else if u[0] == COMMA then ParseItems(u[1..], acc + [v])
    else if u[0] == RBRACKET then Some((acc + [v], u[1..]))
    else None
  }

  /** Object members up to and including the closing brace; a later duplicate key wins. */
  function ParseMembers(s: seq<byte>, acc: map<string, Json>): (r: Option<(map<string, Json>, seq<byte>)>)
    ensures r.Some? ==> |r.value.1| < |s|
    decreases |s|, 2
  {
    var (key, t) :- ParseString(SkipWs(s));
    var u := SkipWs(t);
    if u == [] || u[0] != COLON then None
    else
      var (v, w) :- ParseValue(u[1..]);
      var x := SkipWs(w);
      if x == [] then None
      else if x[0] == COMMA then ParseMembers(x[1..], acc[key := v])
      else if x[0] == RBRACE then Some((acc[key := v], x[1..]))
      else None
  }

  function Parsed(input: seq<byte>): (r: Result<Json, JsonError>) {
    var v := ParseValue(SkipWs(input));
    if v.None? || SkipWs(v.value.1) != [] then Err(JsonError.JsonError) else Ok(v.value.0)
  }

  // ---- the bracketed productions ----

  lemma ArrayUnfold(t: seq<byte>)
    requires t != [] && t[0] == LBRACKET
    ensures var u := SkipWs(t[1..]);
            ParseValue(t) == if u != [] && u[0] == RBRACKET then Some((Arr([]), u[1..]))
                             else if ParseItems(u, []).None? then None
                             else Some((Arr(ParseItems(u, []).value.0), ParseItems(u, []).value.1))
  {
    assert SkipWs(t) == t;
  }

  lemma ObjectUnfold(t: seq<byte>)
    requires t != [] && t[0] == LBRACE
    ensures var u := SkipWs(t[1..]);
            ParseValue(t) == if u != [] && u[0] == RBRACE then Some((Obj(map[]), u[1..]))
                             else if ParseMembers(u, map[]).None? then None
                             else Some((Obj(ParseMembers(u, map[]).value.0), ParseMembers(u, map[]).value.1))
  {
    assert SkipWs(t) == t;
  }

  // ---- the cursor ----

  class Parser {
    const b: seq<byte>
    var i: nat

    constructor (input: seq<byte>)
      ensures b == input && i == 0
      ensures Valid()
    {
      b, i := input, 0;
    }

    predicate Valid()
      reads this
    {
      i <= |b|
    }

    /** What is left to read. */
    function Rest(): seq<byte>
      reads this
      requires Valid()
    {
      b[i..]
    }

    /** A production's answer, and the cursor where it left it, are those of the specification. */
    ghost predicate Answers<T>(r: Result<T, JsonError>, spec: Option<(T, seq<byte>)>)
      reads this
      requires Valid()
    {
      match spec
      case None => r.Err?
      case Some((v, rest)) => r == Ok(v) && Rest() == rest
    }

    method Peek() returns (c: Option<byte>)
      requires Valid()
      ensures c == if Rest() == [] then None else Some(Rest()[0])
    {
      c := if i < |b| then Some(b[i]) else None;
    }

    method Bump() returns (c: Option<byte>)
      requires Valid()
      modifies this
      ensures Valid() && i == (if old(Rest()) == [] then old(i) else old(i) + 1)
      ensures old(Rest()) == [] ==> c.None? && Rest() == []
      ensures old(Rest()) != [] ==> c == Some(old(Rest())[0]) && Rest() == old(Rest())[1..]
    {
      c := if i < |b| then Some(b[i]) else None;
      if c.Some? { i := i + 1; }
    }

    method SkipSpace()
      requires Valid()
      modifies this
      ensures Valid() && i >= old(i)
      ensures Rest() == SkipWs(old(Rest()))
    {
      while i < |b| && IsSpace(b[i])
        invariant Valid() && i >= old(i)
        invariant SkipWs(Rest()) == SkipWs(old(Rest()))
        decreases |b| - i
      {
        assert b[i..][1..] == b[i + 1..];
        i := i + 1;
      }
    }

    method Expect(c: byte) returns (r: Result<(), JsonError>)
      requires Valid()
      modifies this
      ensures Valid() && i >= old(i)
      ensures r.Ok? <==> old(Rest()) != [] && old(Rest())[0] == c
      ensures r.Ok? ==> Rest() == old(Rest())[1..] && i == old(i) + 1
    {
      var got := Bump();
      r := if got == Some(c) then Ok(()) else Err(JsonError.JsonError);
    }

    method Value() returns (r: Result<Json, JsonError>)
      requires Valid()
      modifies this
      ensures Valid() && i >= old(i)
      ensures r.Ok? ==> i > old(i)
      ensures Answers(r, ParseValue(old(Rest())))
      decreases |b| - i, 3
    {
      SkipSpace();
      var c := Peek();
      match c {
        case None =>
          r := Err(JsonError.JsonError);
        case Some(first) =>
          if first == LBRACE {
            r := Object();
          } else if first == LBRACKET {
            r := Array();
          } else if first == QUOTE {
            var text := String();
            r := if text.Ok? then Ok(Str(text.value)) else Err(JsonError.JsonError);
          } else if first == LETTER_T || first == LETTER_F {
            r := Boolean();
          } else if first == LETTER_N {
            r := NullWord();
          } else if StartsNumber(first) {
            r := Number();
          } else {
            r := Err(JsonError.JsonError);
          }
      }
    }

    method Object() returns (r: Result<Json, JsonError>)
      requires Valid() && Rest() != [] && Rest()[0] == LBRACE
      modifies this
      ensures Valid() && i >= old(i)
      ensures Answers(r, ParseValue(old(Rest())))
      decreases |b| - i, 2
    {
      hide ParseValue, ParseString, SkipWs;
      ObjectUnfold(Rest());
      var mark := Expect(LBRACE);
      SkipSpace();
      var next := Peek();
      if next == Some(RBRACE) {
        i := i + 1;
        return Ok(Obj(map[]));
      }
      ghost var inside := Rest();
      var members: map<string, Json> := map[];
      while true
        invariant Valid() && i > old(i)
        invariant ParseMembers(inside, map[]) == ParseMembers(Rest(), members)
        decreases |b| - i
      {
        SkipSpace();
        var key := String();
        if key.Err? { return Err(JsonError.JsonError); }
        SkipSpace();
        var colon := Expect(COLON);
        if colon.Err? { return Err(JsonError.JsonError); }
        var val := Value();
        if val.Err? { return Err(JsonError.JsonError); }
        members := members[key.value := val.value];
        SkipSpace();
        var sep := Bump();
        if sep == Some(COMMA) { continue; }
        if sep == Some(RBRACE) { break; }
        return Err(JsonError.JsonError);
      }
      r := Ok(Obj(members));
    }

    method Array() returns (r: Result<Json, JsonError>)
      requires Valid() && Rest() != [] && Rest()[0] == LBRACKET
      modifies this
      ensures Valid() && i >= old(i)
      ensures Answers(r, ParseValue(old(Rest())))
      decreases |b| - i, 2
    {
      hide ParseValue, ParseString, SkipWs;
      ArrayUnfold(Rest());
      var mark := Expect(LBRACKET);
      SkipSpace();
      var next := Peek();
      if next == Some(RBRACKET) {
        i := i + 1;
        return Ok(Arr([]));
      }
      ghost var inside := Rest();
      var out: seq<Json> := [];
      while true
        invariant Valid() && i > old(i)
        invariant ParseItems(inside, []) == ParseItems(Rest(), out)
        decreases |b| - i
      {
        var v := Value();
        if v.Err? { return Err(JsonError.JsonError); }
        out := out + [v.value];
        SkipSpace();
        var sep := Bump();
        if sep == Some(COMMA) { continue; }
        if sep == Some(RBRACKET) { break; }
        return Err(JsonError.JsonError);
      }
      r := Ok(Arr(out));
    }

    method String() returns (r: Result<string, JsonError>)
      requires Valid()
      modifies this
      ensures Valid() && i >= old(i)
      ensures Answers(r, ParseString(old(Rest())))
      decreases |b| - i, 1
    {
      var mark := Expect(QUOTE);
      if mark.Err? { return Err(JsonError.JsonError); }
      ghost var inside := Rest();
      var s := "";
      while true
        invariant Valid() && i > old(i)
        invariant ParseChars(inside, "") == ParseChars(Rest(), s)
        decreases |b| - i
      {
        var c := Bump();
        if c == Some(QUOTE) { break; }
        if c == Some(BACKSLASH) {
          var e := Escape();
          if e.Err? { return Err(JsonError.JsonError); }
          s := s + [e.value];
        } else if c.Some? {
          s := s + [c.value as char];
        } else {
          return Err(JsonError.JsonError);
        }
      }
      r := Ok(s);
    }

    /** The arm of the string loop that follows a backslash. */
    method Escape() returns (r: Result<char, JsonError>)
      requires Valid()
      modifies this
      ensures Valid() && i >= old(i)
      ensures Answers(r, ParseEscape(old(Rest())))
      decreases |b| - i, 0
    {
      hide HexPrefix, HexFour, HexValue;
      var e := Bump();
      if e.None? { return Err(JsonError.JsonError); }
      if SimpleEscape(e.value).Some? { return Ok(SimpleEscape(e.value).value); }
      if e.value != LETTER_U { return Err(JsonError.JsonError); }
      ghost var digits := Rest();
      var cp: nat := 0;
      HexPrefixNone();
      for k := 0 to 4
        invariant Valid() && i == old(i) + 1 + k && k <= |digits|
        invariant Rest() == digits[k..]
        invariant HexPrefix(digits[..k]) == Some(cp)
        invariant k == 0 ==> cp == 0
        invariant k == 1 ==> cp < 16
        invariant k == 2 ==> cp < 256
        invariant k == 3 ==> cp < 4096
        invariant k == 4 ==> cp < 65536
      {
        var d := Bump();
        if d.None? { return Err(JsonError.JsonError); }
        HexPrefixNext(digits, k);
        var h := HexValue(d.value);
        if h.None? {
          HexPrefixBad(digits, k);
          return Err(JsonError.JsonError);
        }
        cp := cp * 16 + h.value;
      }
      HexPrefixFour(digits);
      r := Ok(ScalarOrReplacement(cp));
    }

    method Number() returns (r: Result<Json, JsonError>)
      requires Valid() && Rest() != [] && StartsNumber(Rest()[0])
      modifies this
      ensures Valid() && i >= old(i)
      ensures Answers(r, ParseNumber(old(Rest())))
    {
      var start := i;
      ghost var text := Rest();
      ScanNumber();
      var lexeme := b[start..i];
      assert lexeme == text[..NumberRun(text)] && Rest() == text[NumberRun(text)..];
      r := if IsFloat(lexeme) then Ok(Num(lexeme)) else Err(JsonError.JsonError);
    }

    /** Past an optional minus sign and every number byte after it. */
    method ScanNumber()
      requires Valid() && Rest() != []
      modifies this
      ensures Valid() && i == old(i) + NumberRun(old(Rest()))
    {
      ghost var start := i;
      assert b[i..][1..] == b[i + 1..];
      if b[i] == MINUS { i := i + 1; }
      while i < |b| && IsNumberByte(b[i])
        invariant Valid() && i >= start
        invariant (i - start) + NumberRun(b[i..]) == NumberRun(b[start..])
        decreases |b| - i
      {
        assert b[i..][1..] == b[i + 1..];
        i := i + 1;
      }
    }

    method Boolean() returns (r: Result<Json, JsonError>)
      requires Valid() && Rest() != [] && (Rest()[0] == LETTER_T || Rest()[0] == LETTER_F)
      modifies this
      ensures Valid() && i >= old(i)
      ensures Answers(r, ParseLiteral(old(Rest())))
    {
      if TRUE_TEXT <= b[i..] {
        i := i + 4;
        r := Ok(Bool(true));
      } else if FALSE_TEXT <= b[i..] {
        i := i + 5;
        r := Ok(Bool(false));
      } else {
        r := Err(JsonError.JsonError);
      }
    }

    method NullWord() returns (r: Result<Json, JsonError>)
      requires Valid() && Rest() != [] && Rest()[0] == LETTER_N
      modifies this
      ensures Valid() && i >= old(i)
      ensures Answers(r, ParseLiteral(old(Rest())))
    {
      if NULL_TEXT <= b[i..] {
        i := i + 4;
        r := Ok(Null);
      } else {
        r := Err(JsonError.JsonError);
      }
    }
  }

  /** The number a run of hex digits denotes. */
  function HexPrefix(s: seq<byte>): Option<nat> {
    if s == [] then Some(0)
    else
      var front :- HexPrefix(s[..|s| - 1]);
      var d :- HexValue(s[|s| - 1]);
      Some(front * 16 + d)
  }

  lemma HexPrefixNone()
    ensures HexPrefix([]) == Some(0)
  {
  }

  lemma HexPrefixNext(s: seq<byte>, k: nat)
    requires k < |s| && HexPrefix(s[..k]).Some?
    ensures HexPrefix(s[..k + 1]) == if HexValue(s[k]).None? then None
                                     else Some(HexPrefix(s[..k]).value * 16 + HexValue(s[k]).value)
  {
    assert s[..k + 1][..k] == s[..k];
  }

  lemma HexPrefixFour(s: seq<byte>)
    requires |s| >= 4
    ensures HexPrefix(s[..4]) == HexFour(s)
  {
    assert s[..4][..3] == s[..3] && s[..3][..2] == s[..2] && s[..2][..1] == s[..1] && s[..1][..0] == [];
    assert HexPrefix([]) == Some(0);
    assert HexPrefix(s[..1]) == HexValue(s[0]);
    assert HexValue(s[0]).Some? && HexValue(s[1]).Some? ==>
        HexPrefix(s[..2]) == Some(HexValue(s[0]).value * 16 + HexValue(s[1]).value);
    assert HexValue(s[0]).None? || HexValue(s[1]).None? ==> HexPrefix(s[..2]).None?;
  }

  lemma HexPrefixBad(s: seq<byte>, k: nat)
    requires k < 4 && k < |s| && HexValue(s[k]).None?
    ensures |s| >= 4 ==> HexFour(s).None?
  {
  }

  /** `parse`: one value, white space around it, nothing after. */
  method Parse(input: seq<byte>) returns (r: Result<Json, JsonError>)
    ensures r == Parsed(input)
  {
    var p := new Parser(input);
    assert p.Rest() == input;
    p.SkipSpace();
    var v := p.Value();
    if v.Err? { return Err(JsonError.JsonError); }
    p.SkipSpace();
    if p.i != |p.b| { return Err(JsonError.JsonError); }
    r := v;
  }
}
