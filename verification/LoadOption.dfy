/** `Boot####` and `BootOrder` payloads, byte for byte. */
module LoadOption {
  import opened Basics
  import opened Bytes

  // ---- UTF-16 ----

  function EncodeUnit(c: char): (r: seq<u16>)
    ensures 1 <= |r| <= 2
    ensures 0 in r <==> c == '\0'
  {
    var v := c as int;
    if v < 0x1_0000 then [v] else [0xD800 + (v - 0x1_0000) / 0x400, 0xDC00 + (v - 0x1_0000) % 0x400]
  }

  function EncodeUtf16(s: string): (r: seq<u16>) {
    if s == [] then [] else EncodeUnit(s[0]) + EncodeUtf16(s[1..])
  }

  predicate High(u: u16) { 0xD800 <= u < 0xDC00 }

  predicate Low(u: u16) { 0xDC00 <= u < 0xE000 }

  function Pair(high: u16, low: u16): int { 0x1_0000 + (high as int - 0xD800) * 0x400 + (low as int - 0xDC00) }

  /** `String::from_utf16`: a lone surrogate makes the whole text unreadable. */
  function DecodeUtf16(units: seq<u16>): (r: Option<string>) {
    if units == [] then Some([])
    else if !High(units[0]) && !Low(units[0]) then
      var rest :- DecodeUtf16(units[1..]);
      Some([units[0] as char] + rest)
    else if |units| >= 2 && High(units[0]) && Low(units[1]) then
      var rest :- DecodeUtf16(units[2..]);
      Some([Pair(units[0], units[1]) as char] + rest)
    else None
  }

  lemma {:induction false} Utf16RoundTrip(s: string)
    ensures DecodeUtf16(EncodeUtf16(s)) == Some(s)
  {
    if s == [] {
    } else {
      Utf16RoundTrip(s[1..]);
      var e := EncodeUnit(s[0]);
      assert EncodeUtf16(s)[|e|..] == EncodeUtf16(s[1..]);
      assert [s[0]] + s[1..] == s;
      if |e| == 2 {
        var w := s[0] as int - 0x1_0000;
        assert w / 0x400 * 0x400 + w % 0x400 == w;
      }
    }
  }

  lemma {:induction false} Utf16Exact(units: seq<u16>)
    requires DecodeUtf16(units).Some?
    ensures EncodeUtf16(DecodeUtf16(units).value) == units
    ensures 0 !in units <==> '\0' !in DecodeUtf16(units).value
    decreases |units|
  {
    if units == [] {
    } else {
      var n := if High(units[0]) then 2 else 1;
      Utf16Exact(units[n..]);
      var s := DecodeUtf16(units).value;
      assert s[1..] == DecodeUtf16(units[n..]).value;
      assert units == units[..n] + units[n..];
      if n == 2 {
        var w := Pair(units[0], units[1]) - 0x1_0000;
        assert w / 0x400 == units[0] as int - 0xD800 && w % 0x400 == units[1] as int - 0xDC00;
      }
      assert EncodeUnit(s[0]) == units[..n];
    }
  }

  lemma {:induction false} Utf16NulFree(s: string)
    ensures 0 !in EncodeUtf16(s) <==> '\0' !in s
  {
    if s == [] {
    } else {
      Utf16NulFree(s[1..]);
    }
  }

  // ---- arrays of 16-bit numbers ----

  function UnitsBytes(units: seq<u16>): (r: seq<byte>)
    ensures |r| == 2 * |units|
  {
    if units == [] then [] else Le(units[0], 2) + UnitsBytes(units[1..])
  }

  lemma {:induction false} UnitsAppend(a: seq<u16>, b: seq<u16>)
    ensures UnitsBytes(a + b) == UnitsBytes(a) + UnitsBytes(b)
  {
    if a == [] {
      assert a + b == b;
    } else {
      assert (a + b)[1..] == a[1..] + b;
      UnitsAppend(a[1..], b);
    }
  }

  lemma UnitRoundTrip(u: u16)
    ensures U16(Le(u, 2)) == u
  {
    Capacities();
    LeRoundTrip(u, 2);
  }

  // ---- EFI_LOAD_OPTION ----

  datatype LoadOption = LoadOption(attributes: u32, description: string, filePathList: seq<byte>,
      optionalData: seq<byte>)

  datatype LoadOptError = Short | BadDescription | LengthOverflow

  function Layout(lo: LoadOption): (r: Result<seq<byte>, LoadOptError>) {
    if |lo.filePathList| > 0xFFFF then Err(LengthOverflow)
    else Ok(Le(lo.attributes, 4) + Le(|lo.filePathList|, 2) + UnitsBytes(EncodeUtf16(lo.description)) + [0, 0]
            + lo.filePathList + lo.optionalData)
  }

  /** Units from byte `i` up to the terminating zero, and where the bytes after it start. */
  function Units(buf: seq<byte>, i: nat): (r: Result<(seq<u16>, nat), LoadOptError>)
    ensures r.Ok? ==> i < r.value.1 <= |buf|
    decreases |buf| - i
  {
    if i + 2 > |buf| then Err(BadDescription)
    else
      var u := U16(buf[i..i + 2]);
      if u == 0 then Ok(([], i + 2))
      else
        var (rest, j) :- Units(buf, i + 2);
        Ok(([u] + rest, j))
  }

  function Parsed(buf: seq<byte>): (r: Result<LoadOption, LoadOptError>) {
    if |buf| < 6 then Err(Short)
    else
      var (units, i) :- Units(buf, 6);
      var description := DecodeUtf16(units);
      if description.None? then Err(BadDescription)
      else
        var end := i + U16(buf[4..6]);
        if end > |buf| then Err(Short)
        else Ok(LoadOption(U32(buf[0..4]), description.value, buf[i..end], buf[end..]))
  }

  /** A read that continues after `units` have been read. */
  function After(units: seq<u16>, r: Result<(seq<u16>, nat), LoadOptError>): Result<(seq<u16>, nat), LoadOptError> {
    match r
    case Ok((rest, j)) => Ok((units + rest, j))
    case Err(e) => Err(e)
  }

  lemma AfterNone(r: Result<(seq<u16>, nat), LoadOptError>)
    ensures After([], r) == r
  {
    if r.Ok? { assert [] + r.value.0 == r.value.0; }
  }

  lemma AfterNext(units: seq<u16>, u: u16, r: Result<(seq<u16>, nat), LoadOptError>)
    ensures After(units + [u], r) == After(units, After([u], r))
  {
    if r.Ok? { assert units + [u] + r.value.0 == units + ([u] + r.value.0); }
  }

  method Encode(lo: LoadOption) returns (r: Result<seq<byte>, LoadOptError>)
    ensures r == Layout(lo)
  {
    hide EncodeUtf16, Le;
    if |lo.filePathList| > 0xFFFF { return Err(LengthOverflow); }
    var out := Le(lo.attributes, 4);
    out := out + Le(|lo.filePathList|, 2);
    var units := EncodeUtf16(lo.description);
    ghost var head := out;
    for k := 0 to |units|
      invariant out == head + UnitsBytes(units[..k])
    {
      assert units[..k + 1] == units[..k] + [units[k]];
      UnitsAppend(units[..k], [units[k]]);
      out := out + Le(units[k], 2);
    }
    assert units[..|units|] == units;
    out := out + [0, 0];
    out := out + lo.filePathList;
    out := out + lo.optionalData;
    r := Ok(out);
  }

  method Decode(buf: seq<byte>) returns (r: Result<LoadOption, LoadOptError>)
    ensures r == Parsed(buf)
  {
    if |buf| < 4 { return Err(Short); }
    var attributes := U32(buf[0..4]);
    if |buf| < 6 { return Err(Short); }
    var listLength := U16(buf[4..6]);
    var i := 6;
    var units: seq<u16> := [];
    AfterNone(Units(buf, 6));
    while true
      invariant 6 <= i <= |buf|
      invariant Units(buf, 6) == After(units, Units(buf, i))
      decreases |buf| - i
    {
      if i + 2 > |buf| { return Err(BadDescription); }
      var u := U16(buf[i..i + 2]);
      i := i + 2;
      if u == 0 {
        assert units + [] == units;
        break;
      }
      AfterNext(units, u, Units(buf, i));
      units := units + [u];
    }
    var description := DecodeUtf16(units);
    if description.None? { return Err(BadDescription); }
    var end := i + listLength;
    if end > |buf| { return Err(Short); }
    r := Ok(LoadOption(attributes, description.value, buf[i..end], buf[end..]));
  }

  lemma ZeroUnit()
    ensures Le(0, 2) == [0, 0]
  {
  }

  /** Reading back units written before a terminator. */
  lemma {:induction false} UnitsWritten(pre: seq<byte>, units: seq<u16>, rest: seq<byte>)
    requires 0 !in units
    ensures var buf := pre + UnitsBytes(units) + [0, 0] + rest;
            Units(buf, |pre|) == Ok((units, |pre| + 2 * |units| + 2))
    decreases |units|
  {
    var buf := pre + UnitsBytes(units) + [0, 0] + rest;
    ZeroUnit();
    hide Le, FromLe;
    if units == [] {
      UnitRoundTrip(0);
      assert buf[|pre|..|pre| + 2] == [0, 0];
    } else {
      var next := pre + Le(units[0], 2);
      assert buf == next + UnitsBytes(units[1..]) + [0, 0] + rest;
      UnitsWritten(next, units[1..], rest);
      assert buf[|pre|..|pre| + 2] == Le(units[0], 2);
      UnitRoundTrip(units[0]);
      assert [units[0]] + units[1..] == units;
    }
  }

  /** What was read is what is there. */
  lemma {:induction false} UnitsRead(buf: seq<byte>, i: nat)
    requires Units(buf, i).Ok?
    ensures var (units, j) := Units(buf, i).value;
            buf[i..j] == UnitsBytes(units) + [0, 0] && 0 !in units
    decreases |buf| - i
  {
    LeExact(buf[i..i + 2]);
    if U16(buf[i..i + 2]) != 0 {
      UnitsRead(buf, i + 2);
      var (units, j) := Units(buf, i).value;
      assert units[1..] == Units(buf, i + 2).value.0;
      assert buf[i..j] == buf[i..i + 2] + buf[i + 2..j];
    } else {
      assert Le(0, 2) == [0, 0];
    }
  }

  /** For every buffer that is accepted, encoding the result gives the very same bytes back. */
  lemma EncodeAfterDecode(buf: seq<byte>)
    requires Parsed(buf).Ok?
    ensures Layout(Parsed(buf).value) == Ok(buf)
    ensures '\0' !in Parsed(buf).value.description
  {
    var lo := Parsed(buf).value;
    var (units, i) := Units(buf, 6).value;
    UnitsRead(buf, 6);
    Utf16Exact(units);
    LeExact(buf[0..4]);
    LeExact(buf[4..6]);
    var end := i + U16(buf[4..6]);
    assert |lo.filePathList| == U16(buf[4..6]);
    assert UnitsBytes(EncodeUtf16(lo.description)) + [0, 0] == buf[6..i];
    Pieces(buf, i, end);
    var head := Le(lo.attributes, 4) + Le(|lo.filePathList|, 2);
    assert head == buf[0..4] + buf[4..6];
    var text := UnitsBytes(EncodeUtf16(lo.description));
    assert head + text + [0, 0] == head + (text + [0, 0]);
  }

  lemma Pieces(buf: seq<byte>, i: nat, end: nat)
    requires 6 <= i <= end <= |buf|
    ensures buf == buf[0..4] + buf[4..6] + buf[6..i] + buf[i..end] + buf[end..]
  {
  }

  lemma HeadRead(attributes: u32, n: u16, rest: seq<byte>)
    ensures var buf := Le(attributes, 4) + Le(n, 2) + rest; U32(buf[0..4]) == attributes && U16(buf[4..6]) == n
  {
    var buf := Le(attributes, 4) + Le(n, 2) + rest;
    assert buf[0..4] == Le(attributes, 4) && buf[4..6] == Le(n, 2);
    Capacities();
    LeRoundTrip(attributes, 4);
    LeRoundTrip(n, 2);
  }

  lemma TailRead(text: seq<byte>, list: seq<byte>, data: seq<byte>)
    ensures var buf := text + (list + data);
            buf[|text|..|text| + |list|] == list && buf[|text| + |list|..] == data
  {
  }

  lemma ParsedLayout(lo: LoadOption)
    requires Layout(lo).Ok? && '\0' !in lo.description
    ensures Parsed(Layout(lo).value) == Ok(lo)
  {
    hide EncodeUtf16, DecodeUtf16, UnitsBytes, Units, Le, FromLe;
    var buf := Layout(lo).value;
    var units, tail := EncodeUtf16(lo.description), lo.filePathList + lo.optionalData;
    var pre := Le(lo.attributes, 4) + Le(|lo.filePathList|, 2);
    var text := pre + UnitsBytes(units) + [0, 0];
    Utf16NulFree(lo.description);
    Utf16RoundTrip(lo.description);
    UnitsWritten(pre, units, tail);
    assert buf == text + tail;
    assert buf == pre + (UnitsBytes(units) + [0, 0] + tail);
    HeadRead(lo.attributes, |lo.filePathList|, UnitsBytes(units) + [0, 0] + tail);
    TailRead(text, lo.filePathList, lo.optionalData);
    assert |text| == 6 + 2 * |units| + 2;
  }

  /** An encodable option survives the round trip exactly when its description holds no NUL. */
  lemma DecodeAfterEncode(lo: LoadOption)
    requires Layout(lo).Ok?
    ensures Parsed(Layout(lo).value) == Ok(lo) <==> '\0' !in lo.description
  {
    if '\0' !in lo.description {
      ParsedLayout(lo);
    } else if Parsed(Layout(lo).value) == Ok(lo) {
      EncodeAfterDecode(Layout(lo).value);
    }
  }

  // ---- byte by byte ----

  /** Characters of the basic plane are their own unit; the others make the pair that RFC 2781 section 2.1 gives. */
  lemma UnitsSpell(c: char, u: seq<u16>)
    ensures EncodeUnit(c) == u <==>
            || (|u| == 1 && u[0] as int == c as int)
            || (|u| == 2 && 0xD800 <= u[0] < 0xDC00 && 0xDC00 <= u[1] < 0xE000
                && c as int == 0x1_0000 + (u[0] as int - 0xD800) * 0x400 + (u[1] as int - 0xDC00))
  {
    var v := c as int;
    if v >= 0x1_0000 {
      var w := v - 0x1_0000;
      assert w == w / 0x400 * 0x400 + w % 0x400;
    }
  }

  lemma {:induction false} UnitsPlaced(units: seq<u16>, k: nat)
    requires k < |units|
    ensures NumberAt(UnitsBytes(units), 2 * k, 2) == units[k]
  {
    hide Le, FromLe;
    var b, rest := UnitsBytes(units), UnitsBytes(units[1..]);
    assert b == Le(units[0], 2) + rest;
    if k == 0 {
      UnitRoundTrip(units[0]);
      assert b[0..2] == Le(units[0], 2);
    } else {
      UnitsPlaced(units[1..], k - 1);
      assert b[2..|b|] == rest;
      hide NumberAt, UnitsBytes;
      NumberInside(b, 2, |b|, 2 * (k - 1), 2);
    }
  }

  /**
   * Where the fields of a load option lie (UEFI Specification 2.10 section 3.1.3): attributes, the length of the path
   * list, the description with its terminator, the path list, and what is left.
   */
  lemma FieldsPlaced(lo: LoadOption)
    ensures Layout(lo) == Err(LengthOverflow) <==> |lo.filePathList| > 0xFFFF
    ensures Layout(lo).Ok? <==> |lo.filePathList| <= 0xFFFF
    ensures Layout(lo).Ok? ==>
            var b, units := Layout(lo).value, EncodeUtf16(lo.description);
            var text := 6 + 2 * |units|;
            && |b| == text + 2 + |lo.filePathList| + |lo.optionalData|
            && NumberAt(b, 0, 4) == lo.attributes && NumberAt(b, 4, 2) == |lo.filePathList|
            && b[6..text] == UnitsBytes(units) && b[text..text + 2] == [0, 0]
            && b[text + 2..text + 2 + |lo.filePathList|] == lo.filePathList
            && b[text + 2 + |lo.filePathList|..] == lo.optionalData
  {
    hide EncodeUtf16, Le, FromLe, UnitsBytes, NumberAt;
    if Layout(lo).Ok? {
      var attributes, length := Le(lo.attributes, 4), Le(|lo.filePathList|, 2);
      var text := UnitsBytes(EncodeUtf16(lo.description));
      Slices(attributes + length, text, lo.filePathList, lo.optionalData);
      NumberFirst(attributes, length, text + ([0, 0] + (lo.filePathList + lo.optionalData)), lo.attributes,
          |lo.filePathList|);
    }
  }

  /** Unit `k` of the description is the little-endian number at byte `6 + 2 * k`. */
  lemma DescriptionPlaced(lo: LoadOption, k: nat)
    requires Layout(lo).Ok? && k < |EncodeUtf16(lo.description)|
    ensures 8 + 2 * k <= |Layout(lo).value|
    ensures NumberAt(Layout(lo).value, 6 + 2 * k, 2) == EncodeUtf16(lo.description)[k]
  {
    FieldsPlaced(lo);
    var units, b := EncodeUtf16(lo.description), Layout(lo).value;
    hide EncodeUtf16, Layout, UnitsBytes, NumberAt;
    UnitsPlaced(units, k);
    NumberInside(b, 6, 6 + 2 * |units|, 2 * k, 2);
  }

  lemma Slices(head: seq<byte>, text: seq<byte>, list: seq<byte>, data: seq<byte>)
    requires |head| == 6
    ensures var b, n := head + text + [0, 0] + list + data, 6 + |text|;
            && |b| == n + 2 + |list| + |data| && b[6..n] == text && b[n..n + 2] == [0, 0]
            && b[n + 2..n + 2 + |list|] == list && b[n + 2 + |list|..] == data
            && b == head + (text + ([0, 0] + (list + data)))
  {
  }

  lemma NumberFirst(a: seq<byte>, l: seq<byte>, rest: seq<byte>, attributes: u32, length: u16)
    requires a == Le(attributes, 4) && l == Le(length, 2)
    ensures NumberAt(a + l + rest, 0, 4) == attributes && NumberAt(a + l + rest, 4, 2) == length
  {
    HeadRead(attributes, length, rest);
  }

  /** A buffer is accepted exactly when it is the layout of some option with a description free of NULs. */
  lemma AcceptedExactly(buf: seq<byte>)
    ensures Parsed(buf).Ok? <==> exists lo :: Layout(lo) == Ok(buf) && '\0' !in lo.description
  {
    hide Layout, Parsed;
    if Parsed(buf).Ok? { EncodeAfterDecode(buf); }
    if lo :| Layout(lo) == Ok(buf) && '\0' !in lo.description { DecodeAfterEncode(lo); }
  }

  /** The description ends here: unit `k` of it is there, and zero. */
  predicate EndsAt(buf: seq<byte>, k: nat) { 8 + 2 * k <= |buf| && NumberAt(buf, 6 + 2 * k, 2) == 0 }

  /** The units `m` to `k` of a description that does not end before `k`. */
  function UnitsFrom(buf: seq<byte>, m: nat, k: nat): (r: seq<u16>)
    requires m <= k && 6 + 2 * k <= |buf|
    decreases k - m
  {
    if m == k then [] else [U16(buf[6 + 2 * m..8 + 2 * m])] + UnitsFrom(buf, m + 1, k)
  }

  lemma {:induction false} UnitsEnd(buf: seq<byte>, m: nat, k: nat)
    requires m <= k && EndsAt(buf, k) && forall j :: m <= j < k ==> !EndsAt(buf, j)
    ensures Units(buf, 6 + 2 * m) == Ok((UnitsFrom(buf, m, k), 8 + 2 * k))
    decreases k - m
  {
    hide FromLe;
    if m == k {
    } else {
      assert !EndsAt(buf, m);
      UnitsEnd(buf, m + 1, k);
    }
  }

  lemma {:induction false} UnitsEndless(buf: seq<byte>, m: nat)
    requires forall j :: m <= j ==> !EndsAt(buf, j)
    ensures Units(buf, 6 + 2 * m) == Err(BadDescription)
    decreases |buf| - m
  {
    hide FromLe;
    if 8 + 2 * m > |buf| {
    } else {
      assert !EndsAt(buf, m);
      UnitsEndless(buf, m + 1);
    }
  }

  /** What a buffer whose description ends at unit `k` is read as, or why it is refused. */
  lemma DecodedExactly(buf: seq<byte>, k: nat)
    requires EndsAt(buf, k) && forall j :: 0 <= j < k ==> !EndsAt(buf, j)
    ensures var text, from, length := DecodeUtf16(UnitsFrom(buf, 0, k)), 8 + 2 * k, NumberAt(buf, 4, 2);
            Parsed(buf) ==
            if text.None? then Err(BadDescription)
            else if from + length > |buf| then Err(LoadOptError.Short)
            else Ok(LoadOption(U32(buf[0..4]), text.value, buf[from..from + length], buf[from + length..]))
  {
    UnitsEnd(buf, 0, k);
    hide Units, UnitsFrom, DecodeUtf16, FromLe;
  }

  /** A buffer too short for the fixed fields, or whose description never ends. */
  lemma NeverEnded(buf: seq<byte>)
    requires forall k :: !EndsAt(buf, k)
    ensures Parsed(buf) == if |buf| < 6 then Err(LoadOptError.Short) else Err(BadDescription)
  {
    UnitsEndless(buf, 0);
  }

  // ---- BootOrder ----

  function OrderOf(buf: seq<byte>): (r: seq<u16>) {
    if |buf| < 2 then [] else [U16(buf[..2])] + OrderOf(buf[2..])
  }

  method EncodeBootOrder(order: seq<u16>) returns (out: seq<byte>)
    ensures out == UnitsBytes(order)
  {
    hide Le;
    out := [];
    for k := 0 to |order|
      invariant out == UnitsBytes(order[..k])
    {
      assert order[..k + 1] == order[..k] + [order[k]];
      UnitsAppend(order[..k], [order[k]]);
      out := out + Le(order[k], 2);
    }
    assert order[..|order|] == order;
  }

  lemma {:induction false} OrderRoundTrip(order: seq<u16>)
    ensures OrderOf(UnitsBytes(order)) == order
  {
    if order == [] {
    } else {
      UnitRoundTrip(order[0]);
      assert UnitsBytes(order)[..2] == Le(order[0], 2) && UnitsBytes(order)[2..] == UnitsBytes(order[1..]);
      OrderRoundTrip(order[1..]);
    }
  }

  /** Re-encoding what was read gives the same bytes, less a stray odd byte. */
  lemma {:induction false} OrderExact(buf: seq<byte>)
    ensures UnitsBytes(OrderOf(buf)) == buf[..|buf| - |buf| % 2]
    decreases |buf|
  {
    if |buf| >= 2 {
      OrderExact(buf[2..]);
      LeExact(buf[..2]);
      assert OrderOf(buf)[1..] == OrderOf(buf[2..]);
      assert buf[..|buf| - |buf| % 2] == buf[..2] + buf[2..][..|buf| - 2 - |buf| % 2];
    }
  }
}
