/** UTF-8 (RFC 3629 section 3): the byte form of every string the boot manager stores or parses. */
module Utf8 {
  import opened Basics

  predicate IsScalar(v: int) {
    0 <= v < 0xD800 || 0xE000 <= v < 0x11_0000
  }

  predicate IsAscii(s: string) {
    forall i :: 0 <= i < |s| ==> s[i] as int < 0x80
  }

  function EncodeChar(c: char): (r: seq<byte>)
    ensures 1 <= |r| <= 4
    ensures |r| == 1 <==> c as int < 0x80
  {
    var v := c as int;
    if v < 0x80 then [v]
    else if v < 0x800 then [0xC0 + v / 64, 0x80 + v % 64]
    else if v < 0x1_0000 then [0xE0 + v / 64 / 64, 0x80 + v / 64 % 64, 0x80 + v % 64]
    else [0xF0 + v / 64 / 64 / 64, 0x80 + v / 64 / 64 % 64, 0x80 + v / 64 % 64, 0x80 + v % 64]
  }

  function Encode(s: string): (r: seq<byte>) {
    if s == [] then [] else EncodeChar(s[0]) + Encode(s[1..])
  }

  predicate Tail(b: byte) { 0x80 <= b < 0xC0 }

  /** The payload a lead or continuation byte contributes above `base`. */
  function Payload(b: byte, base: int): (r: int) { b as int - base }

  /** The value of a two-, three- or four-byte sequence. */
  function Two(b: seq<byte>): int
    requires |b| >= 2
  {
    Payload(b[0], 0xC0) * 64 + Payload(b[1], 0x80)
  }

  function Three(b: seq<byte>): int
    requires |b| >= 3
  {
    Payload(b[0], 0xE0) * 4096 + Payload(b[1], 0x80) * 64 + Payload(b[2], 0x80)
  }

  function Four(b: seq<byte>): int
    requires |b| >= 4
  {
    Payload(b[0], 0xF0) * 262144 + Payload(b[1], 0x80) * 4096 + Payload(b[2], 0x80) * 64 + Payload(b[3], 0x80)
  }

  /** The first scalar value of `b` and its width; `None` on any ill-formed prefix. */
  function DecodeChar(b: seq<byte>): (r: Option<(char, nat)>)
    ensures r.Some? ==> 1 <= r.value.1 <= |b|
  {
    if |b| >= 1 && b[0] < 0x80 then Some((b[0] as char, 1))
    else if |b| >= 2 && 0xC2 <= b[0] < 0xE0 && Tail(b[1]) then Some((Two(b) as char, 2))
    else if |b| >= 3 && 0xE0 <= b[0] < 0xF0 && Tail(b[1]) && Tail(b[2]) then
      if Three(b) >= 0x800 && IsScalar(Three(b)) then Some((Three(b) as char, 3)) else None
    else if |b| >= 4 && 0xF0 <= b[0] < 0xF5 && Tail(b[1]) && Tail(b[2]) && Tail(b[3]) then
      if Four(b) >= 0x1_0000 && IsScalar(Four(b)) then Some((Four(b) as char, 4)) else None
    else None
  }

  /** Only a character of one byte has a byte below 0x80. */
  lemma DecodedBytes(b: seq<byte>)
    requires DecodeChar(b).Some?
    ensures var n := DecodeChar(b).value.1;
            && (n == 1 <==> b[0] < 0x80)
            && (n == 1 ==> DecodeChar(b).value.0 as int == b[0])
            && (n > 1 ==> forall i :: 0 <= i < n ==> b[i] >= 0x80)
  {
    hide Two, Three, Four, IsScalar;
  }

  /** `str::from_utf8`: the whole buffer or nothing. */
  function Decode(b: seq<byte>): (r: Option<string>) {
    if b == [] then Some([])
    else
      var (c, n) :- DecodeChar(b);
      var rest :- Decode(b[n..]);
      Some([c] + rest)
  }

  // ---- well-formed buffers ----

  predicate WellFormed(b: seq<byte>) { Decode(b).Some? }

  /** A character is decided by its own bytes. */
  lemma DecodeCharLocal(a: seq<byte>, b: seq<byte>)
    requires DecodeChar(a).Some? && DecodeChar(a).value.1 <= |b|
    requires forall i :: 0 <= i < DecodeChar(a).value.1 ==> a[i] == b[i]
    ensures DecodeChar(b) == DecodeChar(a)
  {
    hide IsScalar;
  }

  /** A character of several bytes is beyond ASCII. */
  lemma WideChars(b: seq<byte>)
    requires DecodeChar(b).Some? && DecodeChar(b).value.1 > 1
    ensures DecodeChar(b).value.0 as int >= 0x80
  {
  }

  /** A well-formed buffer starts with a character, and is well-formed after it. */
  lemma WellFormedUnfold(b: seq<byte>)
    requires b != []
    ensures WellFormed(b) <==> DecodeChar(b).Some? && WellFormed(b[DecodeChar(b).value.1..])
  {
    hide DecodeChar;
  }

  lemma WellFormedHead(c: byte, b: seq<byte>)
    requires c < 0x80
    ensures WellFormed([c] + b) <==> WellFormed(b)
  {
    WellFormedUnfold([c] + b);
    assert DecodeChar([c] + b) == Some((c as char, 1)) && ([c] + b)[1..] == b;
  }

  /** An ASCII byte never lies inside a character, so a well-formed buffer may be cut at it. */
  lemma {:induction false} WellFormedSplit(a: seq<byte>, c: byte, b: seq<byte>)
    requires c < 0x80 && WellFormed(a + ([c] + b))
    ensures WellFormed(a) && WellFormed(b)
    decreases |a|
  {
    var whole := a + ([c] + b);
    if a == [] {
      assert whole == [c] + b;
      WellFormedHead(c, b);
    } else {
      WellFormedUnfold(whole);
      WellFormedUnfold(a);
      DecodedBytes(whole);
      hide DecodeChar, WellFormed;
      var n := DecodeChar(whole).value.1;
      assert whole[|a|] == c;
      DecodeCharLocal(whole, a);
      assert whole[n..] == a[n..] + ([c] + b);
      WellFormedSplit(a[n..], c, b);
    }
  }

  lemma {:induction false} EncodedWellFormed(s: string)
    ensures WellFormed(Encode(s))
  {
    RoundTrip(s);
  }

  /** One character of each width. */
  lemma Widths()
    ensures EncodeChar('A') == [0x41] && EncodeChar(0xE9 as char) == [0xC3, 0xA9]
    ensures EncodeChar(0x20AC as char) == [0xE2, 0x82, 0xAC] && EncodeChar(0x1_F600 as char) == [0xF0, 0x9F, 0x98, 0x80]
  {
  }

  /** Base-64 digits put back together. */
  lemma Digits(v: nat)
    ensures v / 64 * 64 + v % 64 == v
    ensures v / 64 / 64 * 4096 + v / 64 % 64 * 64 + v % 64 == v
    ensures v / 64 / 64 / 64 * 262144 + v / 64 / 64 % 64 * 4096 + v / 64 % 64 * 64 + v % 64 == v
  {
    var q1 := v / 64;
    var q2 := q1 / 64;
    var q3 := q2 / 64;
    assert v == 64 * q1 + v % 64 && q1 == 64 * q2 + q1 % 64 && q2 == 64 * q3 + q2 % 64;
  }

  lemma CharRoundTrip(c: char, rest: seq<byte>)
    ensures DecodeChar(EncodeChar(c) + rest) == Some((c, |EncodeChar(c)|))
  {
    var v := c as int;
    var b := EncodeChar(c) + rest;
    Digits(v);
    if v < 0x80 {
    } else if v < 0x800 {
      assert b[0] == 0xC0 + v / 64 && b[1] == 0x80 + v % 64;
      assert Two(b) == v;
    } else if v < 0x1_0000 {
      assert b[0] == 0xE0 + v / 64 / 64 && b[1] == 0x80 + v / 64 % 64 && b[2] == 0x80 + v % 64;
      assert Three(b) == v;
    } else {
      assert b[0] == 0xF0 + v / 64 / 64 / 64 && b[1] == 0x80 + v / 64 / 64 % 64;
      assert b[2] == 0x80 + v / 64 % 64 && b[3] == 0x80 + v % 64;
      assert Four(b) == v;
    }
  }

  lemma {:induction false} RoundTrip(s: string)
    ensures Decode(Encode(s)) == Some(s)
  {
    hide DecodeChar, EncodeChar;
    if s == [] {
    } else {
      CharRoundTrip(s[0], Encode(s[1..]));
      RoundTrip(s[1..]);
      DecodeUnfold(EncodeChar(s[0]), Encode(s[1..]));
      assert [s[0]] + s[1..] == s;
    }
  }

  /** Base-64 digits taken apart again. */
  lemma DigitsBack(a: nat, b: nat, c: nat, d: nat)
    requires b < 64 && c < 64 && d < 64
    ensures (c * 64 + d) / 64 == c && (c * 64 + d) % 64 == d
    ensures var v := b * 4096 + c * 64 + d; v / 64 / 64 == b && v / 64 % 64 == c && v % 64 == d
    ensures var v := a * 262144 + b * 4096 + c * 64 + d;
            v / 64 / 64 / 64 == a && v / 64 / 64 % 64 == b && v / 64 % 64 == c && v % 64 == d
  {
    var v := a * 262144 + b * 4096 + c * 64 + d;
    assert v / 64 == a * 4096 + b * 64 + c && v / 64 / 64 == a * 64 + b;
    var w := b * 4096 + c * 64 + d;
    assert w / 64 == b * 64 + c;
  }

  lemma TwoExact(b: seq<byte>)
    requires |b| >= 2 && 0xC2 <= b[0] < 0xE0 && Tail(b[1])
    ensures 0x80 <= Two(b) < 0x800 && EncodeChar(Two(b) as char) == [b[0], b[1]]
  {
    DigitsBack(0, 0, b[0] - 0xC0, b[1] - 0x80);
  }

  lemma ThreeExact(b: seq<byte>)
    requires |b| >= 3 && 0xE0 <= b[0] < 0xF0 && Tail(b[1]) && Tail(b[2])
    requires 0x800 <= Three(b) && IsScalar(Three(b))
    ensures Three(b) < 0x1_0000 && EncodeChar(Three(b) as char) == [b[0], b[1], b[2]]
  {
    DigitsBack(0, b[0] - 0xE0, b[1] - 0x80, b[2] - 0x80);
  }

  lemma FourExact(b: seq<byte>)
    requires |b| >= 4 && 0xF0 <= b[0] < 0xF5 && Tail(b[1]) && Tail(b[2]) && Tail(b[3])
    requires 0x1_0000 <= Four(b) && IsScalar(Four(b))
    ensures EncodeChar(Four(b) as char) == [b[0], b[1], b[2], b[3]]
  {
    DigitsBack(b[0] - 0xF0, b[1] - 0x80, b[2] - 0x80, b[3] - 0x80);
  }

  /** A character is read from its own encoding alone: no overlong form, no surrogate. */
  lemma DecodedCharExact(b: seq<byte>)
    requires DecodeChar(b).Some?
    ensures EncodeChar(DecodeChar(b).value.0) == b[..DecodeChar(b).value.1]
  {
    hide EncodeChar, Two, Three, Four, IsScalar;
    var n := DecodeChar(b).value.1;
    if n == 1 {
      AsciiExact(b[0]);
    } else if n == 2 {
      TwoExact(b);
    } else if n == 3 {
      ThreeExact(b);
    } else {
      FourExact(b);
    }
  }

  lemma AsciiExact(b: byte)
    requires b < 0x80
    ensures EncodeChar(b as char) == [b]
  {
  }

  /** What decodes is the encoding of its text, and of no other. */
  lemma {:induction false} DecodedExact(b: seq<byte>)
    requires Decode(b).Some?
    ensures Encode(Decode(b).value) == b
    decreases |b|
  {
    hide DecodeChar, EncodeChar;
    if b == [] {
    } else {
      DecodedCharExact(b);
      var (c, n) := DecodeChar(b).value;
      var rest := Decode(b[n..]).value;
      DecodedExact(b[n..]);
      assert Decode(b).value == [c] + rest && ([c] + rest)[1..] == rest;
      assert b == b[..n] + b[n..];
    }
  }

  /** Decoding what starts with one whole character. */
  lemma DecodeUnfold(e: seq<byte>, rest: seq<byte>)
    requires e != [] && DecodeChar(e + rest).Some? && DecodeChar(e + rest).value.1 == |e|
    ensures Decode(e + rest) ==
            if Decode(rest).None? then None else Some([DecodeChar(e + rest).value.0] + Decode(rest).value)
  {
    hide DecodeChar;
    assert (e + rest)[|e|..] == rest;
  }

  /** ASCII text is exactly the text whose bytes are its characters, one for one. */
  lemma {:induction false} AsciiBytes(s: string)
    ensures |Encode(s)| >= |s|
    ensures |Encode(s)| == |s| <==> IsAscii(s)
    ensures IsAscii(s) ==> forall i :: 0 <= i < |s| ==> Encode(s)[i] == s[i] as int
  {
    if s == [] {
    } else {
      AsciiBytes(s[1..]);
      assert IsAscii(s) <==> s[0] as int < 0x80 && IsAscii(s[1..]) by {
        if s[0] as int < 0x80 && IsAscii(s[1..]) {
          forall i | 0 <= i < |s| ensures s[i] as int < 0x80 {
            if i > 0 { assert s[i] == s[1..][i - 1]; }
          }
        }
        if IsAscii(s) {
          forall i | 0 <= i < |s[1..]| ensures s[1..][i] as int < 0x80 { assert s[1..][i] == s[i + 1]; }
        }
      }
    }
  }
}
