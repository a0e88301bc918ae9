/**
 The string printer of spa-json-dump, against a decoder written from section 7 of RFC 8259.
 Text is a sequence of bytes; bytes from 0x80 up are passed through by both sides.
 */
module JsonString {
  import opened Common

  type Byte = b: nat | b < 0x100

  const QUOTE: Byte := 0x22
  const SLASH: Byte := 0x2F
  const BACKSLASH: Byte := 0x5C

  // ---------------------------------------------------------------- the printer

  /** A hexadecimal digit as printed by %x. */
  function HexDigit(d: nat): Byte
    requires d < 16
  {
    if d < 10 then 0x30 + d else 0x61 + d - 10
  }

  /** The letter after the backslash for the five control characters that have one. */
  function ShortEscape(v: Byte): Option<Byte> {
    match v
    case 0x0A => Some(0x6E)
    case 0x0D => Some(0x72)
    case 0x08 => Some(0x62)
    case 0x09 => Some(0x74)
    case 0x0C => Some(0x66)
    case _ => None
  }

  function PrintedByte(v: Byte): seq<Byte> {
    if ShortEscape(v).Some? then [BACKSLASH, ShortEscape(v).value]
    else if v == BACKSLASH || v == QUOTE then [BACKSLASH, v]
    else if 0 < v < 0x20 then [BACKSLASH, 0x75, 0x30, 0x30, HexDigit(v / 16), HexDigit(v % 16)]
    else [v]
  }

  function PrintedBody(val: seq<Byte>): seq<Byte> {
    if val == [] then [] else PrintedByte(val[0]) + PrintedBody(val[1..])
  }

  function Printed(val: seq<Byte>): seq<Byte> {
    [QUOTE] + (PrintedBody(val) + [QUOTE])
  }

  // ---------------------------------------------------------------- the decoder

  function HexValue(b: Byte): Option<nat> {
    if 0x30 <= b <= 0x39 then Some(b - 0x30)
    else if 0x41 <= b <= 0x46 then Some(b - 0x41 + 10)
    else if 0x61 <= b <= 0x66 then Some(b - 0x61 + 10)
    else None
  }

  /** The four hexadecimal digits behind a \u at the start of the text. */
  function CodeUnit(s: seq<Byte>): (r: Option<nat>)
    ensures r.Some? ==> r.value < 0x10000 && |s| >= 6
  {
    if |s| < 6 || s[0] != BACKSLASH || s[1] != 0x75 then None
    else
      var a, b, c, d := HexValue(s[2]), HexValue(s[3]), HexValue(s[4]), HexValue(s[5]);
      if a.None? || b.None? || c.None? || d.None? then None
      else Some(a.value * 0x1000 + b.value * 0x100 + c.value * 0x10 + d.value)
  }

  function Utf8(code: nat): seq<Byte>
    requires code < 0x110000
  {
    if code < 0x80 then [code]
    else if code < 0x800 then [0xC0 + code / 0x40, 0x80 + code % 0x40]
    else if code < 0x10000 then [0xE0 + code / 0x1000, 0x80 + code / 0x40 % 0x40, 0x80 + code % 0x40]
    else [0xF0 + code / 0x40000, 0x80 + code / 0x1000 % 0x40, 0x80 + code / 0x40 % 0x40, 0x80 + code % 0x40]
  }

  /** What an escape stands for and how long it is. */
  datatype Escape = Escape(bytes: seq<Byte>, length: nat)

  function UnicodeEscape(s: seq<Byte>): (r: Option<Escape>)
    ensures r.Some? ==> 2 <= r.value.length <= |s|
  {
    var first := CodeUnit(s);
    if first.None? || 0xDC00 <= first.value < 0xE000 then None
    else if 0xD800 <= first.value < 0xDC00 then
      var second := CodeUnit(s[6..]);
      if second.None? || !(0xDC00 <= second.value < 0xE000) then None
      else Some(Escape(Utf8(0x10000 + (first.value - 0xD800) * 0x400 + (second.value - 0xDC00)), 12))
    else Some(Escape(Utf8(first.value), 6))
  }

  /** The escape at the start of the text, which is a backslash. */
  function Unescaped(s: seq<Byte>): (r: Option<Escape>)
    ensures r.Some? ==> 2 <= r.value.length <= |s|
  {
    if |s| < 2 then None
    else
      match s[1]
      case 0x22 => Some(Escape([QUOTE], 2))
      case 0x5C => Some(Escape([BACKSLASH], 2))
      case 0x2F => Some(Escape([SLASH], 2))
      case 0x62 => Some(Escape([0x08], 2))
      case 0x66 => Some(Escape([0x0C], 2))
      case 0x6E => Some(Escape([0x0A], 2))
      case 0x72 => Some(Escape([0x0D], 2))
      case 0x74 => Some(Escape([0x09], 2))
      case 0x75 => UnicodeEscape(s)
      case _ => None
  }

  function Prepend(front: seq<Byte>, rest: Option<seq<Byte>>): Option<seq<Byte>> {
    if rest.Some? then Some(front + rest.value) else None
  }

  /** The characters up to the closing quote, which must be the end of the text. `strict` refuses raw control bytes. */
  function DecodedBody(s: seq<Byte>, strict: bool): Option<seq<Byte>>
    decreases |s|
  {
    if s == [] then None
    else if s[0] == QUOTE then if |s| == 1 then Some([]) else None
    else if s[0] == BACKSLASH then
      var e := Unescaped(s);
      if e.None? then None else Prepend(e.value.bytes, DecodedBody(s[e.value.length..], strict))
    else if s[0] < 0x20 && strict then None
    else Prepend([s[0]], DecodedBody(s[1..], strict))
  }

  /** A string of section 7 of RFC 8259; not strict: raw control bytes are let through. */
  function Decoded(s: seq<Byte>, strict: bool): Option<seq<Byte>> {
    if s == [] || s[0] != QUOTE then None else DecodedBody(s[1..], strict)
  }

  // ---------------------------------------------------------------- one byte

  lemma HexRoundTrip(d: nat)
    requires d < 16
    ensures HexValue(HexDigit(d)) == Some(d)
  {
  }

  lemma ControlEscape(v: Byte, rest: seq<Byte>)
    requires 0 < v < 0x20
    ensures Unescaped([BACKSLASH, 0x75, 0x30, 0x30, HexDigit(v / 16), HexDigit(v % 16)] + rest) == Some(Escape([v], 6))
  {
    var s := [BACKSLASH, 0x75, 0x30, 0x30, HexDigit(v / 16), HexDigit(v % 16)] + rest;
    HexRoundTrip(v / 16);
    HexRoundTrip(v % 16);
    assert CodeUnit(s) == Some(v);
  }

  /** Decoding undoes the printing of one byte, whatever follows it, unless the byte is NUL and control bytes are refused. */
  lemma ByteRoundTrip(v: Byte, rest: seq<Byte>, strict: bool)
    ensures DecodedBody(PrintedByte(v) + rest, strict)
         == if v == 0 && strict then None else Prepend([v], DecodedBody(rest, strict))
  {
    var s := PrintedByte(v) + rest;
    assert s[|PrintedByte(v)|..] == rest;
    if ShortEscape(v).None? && 0 < v < 0x20 {
      ControlEscape(v, rest);
    }
  }

  // ---------------------------------------------------------------- whole strings

  lemma {:induction false} BodyRoundTrip(val: seq<Byte>, strict: bool)
    ensures DecodedBody(PrintedBody(val) + [QUOTE], strict) == if 0 in val && strict then None else Some(val)
  {
    if val == [] {
      assert PrintedBody(val) + [QUOTE] == [QUOTE];
    } else {
      BodyRoundTrip(val[1..], strict);
      ByteRoundTrip(val[0], PrintedBody(val[1..]) + [QUOTE], strict);
      assert PrintedBody(val) + [QUOTE] == PrintedByte(val[0]) + (PrintedBody(val[1..]) + [QUOTE]);
      assert val == [val[0]] + val[1..];
    }
  }

  /** A conforming decoder returns the printed bytes exactly when they contain no NUL, and otherwise refuses the text. */
  lemma RoundTripIff(val: seq<Byte>)
    ensures Decoded(Printed(val), true) == Some(val) <==> 0 !in val
    ensures 0 in val ==> Decoded(Printed(val), true) == None
  {
    BodyRoundTrip(val, true);
    assert Printed(val)[1..] == PrintedBody(val) + [QUOTE];
  }

  /** Different byte strings print differently, with or without NUL bytes. */
  lemma PrintingIsInjective(a: seq<Byte>, b: seq<Byte>)
    requires Printed(a) == Printed(b)
    ensures a == b
  {
    BodyRoundTrip(a, false);
    BodyRoundTrip(b, false);
    assert Printed(a)[1..] == PrintedBody(a) + [QUOTE];
    assert Printed(b)[1..] == PrintedBody(b) + [QUOTE];
  }

  ghost predicate NoControlBytes(s: seq<Byte>) {
    forall i :: 0 <= i < |s| ==> s[i] >= 0x20
  }

  lemma NoControlBytesConcat(a: seq<Byte>, b: seq<Byte>)
    ensures NoControlBytes(a + b) <==> NoControlBytes(a) && NoControlBytes(b)
  {
    assert forall i :: 0 <= i < |a| ==> (a + b)[i] == a[i];
    assert forall i :: 0 <= i < |b| ==> (a + b)[|a| + i] == b[i];
  }

  /** The text holds a raw control byte only where the string had a NUL. */
  lemma {:induction false} NoControlBytesIff(val: seq<Byte>)
    ensures NoControlBytes(PrintedBody(val)) <==> 0 !in val
  {
    if val != [] {
      var first := PrintedByte(val[0]);
      NoControlBytesIff(val[1..]);
      NoControlBytesConcat(first, PrintedBody(val[1..]));
      assert first[0] == 0 <==> val[0] == 0;
      assert 0 in val <==> val[0] == 0 || 0 in val[1..];
    }
  }

  /** Quotes and backslashes appear in the body only as part of an escape. */
  predicate Escaped(body: seq<Byte>)
    decreases |body|
  {
    if body == [] then true
    else if body[0] == BACKSLASH then |body| >= 2 && Escaped(body[2..])
    else body[0] != QUOTE && Escaped(body[1..])
  }

  lemma {:induction false} PlainIsEscaped(plain: seq<Byte>, rest: seq<Byte>)
    requires QUOTE !in plain && BACKSLASH !in plain && Escaped(rest)
    ensures Escaped(plain + rest)
  {
    if plain == [] {
      assert plain + rest == rest;
    } else {
      PlainIsEscaped(plain[1..], rest);
      assert (plain + rest)[1..] == plain[1..] + rest;
    }
  }

  lemma PrintedByteIsEscaped(v: Byte, rest: seq<Byte>)
    requires Escaped(rest)
    ensures Escaped(PrintedByte(v) + rest)
  {
    var p := PrintedByte(v);
    if p[0] == BACKSLASH {
      PlainIsEscaped(p[2..], rest);
      assert (p + rest)[2..] == p[2..] + rest;
    } else {
      PlainIsEscaped(p, rest);
    }
  }

  lemma {:induction false} BodyIsEscaped(val: seq<Byte>)
    ensures Escaped(PrintedBody(val))
  {
    if val != [] {
      BodyIsEscaped(val[1..]);
      PrintedByteIsEscaped(val[0], PrintedBody(val[1..]));
    }
  }

  // ---------------------------------------------------------------- the code

  method PrintByte(v: Byte) returns (out: seq<Byte>)
    ensures out == PrintedByte(v)
  {
    match v {
      case 0x0A => out := [BACKSLASH, 0x6E];
      case 0x0D => out := [BACKSLASH, 0x72];
      case 0x08 => out := [BACKSLASH, 0x62];
      case 0x09 => out := [BACKSLASH, 0x74];
      case 0x0C => out := [BACKSLASH, 0x66];
      case 0x5C => out := [BACKSLASH, v];
      case 0x22 => out := [BACKSLASH, v];
      case _ =>
        if 0 < v < 0x20 {
          out := [BACKSLASH, 0x75, 0x30, 0x30, HexDigit(v / 16), HexDigit(v % 16)];
        } else {
          out := [v];
        }
    }
  }

  /** encode_string: the text a conforming decoder maps back to the bytes, unless one of them is NUL. */
  method EncodeString(val: seq<Byte>) returns (out: seq<Byte>)
    ensures out == Printed(val)
    ensures 0 !in val ==> Decoded(out, true) == Some(val)
  {
    out := [QUOTE];
    var i := 0;
    while i < |val|
      invariant 0 <= i <= |val|
      invariant out + PrintedBody(val[i..]) + [QUOTE] == Printed(val)
    {
      var printed := PrintByte(val[i]);
      assert PrintedBody(val[i..]) == printed + PrintedBody(val[i..][1..]);
      assert val[i..][1..] == val[i + 1..];
      assert out + (printed + PrintedBody(val[i + 1..])) + [QUOTE] == out + printed + PrintedBody(val[i + 1..]) + [QUOTE];
      out := out + printed;
      i := i + 1;
    }
    out := out + [QUOTE];
    RoundTripIff(val);
  }
}
