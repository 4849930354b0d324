/** Escaping text for a JSON string literal, and reading such a literal back. */
module JsonEscape {
  import opened ByteStrings

  const QUOTE: Octet := 0x22
  const BACKSLASH: Octet := 0x5C

  function HexDigit(n: int): Octet
    requires 0 <= n < 16
  {
    if n < 10 then 0x30 + n else 0x61 + n - 10
  }

  /** "\u" and four hexadecimal digits. */
  function UnicodeEscape(c: Octet): Octets {
    [BACKSLASH, 0x75, HexDigit(0), HexDigit(0), HexDigit(c / 16), HexDigit(c % 16)]
  }

  function EscapeByte(c: Octet): Octets {
    if c == QUOTE then [BACKSLASH, QUOTE]
    else if c == BACKSLASH then [BACKSLASH, BACKSLASH]
    else if c == 0x0A then [BACKSLASH, 0x6E]
    else if c == 0x0D then [BACKSLASH, 0x72]
    else if c == 0x09 then [BACKSLASH, 0x74]
    else if c < 0x20 then UnicodeEscape(c)
    else [c]
  }

  function Escaped(s: Octets): Octets {
    if s == [] then [] else EscapeByte(s[0]) + Escaped(s[1..])
  }

  method Escape(s: Octets) returns (out: Octets)
    ensures out == Escaped(s)
    ensures forall tail :: ReadString(out + [QUOTE] + tail) == Some((s, tail))
  {
    out := [];
    for i := 0 to |s|
      invariant out + Escaped(s[i..]) == Escaped(s)
    {
      EscapedFrom(s, i, out);
      var c := s[i];
      match c {
        case 0x22 => out := out + [BACKSLASH, QUOTE];
        case 0x5C => out := out + [BACKSLASH, BACKSLASH];
        case 0x0A => out := out + [BACKSLASH, 0x6E];
        case 0x0D => out := out + [BACKSLASH, 0x72];
        case 0x09 => out := out + [BACKSLASH, 0x74];
        case _ =>
          if c < 0x20 {
            out := out + UnicodeEscape(c);
          } else {
            out := out + [c];
          }
      }
    }
    assert s[|s|..] == [] && out + Escaped([]) == out;
    forall tail ensures ReadString(out + [QUOTE] + tail) == Some((s, tail)) {
      EscapeRoundTrip(s, tail);
    }
  }

  lemma EscapedFrom(s: Octets, i: nat, before: Octets)
    requires i < |s|
    ensures before + Escaped(s[i..]) == (before + EscapeByte(s[i])) + Escaped(s[i + 1..])
  {
  }

  // ---- the string grammar of section 7 of RFC 8259 ----

  function HexValue(c: Octet): (v: Option<int>)
    ensures v.Some? ==> 0 <= v.value < 16
  {
    if 0x30 <= c <= 0x39 then Some(c - 0x30)
    else if 0x61 <= c <= 0x66 then Some(c - 0x61 + 10)
    else if 0x41 <= c <= 0x46 then Some(c - 0x41 + 10)
    else None
  }

  /** A code point of the basic plane in UTF-8; a lone surrogate has no encoding. */
  function Utf8(code: int): Option<Octets>
    requires 0 <= code < 0x1_0000
  {
    if code < 0x80 then Some([code])
    else if code < 0x800 then Some([0xC0 + code / 0x40, 0x80 + code % 0x40])
    else if 0xD800 <= code < 0xE000 then None
    else Some([0xE0 + code / 0x1000, 0x80 + code / 0x40 % 0x40, 0x80 + code % 0x40])
  }

  /** The bytes an escape stands for and its length; `s` starts behind the backslash. */
  function ReadEscape(s: Octets): (r: Option<(Octets, nat)>)
    ensures r.Some? ==> 1 <= r.value.1 <= |s|
  {
    if s == [] then None
    else if s[0] == QUOTE || s[0] == BACKSLASH || s[0] == 0x2F then Some(([s[0]], 1))
    else if s[0] == 0x62 then Some(([0x08], 1))
    else if s[0] == 0x66 then Some(([0x0C], 1))
    else if s[0] == 0x6E then Some(([0x0A], 1))
    else if s[0] == 0x72 then Some(([0x0D], 1))
    else if s[0] == 0x74 then Some(([0x09], 1))
    else if s[0] != 0x75 || |s| < 5 then None
    else
      var (a, b, c, d) := (HexValue(s[1]), HexValue(s[2]), HexValue(s[3]), HexValue(s[4]));
      if a.None? || b.None? || c.None? || d.None? then None else
        match Utf8(((a.value * 16 + b.value) * 16 + c.value) * 16 + d.value)
        case None => None
        case Some(bytes) => Some((bytes, 5))
  }

  /** Reads a literal from behind its opening quote: its value, and what follows its closing quote. */
  function ReadString(s: Octets): Option<(Octets, Octets)>
    decreases |s|
  {
    if s == [] || s[0] < 0x20 then None
    else if s[0] == QUOTE then Some(([], s[1..]))
    else
      var unit := if s[0] == BACKSLASH then ReadEscape(s[1..]) else Some(([s[0]], 0));
      if unit.None? then None else
        match ReadString(s[1 + unit.value.1..])
        case None => None
        case Some((value, rest)) => Some((unit.value.0 + value, rest))
  }

  // ---- the round trip ----

  /** An escaped byte reads as that byte. */
  lemma ReadEscapedByte(c: Octet, rest: Octets)
    ensures ReadString(EscapeByte(c) + rest) ==
            match ReadString(rest)
            case None => None
            case Some((value, after)) => Some(([c] + value, after))
  {
  }

  /** The literal reads back as the text and closes where it was closed. */
  lemma {:induction false} EscapeRoundTrip(s: Octets, tail: Octets)
    ensures ReadString(Escaped(s) + [QUOTE] + tail) == Some((s, tail))
    decreases |s|
  {
    if s == [] {
      assert Escaped(s) + [QUOTE] + tail == [QUOTE] + tail;
      assert ([QUOTE] + tail)[1..] == tail;
    } else {
      var rest := Escaped(s[1..]) + [QUOTE] + tail;
      assert Escaped(s) + [QUOTE] + tail == EscapeByte(s[0]) + rest;
      ReadEscapedByte(s[0], rest);
      EscapeRoundTrip(s[1..], tail);
      assert [s[0]] + s[1..] == s;
    }
  }

  /** No control byte is left in the output. */
  lemma {:induction false} NoRawControls(s: Octets)
    ensures forall i | 0 <= i < |Escaped(s)| :: Escaped(s)[i] >= 0x20
    decreases |s|
  {
    if s != [] {
      NoRawControls(s[1..]);
    }
  }

  /** Text without quotes, backslashes and control bytes stays as it is. */
  lemma {:induction false} PlainTextUnchanged(s: Octets)
    requires forall i | 0 <= i < |s| :: s[i] >= 0x20 && s[i] != 0x22 && s[i] != 0x5C
    ensures Escaped(s) == s
    decreases |s|
  {
    if s != [] {
      PlainTextUnchanged(s[1..]);
      assert [s[0]] + s[1..] == s;
    }
  }
}
