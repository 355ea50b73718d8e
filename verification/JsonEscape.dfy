/** JSON string escaping, against a decoder for the string grammar in section 7 of RFC 8259. */
module JsonEscape {
  import opened Options
  import opened Utf8

  const QUOTE: Byte := 0x22
  const BACKSLASH: Byte := 0x5C

  // ---------- the decoder ----------

  function HexValue(b: Byte): Option<nat> {
    if 0x30 <= b <= 0x39 then Some(b - 0x30)
    else if 0x41 <= b <= 0x46 then Some(b - 0x41 + 10)
    else if 0x61 <= b <= 0x66 then Some(b - 0x61 + 10)
    else None
  }

  /** The code unit of an escape `\uXXXX` at the start of the text. */
  function CodeUnit(s: seq<Byte>): (u: Option<nat>)
    ensures u.Some? ==> |s| >= 6 && u.value < 0x10000
  {
    if |s| < 6 || s[0] != BACKSLASH || s[1] != 0x75 then None
    else
      var a, b, c, d := HexValue(s[2]), HexValue(s[3]), HexValue(s[4]), HexValue(s[5]);
      if a.None? || b.None? || c.None? || d.None? then None
      else Some(a.value * 0x1000 + b.value * 0x100 + c.value * 0x10 + d.value)
  }

  /** What the two-character escapes stand for. */
  function ShortEscape(b: Byte): Option<Byte> {
    if b == QUOTE || b == BACKSLASH || b == 0x2F then Some(b)
    else if b == 0x62 then Some(0x08)
    else if b == 0x66 then Some(0x0C)
    else if b == 0x6E then Some(0x0A)
    else if b == 0x72 then Some(0x0D)
    else if b == 0x74 then Some(0x09)
    else None
  }

  /** The character at the start of a string body: its UTF-8 bytes and the length of its spelling. */
  function DecodeChar(s: seq<Byte>): (r: Option<(seq<Byte>, nat)>)
    requires s != []
    ensures r.Some? ==> 1 <= r.value.1 <= |s|
  {
    if s[0] < 0x20 || s[0] == QUOTE then None
    else if s[0] != BACKSLASH then Some(([s[0]], 1))
    else
      var unit := CodeUnit(s);
      if unit.None? then
        if |s| < 2 || ShortEscape(s[1]).None? then None else Some(([ShortEscape(s[1]).value], 2))
      else if unit.value < 0xD800 || unit.value >= 0xE000 then Some((Encode(unit.value), 6))
      else
        var low := CodeUnit(s[6..]);
        if unit.value < 0xDC00 && low.Some? && 0xDC00 <= low.value < 0xE000
        then Some((Encode(0x10000 + (unit.value - 0xD800) * 0x400 + (low.value - 0xDC00)), 12))
        else None
  }

  /** Reads a string up to its closing quote: the value and what follows. None if it is not a JSON string. */
  function DecodeString(s: seq<Byte>, value: seq<Byte>): Option<(seq<Byte>, seq<Byte>)>
    decreases |s|
  {
    if s == [] then None
    else if s[0] == QUOTE then Some((value, s[1..]))
    else
      var c := DecodeChar(s);
      if c.None? then None else DecodeString(s[c.value.1..], value + c.value.0)
  }

  // ---------- the escaping ----------

  function HexDigit(n: nat): Byte
    requires n < 16
  {
    if n < 10 then 0x30 + n else 0x61 + (n - 10)
  }

  function EscapeByte(b: Byte): seq<Byte> {
    if b == BACKSLASH then [BACKSLASH, BACKSLASH]
    else if b == QUOTE then [BACKSLASH, QUOTE]
    else if b == 0x08 then [BACKSLASH, 0x62]
    else if b == 0x0C then [BACKSLASH, 0x66]
    else if b == 0x0A then [BACKSLASH, 0x6E]
    else if b == 0x0D then [BACKSLASH, 0x72]
    else if b == 0x09 then [BACKSLASH, 0x74]
    else if b < 0x20 then [BACKSLASH, 0x75, 0x30, 0x30, HexDigit(b / 16), HexDigit(b % 16)]
    else [b]
  }

  function Escape(value: seq<Byte>): seq<Byte> {
    if value == [] then [] else EscapeByte(value[0]) + Escape(value[1..])
  }

  lemma EscapeNext(text: seq<Byte>, value: seq<Byte>)
    requires value != []
    ensures text + Escape(value) == text + EscapeByte(value[0]) + Escape(value[1..])
  {
    var head, rest := EscapeByte(value[0]), Escape(value[1..]);
    assert text + (head + rest) == text + head + rest;
  }

  method EscapeJson(value: seq<Byte>) returns (escaped: seq<Byte>)
    ensures escaped == Escape(value)
  {
    escaped := [];
    for i := 0 to |value|
      invariant escaped + Escape(value[i..]) == Escape(value)
    {
      EscapeNext(escaped, value[i..]);
      assert value[i..][1..] == value[i + 1..];
      escaped := escaped + EscapeByte(value[i]);
    }
  }

  // ---------- decoding undoes it ----------

  lemma ByteDecodes(b: Byte, s: seq<Byte>)
    ensures DecodeChar(EscapeByte(b) + s) == Some(([b], |EscapeByte(b)|))
    ensures EscapeByte(b)[0] != QUOTE
  {
    var t := EscapeByte(b) + s;
    if b < 0x20 && |EscapeByte(b)| == 6 {
      assert t[..6] == EscapeByte(b);
      assert CodeUnit(t) == Some(b);
      assert Encode(b) == [b];
    }
  }

  lemma DecodeStep(b: Byte, s: seq<Byte>, got: seq<Byte>)
    ensures DecodeString(EscapeByte(b) + s, got) == DecodeString(s, got + [b])
  {
    var head := EscapeByte(b);
    ByteDecodes(b, s);
    assert (head + s)[0] == head[0];
    assert (head + s)[|head|..] == s;
  }

  /**
   * For every byte string, the escaped text between quotes is one JSON string: a decoder reads the value
   * back and stops at the closing quote, so nothing of the value leaks into what follows.
   */
  lemma {:induction false} EscapeRoundTrip(value: seq<Byte>, got: seq<Byte>, rest: seq<Byte>)
    ensures DecodeString(Escape(value) + [QUOTE] + rest, got) == Some((got + value, rest))
    decreases |value|
  {
    if value == [] {
      ClosingQuote(rest, got);
      assert got + value == got;
    } else {
      NextByteReads(value, got, rest);
      EscapeRoundTrip(value[1..], got + [value[0]], rest);
      Rejoin(got, value);
    }
  }

  lemma Rejoin(got: seq<Byte>, value: seq<Byte>)
    requires value != []
    ensures got + [value[0]] + value[1..] == got + value
  {
  }

  lemma ClosingQuote(rest: seq<Byte>, got: seq<Byte>)
    ensures DecodeString(Escape([]) + [QUOTE] + rest, got) == Some((got, rest))
  {
    var s := Escape([]) + [QUOTE] + rest;
    assert s[0] == QUOTE && s[1..] == rest;
  }

  lemma NextByteReads(value: seq<Byte>, got: seq<Byte>, rest: seq<Byte>)
    requires value != []
    ensures DecodeString(Escape(value) + [QUOTE] + rest, got) ==
            DecodeString(Escape(value[1..]) + [QUOTE] + rest, got + [value[0]])
  {
    EscapeSplits(value, rest);
    DecodeStep(value[0], Escape(value[1..]) + [QUOTE] + rest, got);
  }

  lemma EscapeSplits(value: seq<Byte>, rest: seq<Byte>)
    requires value != []
    ensures Escape(value) + [QUOTE] + rest == EscapeByte(value[0]) + (Escape(value[1..]) + [QUOTE] + rest)
  {
    var head, tail := EscapeByte(value[0]), Escape(value[1..]);
    assert head + tail + [QUOTE] + rest == head + (tail + [QUOTE] + rest);
  }

  /** No control byte survives, in particular no line feed: a record stays on its line. */
  lemma {:induction false} EscapedIsPrintable(value: seq<Byte>)
    ensures forall i :: 0 <= i < |Escape(value)| ==> Escape(value)[i] >= 0x20
    decreases |value|
  {
    if value != [] {
      EscapedIsPrintable(value[1..]);
    }
  }

  /**
   * How a byte is spelled: as itself unless it is a quote, a backslash or a control byte; with two bytes if
   * the grammar has a short form for it; else as a code unit with lower-case digits.
   */
  lemma EscapeSpelling(b: Byte)
    ensures var e := EscapeByte(b);
            if b >= 32 && b != 34 && b != 92 then e == [b]
            else if b == 34 || b == 92 || b == 8 || b == 9 || b == 10 || b == 12 || b == 13
            then |e| == 2 && e[0] == 92 && ShortEscape(e[1]) == Some(b)
            else e == [92, 117, 48, 48, 48 + b / 16, if b % 16 < 10 then 48 + b % 16 else 87 + b % 16]
  {
  }

  /** Bytes are escaped one by one, whatever surrounds them. */
  lemma {:induction false} EscapeJoins(a: seq<Byte>, b: seq<Byte>)
    ensures Escape(a + b) == Escape(a) + Escape(b)
    decreases |a|
  {
    if a == [] {
      assert a + b == b;
    } else {
      assert (a + b)[1..] == a[1..] + b;
      EscapeJoins(a[1..], b);
    }
  }

  lemma EscapeOne(b: Byte)
    ensures Escape([b]) == EscapeByte(b)
  {
    assert [b][1..] == [];
    assert EscapeByte(b) + [] == EscapeByte(b);
  }
}
