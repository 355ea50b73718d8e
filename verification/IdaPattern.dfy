/** Byte patterns of the IDA adapter: tokens of hex digits and wildcards, and the hex text they must read back. */
module IdaPattern {
  import opened Options
  import opened Utf8
  import opened IdaNumbers

  datatype BytePattern = BytePattern(bytes: seq<Byte>, wildcard: seq<bool>)

  datatype PatternError = EmptyAfterPrefix | NonHexCharacters | OddDigits | EmptyPattern

  datatype PatternResult = Ok(pattern: BytePattern) | Err(error: PatternError)

  const NOTHING := BytePattern([], [])

  function Then(p: BytePattern, q: BytePattern): BytePattern {
    BytePattern(p.bytes + q.bytes, p.wildcard + q.wildcard)
  }

  function Falses(n: nat): seq<bool> {
    seq(n, _ => false)
  }

  /** Bytes without wildcards. */
  function Literal(bytes: seq<Byte>): BytePattern {
    BytePattern(bytes, Falses(|bytes|))
  }

  // ---------- tokens ----------

  function StripPrefix(token: string): string {
    if "0x" <= token || "0X" <= token then token[2..] else token
  }

  /** The value of one or two hex digits. */
  function HexByte(hex: string): Byte
    requires 1 <= |hex| <= 2 && AllDigits(hex, 16)
  {
    HexByteBound(hex);
    Value(hex, 16)
  }

  lemma HexByteBound(hex: string)
    requires 1 <= |hex| <= 2 && AllDigits(hex, 16)
    ensures Value(hex, 16) < 0x100
  {
    var init := hex[..|hex| - 1];
    if |hex| == 2 {
      assert init[..0] == "" && Value(init, 16) == DigitOf(init[0]).value;
    }
  }

  function HexPairs(hex: string): seq<Byte>
    requires |hex| % 2 == 0 && AllDigits(hex, 16)
  {
    if hex == "" then [] else [HexByte(hex[..2])] + HexPairs(hex[2..])
  }

  function ParseToken(token: string): PatternResult {
    if token == "?" || token == "??" then Ok(BytePattern([0], [true]))
    else
      var hex := StripPrefix(token);
      if hex == "" then Err(EmptyAfterPrefix)
      else if !AllDigits(hex, 16) then Err(NonHexCharacters)
      else if |hex| <= 2 then Ok(Literal([HexByte(hex)]))
      else if |hex| % 2 != 0 then Err(OddDigits)
      else Ok(Literal(HexPairs(hex)))
  }

  // ---------- patterns ----------

  function TokenLength(s: string): (n: nat)
    ensures n <= |s|
    ensures s != "" && !IsSpace(s[0]) ==> n > 0
    ensures forall i :: 0 <= i < n ==> !IsSpace(s[i])
    ensures n < |s| ==> IsSpace(s[n])
  {
    if s == "" || IsSpace(s[0]) then 0 else 1 + TokenLength(s[1..])
  }

  function ParseTokens(s: string): PatternResult
    decreases |s|
  {
    if s == "" then Ok(NOTHING)
    else if IsSpace(s[0]) then ParseTokens(s[1..])
    else
      var n := TokenLength(s);
      var first := ParseToken(s[..n]);
      if first.Err? then first
      else
        var rest := ParseTokens(s[n..]);
        if rest.Err? then rest else Ok(Then(first.pattern, rest.pattern))
  }

  function ParsePattern(s: string): PatternResult {
    var r := ParseTokens(s);
    if r.Ok? && r.pattern.bytes == [] then Err(EmptyPattern) else r
  }

  /** The byte list and the wildcard list always have the same, positive length. */
  lemma PatternListsAgree(s: string)
    ensures var r := ParsePattern(s); r.Ok? ==> |r.pattern.bytes| == |r.pattern.wildcard| > 0
  {
    TokensAgree(s);
  }

  lemma {:induction false} TokensAgree(s: string)
    ensures var r := ParseTokens(s); r.Ok? ==> |r.pattern.bytes| == |r.pattern.wildcard|
    decreases |s|
  {
    if s != "" {
      if IsSpace(s[0]) {
        TokensAgree(s[1..]);
      } else {
        TokensAgree(s[TokenLength(s)..]);
      }
    }
  }

  // ---------- the loops ----------

  /** The digits were checked before, so the number parser accepts them and the value fits a byte. */
  method ParseHexByte(hex: string) returns (b: Byte)
    requires 1 <= |hex| <= 2 && AllDigits(hex, 16)
    ensures b == HexByte(hex)
  {
    var value := ParseU64Text("0x" + hex);
    assert value == Some(Value(hex, 16)) by {
      var s := "0x" + hex;
      assert IsTight(s) by {
        assert s[|s| - 1] == hex[|hex| - 1] && IsDigit(hex[|hex| - 1], 16);
      }
      TightStays(s);
      assert s[2..] == hex;
      HexByteBound(hex);
    }
    HexByteBound(hex);
    b := value.value;
  }

  method IsHexText(text: string) returns (isHex: bool)
    ensures isHex <==> text != "" && AllDigits(text, 16)
  {
    if text == "" {
      return false;
    }
    for i := 0 to |text|
      invariant AllDigits(text[..i], 16)
    {
      if !IsDigit(text[i], 16) {
        return false;
      }
    }
    isHex := true;
  }

  method ParseHexPairs(hex: string) returns (bytes: seq<Byte>)
    requires |hex| % 2 == 0 && AllDigits(hex, 16)
    ensures bytes == HexPairs(hex)
  {
    bytes := [];
    var rest := hex;
    while rest != ""
      invariant |rest| % 2 == 0 && AllDigits(rest, 16)
      invariant bytes + HexPairs(rest) == HexPairs(hex)
      decreases |rest|
    {
      var b := ParseHexByte(rest[..2]);
      assert bytes + ([b] + HexPairs(rest[2..])) == (bytes + [b]) + HexPairs(rest[2..]);
      bytes := bytes + [b];
      rest := rest[2..];
    }
  }

  method ParseTokenText(token: string) returns (r: PatternResult)
    ensures r == ParseToken(token)
  {
    if token == "?" || token == "??" {
      return Ok(BytePattern([0], [true]));
    }
    var hex := StripPrefix(token);
    if hex == "" {
      return Err(EmptyAfterPrefix);
    }
    var isHex := IsHexText(hex);
    if !isHex {
      return Err(NonHexCharacters);
    }
    if |hex| <= 2 {
      var b := ParseHexByte(hex);
      return Ok(Literal([b]));
    }
    if |hex| % 2 != 0 {
      return Err(OddDigits);
    }
    var bytes := ParseHexPairs(hex);
    r := Ok(Literal(bytes));
  }

  /** Reads token after token; the first bad token ends the parse. */
  method ParseBytePattern(pattern: string) returns (r: PatternResult)
    ensures r == ParsePattern(pattern)
  {
    var got := NOTHING;
    var rest := pattern;
    StartsEmpty(ParseTokens(pattern));
    while rest != ""
      invariant ParseTokens(pattern) == Prepend(got, ParseTokens(rest))
      decreases |rest|
    {
      if IsSpace(rest[0]) {
        rest := rest[1..];
      } else {
        var n := TokenLength(rest);
        var token := ParseTokenText(rest[..n]);
        if token.Err? {
          return token;
        }
        PrependTwice(got, token.pattern, ParseTokens(rest[n..]));
        got := Then(got, token.pattern);
        rest := rest[n..];
      }
    }
    assert Then(got, NOTHING) == got;
    if got.bytes == [] {
      return Err(EmptyPattern);
    }
    r := Ok(got);
  }

  function Prepend(p: BytePattern, r: PatternResult): PatternResult {
    if r.Err? then r else Ok(Then(p, r.pattern))
  }

  lemma StartsEmpty(r: PatternResult)
    ensures Prepend(NOTHING, r) == r
  {
    if r.Ok? {
      assert Then(NOTHING, r.pattern) == r.pattern;
    }
  }

  lemma PrependTwice(p: BytePattern, q: BytePattern, r: PatternResult)
    ensures Prepend(p, Prepend(q, r)) == Prepend(Then(p, q), r)
  {
    if r.Ok? {
      assert Then(p, Then(q, r.pattern)) == Then(Then(p, q), r.pattern);
    }
  }

  // ---------- hex text ----------

  function BytesHex(bytes: seq<Byte>): string {
    if bytes == [] then "" else [DigitChar(bytes[0] / 16), DigitChar(bytes[0] % 16)] + BytesHex(bytes[1..])
  }

  method PrintBytesHex(bytes: seq<Byte>) returns (text: string)
    ensures text == BytesHex(bytes)
  {
    text := "";
    for i := 0 to |bytes|
      invariant text + BytesHex(bytes[i..]) == BytesHex(bytes)
    {
      var hi, lo := DigitChar(bytes[i] / 16), DigitChar(bytes[i] % 16);
      assert bytes[i..][1..] == bytes[i + 1..];
      assert text + ([hi, lo] + BytesHex(bytes[i + 1..])) == text + [hi] + [lo] + BytesHex(bytes[i + 1..]);
      text := text + [hi];
      text := text + [lo];
    }
  }

  lemma PairParses(b: Byte)
    ensures var s := [DigitChar(b / 16), DigitChar(b % 16)]; AllDigits(s, 16) && HexByte(s) == b
  {
    var hi, lo := DigitChar(b / 16), DigitChar(b % 16);
    DigitCharParses(b / 16);
    DigitCharParses(b % 16);
    ValueSnoc("", hi, 16);
    assert "" + [hi] == [hi];
    ValueSnoc([hi], lo, 16);
    assert [hi] + [lo] == [hi, lo];
  }

  lemma {:induction false} HexTextParses(bytes: seq<Byte>)
    ensures var s := BytesHex(bytes);
            && |s| == 2 * |bytes| && AllDigits(s, 16) && HexPairs(s) == bytes
            && forall i :: 0 <= i < |s| ==> !IsSpace(s[i]) && s[i] !in {'x', 'X', '?'}
    decreases |bytes|
  {
    if bytes != [] {
      var s := BytesHex(bytes);
      HexTextParses(bytes[1..]);
      PairParses(bytes[0]);
      DigitCharParses(bytes[0] / 16);
      DigitCharParses(bytes[0] % 16);
      assert s[..2] == [DigitChar(bytes[0] / 16), DigitChar(bytes[0] % 16)];
      assert s[2..] == BytesHex(bytes[1..]);
    }
  }

  lemma HexToken(s: string, bytes: seq<Byte>)
    requires bytes != [] && |s| == 2 * |bytes| && AllDigits(s, 16) && HexPairs(s) == bytes
    requires s[0] != '?' && s[1] !in {'x', 'X'}
    ensures ParseToken(s) == Ok(Literal(bytes))
  {
    assert StripPrefix(s) == s;
    if |s| == 2 {
      assert s[..2] == s && HexPairs(s[2..]) == [];
      assert bytes == [HexByte(s)];
    }
  }

  lemma HexTokenParses(bytes: seq<Byte>)
    requires bytes != []
    ensures ParseToken(BytesHex(bytes)) == Ok(Literal(bytes))
  {
    var s := BytesHex(bytes);
    HexTextParses(bytes);
    HexToken(s, bytes);
  }

  // ---------- every spelling of a byte string ----------

  function Flatten(groups: seq<seq<Byte>>): seq<Byte> {
    if groups == [] then [] else groups[0] + Flatten(groups[1..])
  }

  /** Each group as compact hex, the groups set apart by spaces. */
  function Spelled(groups: seq<seq<Byte>>): string {
    if groups == [] then ""
    else if |groups| == 1 then BytesHex(groups[0])
    else BytesHex(groups[0]) + " " + Spelled(groups[1..])
  }

  lemma {:induction false} TokenLengthIs(s: string, rest: string)
    requires forall i :: 0 <= i < |s| ==> !IsSpace(s[i])
    requires rest != "" ==> IsSpace(rest[0])
    ensures TokenLength(s + rest) == |s|
    decreases |s|
  {
    if s == "" {
      assert s + rest == rest;
    } else {
      assert (s + rest)[1..] == s[1..] + rest;
      TokenLengthIs(s[1..], rest);
    }
  }

  /** A token that ends at a space or at the end is parsed on its own. */
  lemma TokenStep(token: string, rest: string)
    requires token != "" && forall i :: 0 <= i < |token| ==> !IsSpace(token[i])
    requires rest != "" ==> IsSpace(rest[0])
    requires ParseToken(token).Ok?
    ensures ParseTokens(token + rest) == Prepend(ParseToken(token).pattern, ParseTokens(rest))
  {
    var s := token + rest;
    TokenLengthIs(token, rest);
    assert s[0] == token[0];
    assert s[..|token|] == token && s[|token|..] == rest;
  }

  lemma LiteralThen(a: seq<Byte>, b: seq<Byte>)
    ensures Then(Literal(a), Literal(b)) == Literal(a + b)
  {
  }

  lemma {:induction false} SpelledTokens(groups: seq<seq<Byte>>)
    requires forall i :: 0 <= i < |groups| ==> groups[i] != []
    ensures ParseTokens(Spelled(groups)) == Ok(Literal(Flatten(groups)))
    decreases |groups|
  {
    if groups != [] {
      var head := BytesHex(groups[0]);
      var rest := if |groups| == 1 then "" else " " + Spelled(groups[1..]);
      assert Spelled(groups) == head + rest;
      HexTextParses(groups[0]);
      HexTokenParses(groups[0]);
      TokenStep(head, rest);
      SpelledTokens(groups[1..]);
      assert ParseTokens(rest) == ParseTokens(Spelled(groups[1..])) by {
        if |groups| > 1 {
          assert rest[1..] == Spelled(groups[1..]);
        }
      }
      LiteralThen(groups[0], Flatten(groups[1..]));
    }
  }

  /**
   * A nonempty byte string parses back from its hex text with no wildcard, however the text is split
   * into spaced groups: all compact, one byte a token, or anything between.
   */
  lemma SpellingRoundTrip(groups: seq<seq<Byte>>)
    requires groups != [] && forall i :: 0 <= i < |groups| ==> groups[i] != []
    ensures ParsePattern(Spelled(groups)) == Ok(Literal(Flatten(groups)))
  {
    SpelledTokens(groups);
    assert Flatten(groups) == groups[0] + Flatten(groups[1..]);
  }

  /** In particular the text that the adapter prints. */
  lemma PrintedHexParsesBack(bytes: seq<Byte>)
    requires bytes != []
    ensures ParsePattern(BytesHex(bytes)) == Ok(Literal(bytes))
  {
    SpellingRoundTrip([bytes]);
    assert [bytes][1..] == [];
    assert Flatten([bytes]) == bytes + [] == bytes;
  }
}
