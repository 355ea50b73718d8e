/**
 * Numerals and pattern texts told character by character: the positional value of digits in either case,
 * which texts are numbers, what each pattern token stands for, and how a text falls apart into tokens.
 */
module IdaNumerals {
  import opened Options
  import opened Utf8
  import opened IdaNumbers
  import opened IdaPattern

  // ---------- digits ----------

  /** The digits of both cases. */
  function Nibble(c: char): Option<nat> {
    if '0' <= c && c <= '9' then Some(c as int - 48)
    else if 'A' <= c && c <= 'F' then Some(c as int - 55)
    else if 'a' <= c && c <= 'f' then Some(c as int - 87)
    else None
  }

  lemma DigitsOfBothCases(c: char)
    ensures DigitOf(c) == Nibble(c)
  {
  }

  predicate IsNumber(s: string, base: nat) {
    forall i :: 0 <= i < |s| ==> Nibble(s[i]).Some? && Nibble(s[i]).value < base
  }

  lemma NumbersAreDigits(s: string, base: nat)
    ensures IsNumber(s, base) <==> AllDigits(s, base)
  {
    forall i | 0 <= i < |s|
      ensures DigitOf(s[i]) == Nibble(s[i])
    {
      DigitsOfBothCases(s[i]);
    }
    if IsNumber(s, base) {
      assert forall i :: 0 <= i < |s| ==> IsDigit(s[i], base);
    }
    if AllDigits(s, base) {
      assert forall i :: 0 <= i < |s| ==> IsDigit(s[i], base);
    }
  }

  function Power(base: nat, n: nat): nat {
    if n == 0 then 1 else Times(base, Power(base, n - 1))
  }

  function Times(a: nat, b: nat): nat {
    a * b
  }

  /** Each digit times the power of its place, the first digit in the highest place. */
  function Positional(s: string, base: nat): nat
    requires IsNumber(s, base)
  {
    if s == "" then 0 else Times(Nibble(s[0]).value, Power(base, |s| - 1)) + Positional(s[1..], base)
  }

  lemma Distribute(a: nat, p: nat, b: nat, base: nat, d: nat)
    ensures (a * p + b) * base + d == a * (base * p) + (b * base + d)
  {
    assert a * p * base == a * (base * p);
  }

  lemma {:induction false} PositionalSnoc(s: string, c: char, base: nat)
    requires IsNumber(s, base) && Nibble(c).Some? && Nibble(c).value < base
    ensures IsNumber(s + [c], base)
    ensures Positional(s + [c], base) == Positional(s, base) * base + Nibble(c).value
    decreases |s|
  {
    var t := s + [c];
    if s == "" {
      assert t[1..] == "";
    } else {
      assert t[1..] == s[1..] + [c];
      PositionalSnoc(s[1..], c, base);
      Distribute(Nibble(s[0]).value, Power(base, |s| - 1), Positional(s[1..], base), base, Nibble(c).value);
    }
  }

  /** The number that the digit loop computes is the positional value. */
  lemma {:induction false} ValueIsPositional(s: string, base: nat)
    requires AllDigits(s, base)
    ensures IsNumber(s, base) && Value(s, base) == Positional(s, base)
    decreases |s|
  {
    NumbersAreDigits(s, base);
    if s != "" {
      var init, c := s[..|s| - 1], s[|s| - 1];
      ValueIsPositional(init, base);
      assert init + [c] == s;
      PositionalSnoc(init, c, base);
      DigitsOfBothCases(c);
    }
  }

  /** Digits are printed in lower case. */
  lemma PrintedDigit(n: nat)
    requires n < 16
    ensures DigitChar(n) as int == if n < 10 then 48 + n else 87 + n
  {
  }

  /** A printed number starts with a zero only if it is zero. */
  lemma {:induction false} NoLeadingZero(v: nat, base: nat)
    requires 2 <= base <= 16
    ensures Digits(v, base)[0] == '0' <==> v == 0
    decreases v
  {
    var q, d := Division(v, base);
    if v < base {
      PrintedDigit(v);
    } else {
      NoLeadingZero(q, base);
    }
  }

  lemma HexTextLength(bytes: seq<Byte>)
    ensures |BytesHex(bytes)| == 2 * |bytes|
  {
    HexTextParses(bytes);
  }

  lemma HexTextShifts(bytes: seq<Byte>, k: nat)
    requires 0 < k < |bytes|
    ensures |BytesHex(bytes)| == 2 * |bytes| && |BytesHex(bytes[1..])| == 2 * |bytes| - 2
    ensures BytesHex(bytes)[2 * k] == BytesHex(bytes[1..])[2 * (k - 1)]
    ensures BytesHex(bytes)[2 * k + 1] == BytesHex(bytes[1..])[2 * (k - 1) + 1]
  {
    HexTextLength(bytes);
    HexTextLength(bytes[1..]);
  }

  /** The hex text of bytes: for each byte its high digit, then its low digit. */
  lemma {:induction false} HexTextIs(bytes: seq<Byte>, k: nat)
    requires k < |bytes|
    ensures |BytesHex(bytes)| == 2 * |bytes|
    ensures BytesHex(bytes)[2 * k] == DigitChar(bytes[k] / 16) && BytesHex(bytes)[2 * k + 1] == DigitChar(bytes[k] % 16)
    decreases |bytes|
  {
    HexTextLength(bytes);
    if k > 0 {
      HexTextIs(bytes[1..], k - 1);
      HexTextShifts(bytes, k);
    }
  }

  // ---------- which texts are numbers ----------

  predicate IsBlankChar(c: char) {
    c as int == 32 || (9 <= c as int && c as int <= 13)
  }

  predicate AllBlank(s: string) {
    forall i :: 0 <= i < |s| ==> IsBlankChar(s[i])
  }

  /** The text has no blank at either end. */
  predicate Bare(s: string) {
    s != "" ==> !IsBlankChar(s[0]) && !IsBlankChar(s[|s| - 1])
  }

  lemma BlanksAreSpaces(c: char)
    ensures IsSpace(c) <==> IsBlankChar(c)
  {
  }

  lemma {:induction false} TrimLeftDrops(left: string, s: string)
    requires AllBlank(left) && (s != "" ==> !IsBlankChar(s[0]))
    ensures TrimLeft(left + s) == s
    decreases |left|
  {
    if left == "" {
      assert left + s == s;
    } else {
      assert (left + s)[1..] == left[1..] + s;
      TrimLeftDrops(left[1..], s);
    }
  }

  lemma {:induction false} TrimRightDrops(s: string, right: string)
    requires AllBlank(right) && (s != "" ==> !IsBlankChar(s[|s| - 1]))
    ensures TrimRight(s + right) == s
    decreases |right|
  {
    if right == "" {
      assert s + right == s;
    } else {
      var n := |right| - 1;
      assert (s + right)[..|s + right| - 1] == s + right[..n];
      assert (s + right)[|s + right| - 1] == right[n];
      TrimRightDrops(s, right[..n]);
    }
  }

  lemma TrimDrops(left: string, s: string, right: string)
    requires AllBlank(left) && AllBlank(right) && Bare(s) && s != ""
    ensures Trim(left + s + right) == s
  {
    assert left + s + right == left + (s + right);
    assert (s + right)[0] == s[0];
    TrimLeftDrops(left, s + right);
    TrimRightDrops(s, right);
  }

  /** The base that the start of a text announces, and the digits that follow. */
  function AnnouncedBase(s: string): nat {
    if |s| <= 2 || s[0] != '0' then 10
    else if s[1] == 'x' || s[1] == 'X' then 16
    else if s[1] == 'b' || s[1] == 'B' then 2
    else 10
  }

  /**
   * A text is a number exactly when, without the blanks around it, it is not empty and consists of digits
   * of its base after an optional prefix, and its positional value is below 2^64; it reads as that value.
   */
  lemma NumbersParse(left: string, s: string, right: string)
    requires AllBlank(left) && AllBlank(right) && Bare(s) && s != ""
    ensures var base := AnnouncedBase(s);
            var digits := if base == 10 then s else s[2..];
            Parse(left + s + right) ==
            if IsNumber(digits, base) && Positional(digits, base) < 0x1_0000_0000_0000_0000
            then Some(Positional(digits, base)) else None
  {
    var base := AnnouncedBase(s);
    var digits := if base == 10 then s else s[2..];
    TrimDrops(left, s, right);
    assert BaseOf(s) == base && DigitsOf(s) == digits;
    NumbersAreDigits(digits, base);
    if AllDigits(digits, base) {
      ValueIsPositional(digits, base);
    }
  }

  lemma {:induction false} TrimLeftBlank(s: string)
    requires AllBlank(s)
    ensures TrimLeft(s) == ""
    decreases |s|
  {
    if s != "" {
      TrimLeftBlank(s[1..]);
    }
  }

  /** A text of blanks only is no number. */
  lemma BlankIsNoNumber(s: string)
    requires AllBlank(s)
    ensures Parse(s) == None
  {
    TrimLeftBlank(s);
  }

  // ---------- what a pattern token stands for ----------

  /** The byte of two digits at a place of a token. */
  function PairAt(hex: string, k: nat): nat
    requires 2 * k + 1 < |hex| && IsNumber(hex, 16)
  {
    16 * Nibble(hex[2 * k]).value + Nibble(hex[2 * k + 1]).value
  }

  lemma TwoDigits(hex: string)
    requires |hex| == 2 && AllDigits(hex, 16)
    ensures IsNumber(hex, 16) && HexByte(hex) as int == 16 * Nibble(hex[0]).value + Nibble(hex[1]).value
  {
    NumbersAreDigits(hex, 16);
    ValueIsPositional(hex, 16);
    assert hex[1..][1..] == "" && Power(16, 1) == 16 && Power(16, 0) == 1;
  }

  lemma OneDigit(hex: string)
    requires |hex| == 1 && AllDigits(hex, 16)
    ensures IsNumber(hex, 16) && HexByte(hex) as int == Nibble(hex[0]).value
  {
    NumbersAreDigits(hex, 16);
    ValueIsPositional(hex, 16);
    assert hex[1..] == "" && Power(16, 0) == 1;
  }

  lemma {:induction false} PairsAre(hex: string)
    requires |hex| % 2 == 0 && AllDigits(hex, 16)
    ensures IsNumber(hex, 16) && |HexPairs(hex)| * 2 == |hex|
    ensures forall k :: 0 <= k < |HexPairs(hex)| ==> HexPairs(hex)[k] as int == PairAt(hex, k)
    decreases |hex|
  {
    NumbersAreDigits(hex, 16);
    if hex != "" {
      var rest := hex[2..];
      TwoDigits(hex[..2]);
      PairsAre(rest);
      forall k | 0 <= k < |HexPairs(hex)|
        ensures HexPairs(hex)[k] as int == PairAt(hex, k)
      {
        if k > 0 {
          assert HexPairs(hex)[k] == HexPairs(rest)[k - 1];
          PairShifts(hex, k);
        }
      }
    }
  }

  lemma PairShifts(hex: string, k: nat)
    requires 0 < k && 2 * k + 1 < |hex| && IsNumber(hex, 16)
    ensures IsNumber(hex[2..], 16) && PairAt(hex[2..], k - 1) == PairAt(hex, k)
  {
    assert hex[2..][2 * (k - 1)] == hex[2 * k] && hex[2..][2 * (k - 1) + 1] == hex[2 * k + 1];
  }

  /** A question mark, or two, is one position that every byte fits. */
  lemma WildcardToken(token: string)
    requires token == "?" || token == "??"
    ensures ParseToken(token).Ok?
    ensures var p := ParseToken(token).pattern; |p.bytes| == 1 && p.wildcard == [true]
  {
  }

  /** Any other token, with its 0x or 0X taken off, is bytes of one or two digits each, or an error of its own. */
  lemma HexTokenIs(token: string)
    requires token != "?" && token != "??"
    ensures var hex := if |token| >= 2 && token[0] == '0' && (token[1] == 'x' || token[1] == 'X') then token[2..] else token;
            var r := ParseToken(token);
            if hex == "" then r == Err(EmptyAfterPrefix)
            else if !IsNumber(hex, 16) then r == Err(NonHexCharacters)
            else if |hex| == 1 then r.Ok? && r.pattern.wildcard == [false] && |r.pattern.bytes| == 1
                                    && r.pattern.bytes[0] as int == Nibble(hex[0]).value
            else if |hex| % 2 == 1 then r == Err(OddDigits)
            else
              && r.Ok? && 2 * |r.pattern.bytes| == |hex| && |r.pattern.wildcard| == |r.pattern.bytes|
              && forall k :: 0 <= k < |r.pattern.bytes| ==>
                   !r.pattern.wildcard[k] && r.pattern.bytes[k] as int == PairAt(hex, k)
  {
    var hex := StripPrefix(token);
    assert "0x" <= token <==> |token| >= 2 && token[0] == '0' && token[1] == 'x';
    assert "0X" <= token <==> |token| >= 2 && token[0] == '0' && token[1] == 'X';
    NumbersAreDigits(hex, 16);
    if hex != "" && AllDigits(hex, 16) {
      if |hex| == 1 {
        OneDigit(hex);
      } else if |hex| == 2 {
        TwoDigits(hex);
      } else if |hex| % 2 == 0 {
        PairsAre(hex);
      }
    }
  }

  // ---------- how a text falls apart ----------

  predicate IsToken(token: string) {
    token != "" && forall i :: 0 <= i < |token| ==> !IsBlankChar(token[i])
  }

  /** Tokens with blanks before, between and after them. */
  predicate IsLayout(gaps: seq<string>, tokens: seq<string>) {
    && |gaps| == |tokens| + 1
    && (forall k :: 0 <= k < |gaps| ==> AllBlank(gaps[k]))
    && (forall k :: 0 < k < |tokens| ==> gaps[k] != "")
    && (forall k :: 0 <= k < |tokens| ==> IsToken(tokens[k]))
  }

  function LaidOut(gaps: seq<string>, tokens: seq<string>): string
    requires |gaps| == |tokens| + 1
  {
    if tokens == [] then gaps[0] else gaps[0] + (tokens[0] + LaidOut(gaps[1..], tokens[1..]))
  }

  /** The patterns of the tokens one after the other, or the error of the first bad one. */
  function Combined(tokens: seq<string>): PatternResult {
    if tokens == [] then Ok(NOTHING)
    else if ParseToken(tokens[0]).Err? then ParseToken(tokens[0])
    else Prepend(ParseToken(tokens[0]).pattern, Combined(tokens[1..]))
  }

  lemma {:induction false} GapsAreSkipped(gap: string, rest: string)
    requires AllBlank(gap)
    ensures ParseTokens(gap + rest) == ParseTokens(rest)
    decreases |gap|
  {
    if gap == "" {
      assert gap + rest == rest;
    } else {
      BlanksAreSpaces(gap[0]);
      assert (gap + rest)[0] == gap[0] && (gap + rest)[1..] == gap[1..] + rest;
      GapsAreSkipped(gap[1..], rest);
    }
  }

  lemma TokenIsRead(token: string, rest: string)
    requires IsToken(token) && (rest != "" ==> IsBlankChar(rest[0]))
    ensures ParseTokens(token + rest) ==
            if ParseToken(token).Err? then ParseToken(token)
            else Prepend(ParseToken(token).pattern, ParseTokens(rest))
  {
    forall i | 0 <= i < |token|
      ensures !IsSpace(token[i])
    {
      BlanksAreSpaces(token[i]);
    }
    if rest != "" {
      BlanksAreSpaces(rest[0]);
    }
    TokenLengthIs(token, rest);
    var s := token + rest;
    assert s[0] == token[0] && s[..|token|] == token && s[|token|..] == rest;
  }

  lemma LayoutStarts(gaps: seq<string>, tokens: seq<string>)
    requires IsLayout(gaps, tokens) && (tokens != [] ==> gaps[0] != "")
    ensures LaidOut(gaps, tokens) != "" ==> IsBlankChar(LaidOut(gaps, tokens)[0])
  {
    if LaidOut(gaps, tokens) != "" {
      assert LaidOut(gaps, tokens)[0] == gaps[0][0];
    }
  }

  /** A text is read token by token, whatever blanks lie around the tokens. */
  lemma {:induction false} LayoutParses(gaps: seq<string>, tokens: seq<string>)
    requires IsLayout(gaps, tokens)
    ensures ParseTokens(LaidOut(gaps, tokens)) == Combined(tokens)
    decreases |tokens|
  {
    if tokens == [] {
      GapsAreSkipped(gaps[0], "");
      assert gaps[0] + "" == gaps[0];
    } else {
      var rest := LaidOut(gaps[1..], tokens[1..]);
      assert IsLayout(gaps[1..], tokens[1..]);
      GapsAreSkipped(gaps[0], tokens[0] + rest);
      LayoutStarts(gaps[1..], tokens[1..]);
      TokenIsRead(tokens[0], rest);
      LayoutParses(gaps[1..], tokens[1..]);
    }
  }

  /** Every text falls apart into tokens and blanks, so the law above speaks of every text. */
  lemma {:induction false} EveryTextIsLaidOut(s: string) returns (gaps: seq<string>, tokens: seq<string>)
    ensures IsLayout(gaps, tokens) && LaidOut(gaps, tokens) == s
    ensures s != "" && !IsBlankChar(s[0]) ==> gaps[0] == ""
    decreases |s|
  {
    if s == "" {
      gaps, tokens := [""], [];
    } else {
      var g, ts := EveryTextIsLaidOut(s[1..]);
      gaps, tokens := PutFront(s[0], g, ts);
      assert s == [s[0]] + s[1..];
    }
  }

  /** One more character in front: it joins the blanks, the first token, or is a token of its own. */
  lemma PutFront(c: char, g: seq<string>, ts: seq<string>) returns (gaps: seq<string>, tokens: seq<string>)
    requires IsLayout(g, ts)
    ensures IsLayout(gaps, tokens) && LaidOut(gaps, tokens) == [c] + LaidOut(g, ts)
    ensures !IsBlankChar(c) ==> gaps[0] == ""
  {
    if IsBlankChar(c) {
      gaps, tokens := [[c] + g[0]] + g[1..], ts;
      BlankInFront(c, g, ts);
    } else if ts != [] && g[0] == "" {
      gaps, tokens := g, [[c] + ts[0]] + ts[1..];
      CharInFront(c, g, ts);
    } else {
      gaps, tokens := [""] + g, [[c]] + ts;
      TokenInFront(c, g, ts);
    }
  }

  lemma BlankInFront(c: char, g: seq<string>, ts: seq<string>)
    requires IsLayout(g, ts) && IsBlankChar(c)
    ensures var gaps := [[c] + g[0]] + g[1..];
            IsLayout(gaps, ts) && LaidOut(gaps, ts) == [c] + LaidOut(g, ts)
  {
    var gaps := [[c] + g[0]] + g[1..];
    assert gaps[1..] == g[1..];
    assert forall k :: 0 < k < |gaps| ==> gaps[k] == g[k];
  }

  lemma CharInFront(c: char, g: seq<string>, ts: seq<string>)
    requires IsLayout(g, ts) && !IsBlankChar(c) && ts != [] && g[0] == ""
    ensures var tokens := [[c] + ts[0]] + ts[1..];
            IsLayout(g, tokens) && LaidOut(g, tokens) == [c] + LaidOut(g, ts)
  {
    var tokens := [[c] + ts[0]] + ts[1..];
    LongerToken(c, ts[0]);
    forall k | 0 <= k < |tokens|
      ensures IsToken(tokens[k])
    {
      assert k > 0 ==> tokens[k] == ts[k];
    }
    LongerText(c, g, ts);
  }

  lemma LongerToken(c: char, token: string)
    requires IsToken(token) && !IsBlankChar(c)
    ensures IsToken([c] + token)
  {
  }

  lemma LongerText(c: char, g: seq<string>, ts: seq<string>)
    requires |g| == |ts| + 1 && ts != [] && g[0] == ""
    ensures LaidOut(g, [[c] + ts[0]] + ts[1..]) == [c] + LaidOut(g, ts)
  {
    assert ([[c] + ts[0]] + ts[1..])[1..] == ts[1..];
    FrontMoves(c, ts[0], LaidOut(g[1..], ts[1..]));
  }

  lemma FrontMoves(c: char, token: string, rest: string)
    ensures "" + (([c] + token) + rest) == [c] + ("" + (token + rest))
  {
  }

  lemma TokenInFront(c: char, g: seq<string>, ts: seq<string>)
    requires IsLayout(g, ts) && !IsBlankChar(c) && (ts == [] || g[0] != "")
    ensures var gaps, tokens := [""] + g, [[c]] + ts;
            IsLayout(gaps, tokens) && LaidOut(gaps, tokens) == [c] + LaidOut(g, ts)
  {
    var gaps, tokens := [""] + g, [[c]] + ts;
    assert gaps[1..] == g && tokens[1..] == ts;
    assert forall k :: 0 < k < |gaps| ==> gaps[k] == g[k - 1];
    assert forall k :: 0 < k < |tokens| ==> tokens[k] == ts[k - 1];
  }

  /** A pattern text: its tokens in order, the first error, or the error of a text without tokens. */
  lemma PatternIsTokens(gaps: seq<string>, tokens: seq<string>)
    requires IsLayout(gaps, tokens)
    ensures ParsePattern(LaidOut(gaps, tokens)) == if tokens == [] then Err(EmptyPattern) else Combined(tokens)
  {
    LayoutParses(gaps, tokens);
    PatternListsAgree(LaidOut(gaps, tokens));
    if tokens != [] {
      TokenHasBytes(tokens[0]);
    }
  }

  lemma TokenHasBytes(token: string)
    ensures ParseToken(token).Ok? ==> ParseToken(token).pattern.bytes != []
  {
    if ParseToken(token).Ok? && token != "?" && token != "??" {
      HexTokenIs(token);
    }
  }
}
