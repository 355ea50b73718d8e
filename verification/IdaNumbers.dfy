/**
 * Integer text of the IDA adapter: a parser that refuses overflow digit by digit, proved to accept
 * exactly the numerals below 2^64, and the printed forms it must read back.
 */
module IdaNumbers {
  import opened Options
  import opened Utf8

  const U64_LIMIT: nat := 0x1_0000_0000_0000_0000

  // ---------- numerals ----------

  /** Tab, line feed, vertical tab, form feed, carriage return and space. */
  predicate IsSpace(c: char) {
    c as int in {9, 10, 11, 12, 13, 32}
  }

  function DigitOf(c: char): Option<nat> {
    if '0' <= c <= '9' then Some(c as int - '0' as int)
    else if 'a' <= c <= 'f' then Some(c as int - 'a' as int + 10)
    else if 'A' <= c <= 'F' then Some(c as int - 'A' as int + 10)
    else None
  }

  predicate IsDigit(c: char, base: nat) {
    DigitOf(c).Some? && DigitOf(c).value < base
  }

  predicate AllDigits(s: string, base: nat) {
    forall i :: 0 <= i < |s| ==> IsDigit(s[i], base)
  }

  /** The value of a digit string in positional notation. */
  function Value(s: string, base: nat): nat
    requires AllDigits(s, base)
  {
    if s == "" then 0 else Value(s[..|s| - 1], base) * base + DigitOf(s[|s| - 1]).value
  }

  function TrimLeft(s: string): string {
    if s != "" && IsSpace(s[0]) then TrimLeft(s[1..]) else s
  }

  function TrimRight(s: string): string {
    if s != "" && IsSpace(s[|s| - 1]) then TrimRight(s[..|s| - 1]) else s
  }

  function Trim(s: string): string {
    TrimRight(TrimLeft(s))
  }

  function BaseOf(s: string): nat {
    if |s| > 2 && s[0] == '0' && s[1] in {'x', 'X'} then 16
    else if |s| > 2 && s[0] == '0' && s[1] in {'b', 'B'} then 2
    else 10
  }

  function DigitsOf(s: string): string {
    if BaseOf(s) == 10 then s else s[2..]
  }

  /** The trimmed text is a decimal, 0x or 0b numeral. */
  predicate IsNumeral(text: string) {
    var s := Trim(text);
    s != "" && AllDigits(DigitsOf(s), BaseOf(s))
  }

  function NumeralValue(text: string): nat
    requires IsNumeral(text)
  {
    Value(DigitsOf(Trim(text)), BaseOf(Trim(text)))
  }

  /** What the parser accepts: every numeral below 2^64, with its value, and nothing else. */
  function Parse(text: string): Option<nat> {
    if IsNumeral(text) && NumeralValue(text) < U64_LIMIT then Some(NumeralValue(text)) else None
  }

  // ---------- trimming ----------

  predicate AllSpaces(s: string) {
    forall i :: 0 <= i < |s| ==> IsSpace(s[i])
  }

  predicate IsTight(s: string) {
    s != "" ==> !IsSpace(s[0]) && !IsSpace(s[|s| - 1])
  }

  lemma {:induction false} TrimLeftSplits(s: string) returns (left: string)
    ensures s == left + TrimLeft(s) && AllSpaces(left)
    ensures TrimLeft(s) != "" ==> !IsSpace(TrimLeft(s)[0])
    decreases |s|
  {
    if s != "" && IsSpace(s[0]) {
      var rest := TrimLeftSplits(s[1..]);
      left := [s[0]] + rest;
    } else {
      left := "";
    }
  }

  lemma {:induction false} TrimRightSplits(s: string) returns (right: string)
    ensures s == TrimRight(s) + right && AllSpaces(right)
    ensures TrimRight(s) != "" ==> !IsSpace(TrimRight(s)[|TrimRight(s)| - 1])
    decreases |s|
  {
    if s != "" && IsSpace(s[|s| - 1]) {
      var rest := TrimRightSplits(s[..|s| - 1]);
      right := rest + [s[|s| - 1]];
    } else {
      right := "";
    }
  }

  /** Trimming removes spaces at both ends, all of them and nothing else. */
  lemma TrimIsExact(s: string)
    ensures IsTight(Trim(s))
    ensures exists left, right :: s == left + Trim(s) + right && AllSpaces(left) && AllSpaces(right)
  {
    var left := TrimLeftSplits(s);
    var right := TrimRightSplits(TrimLeft(s));
    assert s == left + Trim(s) + right;
    if Trim(s) != "" {
      assert Trim(s)[0] == TrimLeft(s)[0];
    }
  }

  lemma TightStays(s: string)
    requires IsTight(s)
    ensures Trim(s) == s
  {
  }

  // ---------- the parser ----------

  lemma ValueSnoc(s: string, c: char, base: nat)
    requires AllDigits(s, base) && IsDigit(c, base)
    ensures AllDigits(s + [c], base) && Value(s + [c], base) == Value(s, base) * base + DigitOf(c).value
  {
    assert (s + [c])[..|s|] == s;
  }

  /** The guard compares before it multiplies, in numbers that fit 64 bits; it refuses exactly the overflows. */
  lemma GuardIsExact(result: nat, digit: nat, base: nat)
    requires 1 <= base && digit < U64_LIMIT
    ensures result > (U64_LIMIT - 1 - digit) / base <==> result * base + digit >= U64_LIMIT
  {
    var room := U64_LIMIT - 1 - digit;
    var q := room / base;
    assert room == q * base + room % base;
    if result > q {
      Monotone(q + 1, result, base);
      assert (q + 1) * base == q * base + base;
    } else {
      Monotone(result, q, base);
    }
  }

  lemma Monotone(a: nat, b: nat, c: nat)
    requires a <= b
    ensures a * c <= b * c
  {
    assert b * c == a * c + (b - a) * c;
  }

  lemma AtLeast(a: nat, b: nat)
    requires b >= 1
    ensures a * b >= a
  {
    assert a * b == a * (b - 1) + a;
  }

  lemma {:induction false} PrefixValueIsLess(s: string, base: nat, i: nat)
    requires AllDigits(s, base) && i <= |s| && 1 <= base
    ensures Value(s[..i], base) <= Value(s, base)
    decreases |s|
  {
    if i < |s| {
      var t := s[..|s| - 1];
      PrefixValueIsLess(t, base, i);
      assert t[..i] == s[..i];
      AtLeast(Value(t, base), base);
    } else {
      assert s[..i] == s;
    }
  }

  /** The digit loop: a bad digit or an overflow ends it. */
  method AccumulateDigits(digits: string, base: nat) returns (r: Option<nat>)
    requires 2 <= base <= 16
    ensures r == if AllDigits(digits, base) && Value(digits, base) < U64_LIMIT then Some(Value(digits, base)) else None
  {
    var result: nat := 0;
    for i := 0 to |digits|
      invariant AllDigits(digits[..i], base)
      invariant result == Value(digits[..i], base) < U64_LIMIT
    {
      var digit := DigitOf(digits[i]);
      if digit.None? || digit.value >= base {
        assert !IsDigit(digits[i], base);
        return None;
      }
      assert digits[..i + 1] == digits[..i] + [digits[i]];
      ValueSnoc(digits[..i], digits[i], base);
      GuardIsExact(result, digit.value, base);
      if result > (U64_LIMIT - 1 - digit.value) / base {
        if AllDigits(digits, base) {
          PrefixValueIsLess(digits, base, i + 1);
        }
        return None;
      }
      result := result * base + digit.value;
    }
    assert digits[..|digits|] == digits;
    r := Some(result);
  }

  method ParseU64Text(text: string) returns (r: Option<nat>)
    ensures r == Parse(text)
  {
    var s := Trim(text);
    if s == "" {
      return None;
    }
    if |s| > 2 && s[0] == '0' && (s[1] == 'x' || s[1] == 'X') {
      r := AccumulateDigits(s[2..], 16);
    } else if |s| > 2 && s[0] == '0' && (s[1] == 'b' || s[1] == 'B') {
      r := AccumulateDigits(s[2..], 2);
    } else {
      r := AccumulateDigits(s, 10);
    }
  }

  // ---------- printing ----------

  function DigitChar(n: nat): char
    requires n < 16
  {
    "0123456789abcdef"[n]
  }

  /** The usual positional numeral, without leading zeros. */
  function Digits(v: nat, base: nat): (s: string)
    requires 2 <= base <= 16
    ensures s != ""
    decreases v
  {
    if v < base then [DigitChar(v)] else Digits(v / base, base) + [DigitChar(v % base)]
  }

  lemma DigitCharParses(n: nat)
    requires n < 16
    ensures DigitOf(DigitChar(n)) == Some(n) && !IsSpace(DigitChar(n)) && DigitChar(n) !in {'x', 'X', 'B'}
    ensures n < 10 ==> DigitChar(n) != 'b'
  {
  }

  lemma Division(v: nat, base: nat) returns (q: nat, d: nat)
    requires 2 <= base <= 16
    ensures d < base && v == q * base + d && (v >= base ==> q < v)
    ensures Digits(v, base) == if v < base then [DigitChar(v)] else Digits(q, base) + [DigitChar(d)]
  {
    q, d := v / base, v % base;
    QuotientShrinks(v, base);
  }

  lemma QuotientShrinks(v: nat, base: nat)
    requires 2 <= base
    ensures v == v / base * base + v % base && v % base < base && (v >= base ==> v / base < v)
  {
    var q := v / base;
    if v >= base {
      assert q * base == q * 2 + q * (base - 2);
      Monotone(0, q, base - 2);
    }
  }

  lemma {:induction false} DigitsValue(v: nat, base: nat)
    requires 2 <= base <= 16
    ensures AllDigits(Digits(v, base), base) && Value(Digits(v, base), base) == v
    decreases v
  {
    var q, d := Division(v, base);
    if v < base {
      DigitCharParses(v);
      ValueSnoc("", DigitChar(v), base);
      assert "" + [DigitChar(v)] == Digits(v, base);
      assert Value("", base) == 0;
    } else {
      DigitsValue(q, base);
      DigitCharParses(d);
      ValueSnoc(Digits(q, base), DigitChar(d), base);
    }
  }

  lemma {:induction false} DigitsAreTight(v: nat, base: nat)
    requires 2 <= base <= 16
    ensures IsTight(Digits(v, base))
    ensures forall i :: 0 <= i < |Digits(v, base)| ==>
              exists n :: 0 <= n < base && Digits(v, base)[i] == DigitChar(n)
    decreases v
  {
    var q, d := Division(v, base);
    DigitCharParses(d);
    if v >= base {
      DigitsAreTight(q, base);
    } else {
      DigitCharParses(v);
    }
  }

  /** The decimal text parses back to the number. */
  lemma DecimalParsesBack(v: nat)
    requires v < U64_LIMIT
    ensures Parse(Digits(v, 10)) == Some(v)
  {
    var s := Digits(v, 10);
    DigitsAreTight(v, 10);
    DigitsValue(v, 10);
    TightStays(s);
    if |s| > 2 {
      var n :| 0 <= n < 10 && s[1] == DigitChar(n);
      DigitCharParses(n);
    }
  }

  lemma PrefixedNumeral(mark: char, base: nat, digits: string)
    requires (mark == 'x' && base == 16) || (mark == 'b' && base == 2)
    requires digits != "" && IsTight(digits) && AllDigits(digits, base) && Value(digits, base) < U64_LIMIT
    ensures Parse(['0', mark] + digits) == Some(Value(digits, base))
  {
    var s := ['0', mark] + digits;
    assert s[|s| - 1] == digits[|digits| - 1];
    TightStays(s);
    assert s[2..] == digits;
    assert BaseOf(s) == base && DigitsOf(s) == digits;
  }

  /** So do the 0x and 0b texts. */
  lemma PrefixedParsesBack(v: nat, hex: bool)
    requires v < U64_LIMIT
    ensures Parse((if hex then "0x" else "0b") + Digits(v, if hex then 16 else 2)) == Some(v)
  {
    var base := if hex then 16 else 2;
    DigitsAreTight(v, base);
    DigitsValue(v, base);
    PrefixedNumeral(if hex then 'x' else 'b', base, Digits(v, base));
    assert (if hex then "0x" else "0b") == ['0', if hex then 'x' else 'b'];
  }

  // ---------- radix conversion ----------

  /** A logical shift to the right. */
  function ShiftRight(v: nat, n: nat): nat
    decreases n
  {
    if n == 0 then v else ShiftRight(v / 2, n - 1)
  }

  lemma {:induction false} ShiftOnce(v: nat, n: nat)
    ensures ShiftRight(v, n + 1) == ShiftRight(v, n) / 2
    decreases n
  {
    if n > 0 {
      ShiftOnce(v / 2, n - 1);
    }
  }

  function Pow2(n: nat): (p: nat)
    ensures p >= 1
  {
    if n == 0 then 1 else 2 * Pow2(n - 1)
  }

  lemma {:induction false} ShiftOut(v: nat, n: nat)
    requires v < Pow2(n)
    ensures ShiftRight(v, n) == 0
    decreases n
  {
    if n > 0 {
      ShiftOut(v / 2, n - 1);
    }
  }

  lemma EightMore(n: nat)
    ensures Pow2(n + 8) == 0x100 * Pow2(n)
  {
    assert Pow2(n + 2) == 4 * Pow2(n);
    assert Pow2(n + 4) == 4 * Pow2(n + 2);
    assert Pow2(n + 6) == 4 * Pow2(n + 4);
    assert Pow2(n + 8) == 4 * Pow2(n + 6);
  }

  lemma PowerOf64()
    ensures Pow2(64) == U64_LIMIT
  {
    EightMore(0);
    EightMore(8);
    EightMore(16);
    EightMore(24);
    EightMore(32);
    EightMore(40);
    EightMore(48);
    EightMore(56);
  }

  lemma LastBinaryDigit(v: nat)
    requires v >= 2
    ensures Digits(v, 2) == Digits(v / 2, 2) + [if v % 2 == 1 then '1' else '0']
  {
    assert DigitChar(0) == '0' && DigitChar(1) == '1';
    assert v % 2 == 0 || v % 2 == 1;
  }

  /** Prints the bits from the highest set one down; zero prints one digit. */
  method BinaryText(value: nat) returns (binary: string)
    requires value < U64_LIMIT
    ensures binary == "0b" + Digits(value, 2)
  {
    binary := "0b";
    var seenOne := false;
    var bit := 64;
    PowerOf64();
    ShiftOut(value, 64);
    while bit > 0
      invariant 0 <= bit <= 64
      invariant seenOne <==> ShiftRight(value, bit) != 0 || bit == 0
      invariant binary == "0b" + if seenOne then Digits(ShiftRight(value, bit), 2) else ""
    {
      bit := bit - 1;
      ShiftOnce(value, bit);
      var shifted := ShiftRight(value, bit);
      var isSet := shifted % 2 == 1;
      if shifted >= 2 {
        LastBinaryDigit(shifted);
      }
      if isSet || seenOne || bit == 0 {
        binary := binary + [if isSet then '1' else '0'];
        seenOne := true;
      }
    }
  }

  function FromLittleEndian(bytes: seq<Byte>): nat {
    if bytes == [] then 0 else bytes[0] + 0x100 * FromLittleEndian(bytes[1..])
  }

  function LowBytes(v: nat, n: nat): seq<Byte>
    decreases n
  {
    if n == 0 then [] else [v % 0x100] + LowBytes(v / 0x100, n - 1)
  }

  lemma {:induction false} LowBytesSum(v: nat, n: nat)
    requires v < Pow2(8 * n)
    ensures |LowBytes(v, n)| == n && FromLittleEndian(LowBytes(v, n)) == v
    decreases n
  {
    if n > 0 {
      EightMore(8 * (n - 1));
      LowBytesSum(v / 0x100, n - 1);
      assert LowBytes(v, n)[1..] == LowBytes(v / 0x100, n - 1);
    }
  }

  lemma EightShifts(v: nat, n: nat)
    ensures ShiftRight(v, n + 8) == ShiftRight(v / 0x100, n)
  {
    assert ShiftRight(v, n + 8) == ShiftRight(v / 4, n + 6);
    assert ShiftRight(v / 4, n + 6) == ShiftRight(v / 16, n + 4);
    assert ShiftRight(v / 16, n + 4) == ShiftRight(v / 64, n + 2);
    assert ShiftRight(v / 64, n + 2) == ShiftRight(v / 0x100, n);
  }

  lemma {:induction false} NextByte(v: nat, n: nat)
    ensures LowBytes(v, n + 1) == LowBytes(v, n) + [ShiftRight(v, 8 * n) % 0x100]
    decreases n
  {
    if n > 0 {
      NextByte(v / 0x100, n - 1);
      EightShifts(v, 8 * (n - 1));
    }
  }

  method LittleEndian(value: nat) returns (bytes: seq<Byte>)
    requires value < U64_LIMIT
    ensures |bytes| == 8 && FromLittleEndian(bytes) == value
  {
    bytes := [];
    for i := 0 to 8
      invariant bytes == LowBytes(value, i)
    {
      NextByte(value, i);
      bytes := bytes + [ShiftRight(value, 8 * i) % 0x100];
    }
    PowerOf64();
    LowBytesSum(value, 8);
  }
}
