/**
 * The integer conversion of the IDA adapter: a number is read from a numeral, from characters or from a list
 * of bytes, and printed in every form. What is printed spelled back as the number.
 */
module IdaConvert {
  import opened Options
  import opened Utf8
  import opened IdaNumbers

  // ---------- little-endian numbers ----------

  /** A byte shifted to the left by n bytes. */
  function Shifted(b: nat, n: nat): nat {
    if n == 0 then b else 0x100 * Shifted(b, n - 1)
  }

  /** Setting the bits of one more byte above the others adds it, shifted. */
  lemma {:induction false} LittleEndianSnoc(bytes: seq<Byte>, b: Byte)
    ensures FromLittleEndian(bytes + [b]) == FromLittleEndian(bytes) + Shifted(b, |bytes|)
    decreases |bytes|
  {
    if bytes == [] {
      assert FromLittleEndian([b][1..]) == 0;
    } else {
      LittleEndianSnoc(bytes[1..], b);
      assert (bytes + [b])[1..] == bytes[1..] + [b];
    }
  }

  lemma {:induction false} LittleEndianBound(bytes: seq<Byte>)
    ensures FromLittleEndian(bytes) < Pow2(8 * |bytes|)
    decreases |bytes|
  {
    if bytes != [] {
      LittleEndianBound(bytes[1..]);
      EightMore(8 * |bytes[1..]|);
    }
  }

  lemma {:induction false} PowersGrow(m: nat, n: nat)
    requires m <= n
    ensures Pow2(m) <= Pow2(n)
    decreases n
  {
    if m < n {
      PowersGrow(m, n - 1);
    }
  }

  lemma EightBytesFit(bytes: seq<Byte>)
    requires |bytes| <= 8
    ensures FromLittleEndian(bytes) < U64_LIMIT
  {
    LittleEndianBound(bytes);
    PowersGrow(8 * |bytes|, 64);
    PowerOf64();
  }

  // ---------- characters ----------

  function CharByte(c: char): Byte {
    c as int % 0x100
  }

  function BytesOf(text: string): seq<Byte> {
    seq(|text|, i requires 0 <= i < |text| => CharByte(text[i]))
  }

  function FirstEight(text: string): string {
    if |text| <= 8 then text else text[..8]
  }

  /** The characters as bytes, lowest first, at most eight of them. Their bits do not overlap. */
  method ReadAscii(text: string) returns (value: nat)
    ensures value == FromLittleEndian(BytesOf(FirstEight(text))) < U64_LIMIT
  {
    value := 0;
    var i := 0;
    while i < |text| && i < 8
      invariant 0 <= i <= |FirstEight(text)|
      invariant value == FromLittleEndian(BytesOf(FirstEight(text)[..i]))
    {
      LittleEndianSnoc(BytesOf(text[..i]), CharByte(text[i]));
      assert BytesOf(text[..i]) + [CharByte(text[i])] == BytesOf(text[..i + 1]);
      assert FirstEight(text)[..i] == text[..i] && FirstEight(text)[..i + 1] == text[..i + 1];
      value := value + Shifted(CharByte(text[i]), i);
      i := i + 1;
    }
    assert FirstEight(text)[..i] == FirstEight(text);
    EightBytesFit(BytesOf(FirstEight(text)));
  }

  predicate Printable(b: Byte) {
    0x20 <= b < 0x7F
  }

  /** The bytes up to the first zero as characters, with a dot for what cannot be printed. */
  function AsciiText(bytes: seq<Byte>): string {
    if bytes == [] || bytes[0] == 0 then ""
    else [if Printable(bytes[0]) then bytes[0] as char else '.'] + AsciiText(bytes[1..])
  }

  method PrintAscii(bytes: seq<Byte>) returns (ascii: string)
    ensures ascii == AsciiText(bytes)
  {
    ascii := "";
    var i := 0;
    while i < |bytes|
      invariant 0 <= i <= |bytes|
      invariant ascii + AsciiText(bytes[i..]) == AsciiText(bytes)
    {
      if bytes[i] == 0 {
        assert ascii + "" == ascii;
        return;
      }
      AsciiNext(ascii, bytes[i..]);
      assert bytes[i..][1..] == bytes[i + 1..];
      ascii := ascii + [if Printable(bytes[i]) then bytes[i] as char else '.'];
      i := i + 1;
    }
  }

  lemma AsciiNext(text: string, bytes: seq<Byte>)
    requires bytes != [] && bytes[0] != 0
    ensures text + AsciiText(bytes) ==
            text + [if Printable(bytes[0]) then bytes[0] as char else '.'] + AsciiText(bytes[1..])
  {
  }

  // ---------- lists of bytes ----------

  predicate IsSeparator(c: char) {
    c == ' ' || c == ',' || c == '-'
  }

  function SkipSeparators(s: string): (r: string)
    ensures |r| <= |s|
    ensures r != "" ==> !IsSeparator(r[0])
  {
    if s != "" && IsSeparator(s[0]) then SkipSeparators(s[1..]) else s
  }

  function ItemLength(s: string): (n: nat)
    ensures n <= |s|
    ensures forall i :: 0 <= i < n ==> !IsSeparator(s[i])
    ensures n < |s| ==> IsSeparator(s[n])
  {
    if s == "" || IsSeparator(s[0]) then 0 else 1 + ItemLength(s[1..])
  }

  /** The first `room` items of a list; what follows them is not looked at. */
  function Items(s: string, room: nat): (items: seq<string>)
    ensures |items| <= room
    decreases room
  {
    if s == "" || room == 0 then []
    else
      var item := SkipSeparators(s);
      [item[..ItemLength(item)]] + Items(item[ItemLength(item)..], room - 1)
  }

  /** The byte that an item spells: a numeral below 256. */
  function ByteOf(item: string): Option<Byte> {
    var b := Parse(item);
    if b.None? || b.value > 0xFF then None else Some(b.value)
  }

  /** What the items of a list spell, one by one. */
  function Readings(s: string, room: nat): (spelled: seq<Option<Byte>>)
    ensures |spelled| == |Items(s, room)|
  {
    var items := Items(s, room);
    seq(|items|, i requires 0 <= i < |items| => ByteOf(items[i]))
  }

  /** All the bytes, if every item spells one. */
  function Collect(spelled: seq<Option<Byte>>): (bytes: Option<seq<Byte>>)
    ensures bytes.Some? ==> |bytes.value| == |spelled|
  {
    if spelled == [] then Some([])
    else
      var rest := Collect(spelled[1..]);
      if spelled[0].None? || rest.None? then None else Some([spelled[0].value] + rest.value)
  }

  lemma {:induction false} CollectsAll(spelled: seq<Option<Byte>>, bytes: seq<Byte>)
    requires |spelled| == |bytes| && forall i :: 0 <= i < |spelled| ==> spelled[i] == Some(bytes[i])
    ensures Collect(spelled) == Some(bytes)
    decreases |spelled|
  {
    if spelled != [] {
      CollectsAll(spelled[1..], bytes[1..]);
      assert [bytes[0]] + bytes[1..] == bytes;
    }
  }

  lemma {:induction false} CollectsNothing(spelled: seq<Option<Byte>>, k: nat)
    requires k < |spelled| && spelled[k].None?
    ensures Collect(spelled).None?
    decreases |spelled|
  {
    if k > 0 {
      CollectsNothing(spelled[1..], k - 1);
    }
  }

  /** Skips separators and spelled one item: the byte it spells, if any, and the text after it. */
  method ReadItem(text: string, ghost room: nat) returns (b: Option<Byte>, rest: string)
    requires text != "" && room >= 1
    ensures Readings(text, room) == [b] + Readings(rest, room - 1)
  {
    var item := SkipSeparators(text);
    var n := ItemLength(item);
    var value := ParseU64Text(item[..n]);
    b := if value.None? || value.value > 0xFF then None else Some(value.value);
    rest := item[n..];
  }

  /** The bytes read so far and their sum; `left` is what the rest of the list spells. */
  ghost predicate Reading(spelled: seq<Option<Byte>>, got: seq<Byte>, sum: nat, left: seq<Option<Byte>>) {
    && |got| <= |spelled|
    && (forall k :: 0 <= k < |got| ==> spelled[k] == Some(got[k]))
    && sum == FromLittleEndian(got)
    && left == spelled[|got|..]
  }

  lemma ReadsOn(spelled: seq<Option<Byte>>, got: seq<Byte>, sum: nat, b: Byte, left: seq<Option<Byte>>)
    requires Reading(spelled, got, sum, [Some(b)] + left)
    ensures Reading(spelled, got + [b], sum + Shifted(b, |got|), left)
  {
    assert spelled[|got|] == ([Some(b)] + left)[0];
    assert spelled[|got| + 1..] == ([Some(b)] + left)[1..];
    LittleEndianSnoc(got, b);
  }

  lemma StopsReading(spelled: seq<Option<Byte>>, got: seq<Byte>, sum: nat, left: seq<Option<Byte>>)
    requires Reading(spelled, got, sum, [None] + left)
    ensures Collect(spelled).None?
  {
    assert spelled[|got|] == ([None] + left)[0];
    CollectsNothing(spelled, |got|);
  }

  lemma ReadsAll(spelled: seq<Option<Byte>>, got: seq<Byte>, sum: nat)
    requires Reading(spelled, got, sum, [])
    ensures Collect(spelled).Some? && sum == FromLittleEndian(Collect(spelled).value)
  {
    CollectsAll(spelled, got);
  }

  lemma NothingLeft(rest: string, room: nat)
    requires rest == "" || room == 0
    ensures Readings(rest, room) == []
  {
  }

  /** Where the loop over the items stands: the bytes read, their sum, and the text still to read. */
  ghost predicate Underway(spelled: seq<Option<Byte>>, got: seq<Byte>, sum: nat, rest: string, room: nat) {
    Reading(spelled, got, sum, Readings(rest, room))
  }

  /** One round of the loop. */
  method AddItem(ghost spelled: seq<Option<Byte>>, ghost got: seq<Byte>, sum: nat, index: nat, rest: string, ghost room: nat)
    returns (byte: Option<Byte>, sum': nat, next: string)
    requires Underway(spelled, got, sum, rest, room) && rest != "" && room >= 1 && index == |got|
    ensures byte.None? ==> Collect(spelled).None?
    ensures byte.Some? ==> Underway(spelled, got + [byte.value], sum', next, room - 1)
  {
    byte, next := ReadItem(rest, room);
    if byte.None? {
      StopsReading(spelled, got, sum, Readings(next, room - 1));
      sum' := sum;
    } else {
      ReadsOn(spelled, got, sum, byte.value, Readings(next, room - 1));
      sum' := sum + Shifted(byte.value, index);
    }
  }

  lemma Finished(spelled: seq<Option<Byte>>, got: seq<Byte>, sum: nat, rest: string, room: nat)
    requires Underway(spelled, got, sum, rest, room) && (rest == "" || room == 0)
    ensures Collect(spelled).Some? && sum == FromLittleEndian(Collect(spelled).value)
  {
    NothingLeft(rest, room);
    ReadsAll(spelled, got, sum);
  }

  lemma Begun(text: string, room: nat)
    ensures Underway(Readings(text, room), [], 0, text, room)
  {
  }

  /** Reads items until the text or the room is used up; one that spells no byte ends it. */
  method ReadBytes(text: string, room: nat) returns (value: Option<nat>)
    ensures var bytes := Collect(Readings(text, room));
            value == if bytes.None? then None else Some(FromLittleEndian(bytes.value))
  {
    var rest, index := text, 0;
    var sum: nat := 0;
    ghost var spelled, got: seq<Byte> := Readings(text, room), [];
    Begun(text, room);
    while rest != "" && index < room
      invariant index == |got| <= room && Underway(spelled, got, sum, rest, room - index)
      decreases room - index
    {
      var byte;
      byte, sum, rest := AddItem(spelled, got, sum, index, rest, room - index);
      if byte.None? {
        return None;
      }
      got := got + [byte.value];
      index := index + 1;
    }
    Finished(spelled, got, sum, rest, room - index);
    value := Some(sum);
  }

  // ---------- the conversion ----------

  const ASCII := "ascii:"
  const BYTES := "bytes:"
  const BYTES_LE := "bytes_le:"

  /** The number an input stands for. */
  function InputValue(input: string): Option<nat> {
    if ASCII <= input then Some(FromLittleEndian(BytesOf(FirstEight(input[|ASCII|..]))))
    else if BYTES <= input || BYTES_LE <= input then
      var bytes := Collect(Readings(input[if BYTES <= input then |BYTES| else |BYTES_LE|..], 8));
      if bytes.None? then None else Some(FromLittleEndian(bytes.value))
    else Parse(input)
  }

  datatype Converted = Converted(decimal: string, hex: string, binary: string, bytesLe: seq<Byte>, ascii: string)

  /** The printed forms of one number: each text parses back to it, and the bytes sum to it in base 256. */
  method ConvertInt(value: nat) returns (c: Converted)
    requires value < U64_LIMIT
    ensures Parse(c.decimal) == Parse(c.hex) == Parse(c.binary) == Some(value)
    ensures |c.bytesLe| == 8 && FromLittleEndian(c.bytesLe) == value
    ensures c.ascii == AsciiText(c.bytesLe)
  {
    var binary := BinaryText(value);
    var bytes := LittleEndian(value);
    var ascii := PrintAscii(bytes);
    c := Converted(Digits(value, 10), "0x" + Digits(value, 16), binary, bytes, ascii);
    DecimalParsesBack(value);
    PrefixedParsesBack(value, true);
    PrefixedParsesBack(value, false);
  }

  /** One input of the conversion; None is the error of an input that stands for no number. */
  method ConvertInput(input: string) returns (c: Option<Converted>)
    ensures c.Some? <==> InputValue(input).Some?
    ensures c.Some? ==>
              && Parse(c.value.decimal) == Parse(c.value.hex) == Parse(c.value.binary) == InputValue(input)
              && |c.value.bytesLe| == 8 && Some(FromLittleEndian(c.value.bytesLe)) == InputValue(input)
              && c.value.ascii == AsciiText(c.value.bytesLe)
  {
    var value: Option<nat>;
    InputFits(input);
    if ASCII <= input {
      var v := ReadAscii(input[|ASCII|..]);
      value := Some(v);
    } else if BYTES <= input {
      value := ReadBytes(input[|BYTES|..], 8);
    } else if BYTES_LE <= input {
      value := ReadBytes(input[|BYTES_LE|..], 8);
    } else {
      value := ParseU64Text(input);
    }
    if value.None? {
      return None;
    }
    var converted := ConvertInt(value.value);
    c := Some(converted);
  }

  lemma InputFits(input: string)
    ensures InputValue(input).Some? ==> InputValue(input).value < U64_LIMIT
  {
    if ASCII <= input {
      EightBytesFit(BytesOf(FirstEight(input[|ASCII|..])));
    } else if BYTES <= input || BYTES_LE <= input {
      var bytes := Collect(Readings(input[if BYTES <= input then |BYTES| else |BYTES_LE|..], 8));
      if bytes.Some? {
        EightBytesFit(bytes.value);
      }
    }
  }

  // ---------- what is printed spelled back ----------

  lemma {:induction false} LittleEndianUnique(a: seq<Byte>, b: seq<Byte>)
    requires |a| == |b| && FromLittleEndian(a) == FromLittleEndian(b)
    ensures a == b
    decreases |a|
  {
    if a != [] {
      LowByte(a[0], FromLittleEndian(a[1..]), b[0], FromLittleEndian(b[1..]));
      LittleEndianUnique(a[1..], b[1..]);
    }
  }

  lemma LowByte(a: Byte, x: nat, b: Byte, y: nat)
    requires a + 0x100 * x == b + 0x100 * y
    ensures a == b && x == y
  {
  }

  function Zeros(n: nat): seq<Byte> {
    seq(n, _ => 0)
  }

  lemma {:induction false} ZeroShifted(n: nat)
    ensures Shifted(0, n) == 0
    decreases n
  {
    if n > 0 {
      ZeroShifted(n - 1);
    }
  }

  lemma {:induction false} ZerosAddNothing(bytes: seq<Byte>, n: nat)
    ensures FromLittleEndian(bytes + Zeros(n)) == FromLittleEndian(bytes)
    decreases n
  {
    if n == 0 {
      assert bytes + Zeros(0) == bytes;
    } else {
      ZerosAddNothing(bytes, n - 1);
      LittleEndianSnoc(bytes + Zeros(n - 1), 0);
      ZeroShifted(|bytes + Zeros(n - 1)|);
      assert bytes + Zeros(n - 1) + [0] == bytes + Zeros(n);
    }
  }

  lemma {:induction false} AsciiOf(text: string, n: nat)
    requires forall i :: 0 <= i < |text| ==> 0x20 <= text[i] as int < 0x7F
    ensures AsciiText(BytesOf(text) + Zeros(n)) == text
    decreases |text|
  {
    var bytes := BytesOf(text) + Zeros(n);
    if text != "" {
      AsciiOf(text[1..], n);
      assert bytes[0] == CharByte(text[0]) && bytes[1..] == BytesOf(text[1..]) + Zeros(n);
      assert text == [text[0]] + text[1..];
    }
  }

  /** Up to eight printable characters come back as the `ascii` form of the number they stand for. */
  lemma AsciiRoundTrip(text: string, bytesLe: seq<Byte>)
    requires |text| <= 8 && forall i :: 0 <= i < |text| ==> 0x20 <= text[i] as int < 0x7F
    requires |bytesLe| == 8 && Some(FromLittleEndian(bytesLe)) == InputValue("ascii:" + text)
    ensures AsciiText(bytesLe) == text
  {
    assert (ASCII + text)[|ASCII|..] == text;
    var padded := BytesOf(text) + Zeros(8 - |text|);
    ZerosAddNothing(BytesOf(text), 8 - |text|);
    LittleEndianUnique(bytesLe, padded);
    AsciiOf(text, 8 - |text|);
  }

  /** Whatever the characters, the first eight are the bytes of the number, and the rest is not looked at. */
  lemma AsciiBytes(text: string, bytesLe: seq<Byte>, k: nat)
    requires |bytesLe| == 8 && Some(FromLittleEndian(bytesLe)) == InputValue("ascii:" + text) && k < 8
    ensures bytesLe[k] == if k < |text| then text[k] as int % 0x100 else 0
  {
    assert ("ascii:" + text)[6..] == text;
    var eight := FirstEight(text);
    var padded := BytesOf(eight) + Zeros(8 - |eight|);
    ZerosAddNothing(BytesOf(eight), 8 - |eight|);
    LittleEndianUnique(bytesLe, padded);
  }

  /** The printed characters: one for each byte before the first zero, a dot for those that cannot be printed. */
  lemma {:induction false} AsciiTextIs(bytes: seq<Byte>, k: nat)
    requires k <= |bytes| && (forall i :: 0 <= i < k ==> bytes[i] != 0) && (k < |bytes| ==> bytes[k] == 0)
    ensures |AsciiText(bytes)| == k
    ensures forall i :: 0 <= i < k ==>
              AsciiText(bytes)[i] == if 32 <= bytes[i] <= 126 then bytes[i] as char else '.'
    decreases |bytes|
  {
    if k > 0 {
      var rest := bytes[1..];
      assert forall i :: 0 <= i < |rest| ==> rest[i] == bytes[i + 1];
      AsciiTextIs(rest, k - 1);
      forall i | 0 <= i < k
        ensures AsciiText(bytes)[i] == if 32 <= bytes[i] <= 126 then bytes[i] as char else '.'
      {
        if i > 0 {
          assert AsciiText(bytes)[i] == AsciiText(rest)[i - 1] && bytes[i] == rest[i - 1];
        }
      }
    }
  }

  /** The items with commas between them, as a byte list is printed. */
  function Commas(items: seq<string>): string {
    if items == [] then ""
    else if |items| == 1 then items[0]
    else items[0] + "," + Commas(items[1..])
  }

  /** Text that can stand as one item. */
  predicate IsItem(item: string) {
    item != "" && forall i :: 0 <= i < |item| ==> !IsSeparator(item[i])
  }

  lemma {:induction false} ItemLengthIs(s: string, rest: string)
    requires forall i :: 0 <= i < |s| ==> !IsSeparator(s[i])
    requires rest != "" ==> IsSeparator(rest[0])
    ensures ItemLength(s + rest) == |s|
    decreases |s|
  {
    if s == "" {
      assert s + rest == rest;
    } else {
      assert (s + rest)[1..] == s[1..] + rest;
      ItemLengthIs(s[1..], rest);
    }
  }

  lemma FirstItem(item: string, rest: string, room: nat)
    requires IsItem(item) && room >= 1 && (rest != "" ==> IsSeparator(rest[0]))
    ensures Items(item + rest, room) == [item] + Items(rest, room - 1)
  {
    ItemLengthIs(item, rest);
    assert (item + rest)[..|item|] == item && (item + rest)[|item|..] == rest;
    assert SkipSeparators(item + rest) == item + rest;
  }

  lemma CommaSkipped(s: string, room: nat)
    requires s != "" && !IsSeparator(s[0])
    ensures Items("," + s, room) == Items(s, room)
  {
    assert ("," + s)[1..] == s;
    assert SkipSeparators("," + s) == s == SkipSeparators(s);
  }

  lemma ManyItems(items: seq<string>, room: nat)
    requires |items| > 1 && IsItem(items[0]) && IsItem(items[1]) && room >= 1
    ensures Items(Commas(items), room) == [items[0]] + Items(Commas(items[1..]), room - 1)
  {
    var rest := Commas(items[1..]);
    assert Commas(items) == items[0] + ("," + rest);
    FirstItem(items[0], "," + rest, room);
    assert rest[0] == items[1][0];
    CommaSkipped(rest, room - 1);
  }

  lemma CommasStep(items: seq<string>, room: nat)
    requires items != [] && room >= 1 && forall i :: 0 <= i < |items| ==> IsItem(items[i])
    ensures Items(Commas(items), room) == [items[0]] + Items(Commas(items[1..]), room - 1)
  {
    if |items| == 1 {
      FirstItem(items[0], "", room);
      assert items[0] + "" == items[0];
    } else {
      ManyItems(items, room);
    }
  }

  lemma {:induction false} CommasSplit(items: seq<string>, room: nat)
    requires |items| <= room && forall i :: 0 <= i < |items| ==> IsItem(items[i])
    ensures Items(Commas(items), room) == items
    decreases |items|
  {
    if items != [] {
      CommasStep(items, room);
      CommasSplit(items[1..], room - 1);
    }
  }

  lemma ListInput(text: string)
    ensures InputValue("bytes:" + text) == InputValue("bytes_le:" + text)
    ensures InputValue("bytes:" + text) ==
            var bytes := Collect(Readings(text, 8));
            if bytes.None? then None else Some(FromLittleEndian(bytes.value))
  {
    assert (BYTES + text)[|BYTES|..] == text && (BYTES + text)[0] == 'b';
    assert (BYTES_LE + text)[|BYTES_LE|..] == text && (BYTES_LE + text)[0] == 'b' && (BYTES_LE + text)[5] == '_';
  }

  /** Up to eight bytes, each spelled by any numeral, read as the number they stand for, lowest byte first. */
  lemma ByteListReads(items: seq<string>, bytes: seq<Byte>)
    requires |items| == |bytes| <= 8
    requires forall i :: 0 <= i < |items| ==> IsItem(items[i]) && ByteOf(items[i]) == Some(bytes[i])
    ensures InputValue("bytes:" + Commas(items)) == InputValue("bytes_le:" + Commas(items)) == Some(FromLittleEndian(bytes))
  {
    ListInput(Commas(items));
    CommasSplit(items, 8);
    CollectsAll(Readings(Commas(items), 8), bytes);
  }

  /** The decimal numeral of a byte, as the conversion prints it, spells the byte. */
  lemma DecimalSpells(b: Byte)
    ensures IsItem(Digits(b, 10)) && ByteOf(Digits(b, 10)) == Some(b)
  {
    DecimalParsesBack(b);
    DigitsAreItem(b);
  }

  lemma DigitsAreItem(v: nat)
    ensures IsItem(Digits(v, 10))
  {
    DigitsAreTight(v, 10);
    forall i | 0 <= i < |Digits(v, 10)|
      ensures !IsSeparator(Digits(v, 10)[i])
    {
      var n :| 0 <= n < 10 && Digits(v, 10)[i] == DigitChar(n);
      DigitCharParses(n);
    }
  }

  /** The printed byte list of a number, typed in again, is the number. */
  lemma BytesRoundTrip(bytes: seq<Byte>)
    requires |bytes| <= 8
    ensures InputValue("bytes:" + Commas(seq(|bytes|, i requires 0 <= i < |bytes| => Digits(bytes[i], 10)))) ==
            Some(FromLittleEndian(bytes))
  {
    var items := seq(|bytes|, i requires 0 <= i < |bytes| => Digits(bytes[i], 10));
    forall i | 0 <= i < |items|
      ensures IsItem(items[i]) && ByteOf(items[i]) == Some(bytes[i])
    {
      DecimalSpells(bytes[i]);
    }
    ByteListReads(items, bytes);
  }

  // ---------- items set apart by any separators ----------

  predicate IsGap(gap: string) {
    forall i :: 0 <= i < |gap| ==> gap[i] == ' ' || gap[i] == ',' || gap[i] == '-'
  }

  /** Items with separators before and between them. */
  predicate IsList(gaps: seq<string>, items: seq<string>) {
    && |gaps| == |items|
    && (forall k :: 0 <= k < |gaps| ==> IsGap(gaps[k]) && IsItem(items[k]))
    && (forall k :: 0 < k < |gaps| ==> gaps[k] != "")
  }

  function ListText(gaps: seq<string>, items: seq<string>): string
    requires |gaps| == |items|
  {
    if items == [] then "" else gaps[0] + (items[0] + ListText(gaps[1..], items[1..]))
  }

  lemma {:induction false} GapSkipped(gap: string, rest: string)
    requires IsGap(gap) && (rest != "" ==> !IsSeparator(rest[0]))
    ensures SkipSeparators(gap + rest) == rest
    decreases |gap|
  {
    if gap == "" {
      assert gap + rest == rest;
    } else {
      assert (gap + rest)[1..] == gap[1..] + rest;
      GapSkipped(gap[1..], rest);
    }
  }

  lemma ItemRead(gap: string, item: string, rest: string, room: nat)
    requires IsGap(gap) && IsItem(item) && room >= 1 && (rest != "" ==> IsSeparator(rest[0]))
    ensures Items(gap + (item + rest), room) == [item] + Items(rest, room - 1)
  {
    assert (item + rest)[0] == item[0];
    GapSkipped(gap, item + rest);
    ItemLengthIs(item, rest);
    assert (item + rest)[..|item|] == item && (item + rest)[|item|..] == rest;
  }

  lemma TailStarts(gaps: seq<string>, items: seq<string>, end: string)
    requires IsList(gaps, items) && (items != [] ==> gaps[0] != "") && IsGap(end)
    ensures ListText(gaps, items) + end != "" ==> IsSeparator((ListText(gaps, items) + end)[0])
  {
    if items != [] {
      assert (ListText(gaps, items) + end)[0] == gaps[0][0];
    } else {
      assert ListText(gaps, items) + end == end;
    }
  }

  lemma NoItems(end: string, room: nat)
    requires IsGap(end) && room > 0
    ensures Items(end, room) == if end == "" then [] else [""]
  {
    if end != "" {
      GapSkipped(end, "");
      assert end + "" == end;
    }
  }

  lemma OneItem(gaps: seq<string>, items: seq<string>, end: string, room: nat)
    requires IsList(gaps, items) && IsGap(end) && items != [] && room > 0
    ensures IsList(gaps[1..], items[1..])
    ensures Items(ListText(gaps, items) + end, room) ==
            [items[0]] + Items(ListText(gaps[1..], items[1..]) + end, room - 1)
  {
    var rest := ListText(gaps[1..], items[1..]);
    assert gaps[0] + (items[0] + rest) + end == gaps[0] + (items[0] + (rest + end));
    TailStarts(gaps[1..], items[1..], end);
    ItemRead(gaps[0], items[0], rest + end, room);
  }

  /** What is read of a list: the first items, or all of them and an empty one for separators at the end. */
  function ReadOf(items: seq<string>, end: string, room: nat): seq<string> {
    if |items| >= room then items[..room] else if end == "" then items else items + [""]
  }

  lemma ReadOfStep(items: seq<string>, end: string, room: nat)
    requires items != [] && room > 0
    ensures ReadOf(items, end, room) == [items[0]] + ReadOf(items[1..], end, room - 1)
  {
  }

  ghost predicate ReadsItems(gaps: seq<string>, items: seq<string>, end: string, room: nat)
    requires |gaps| == |items|
  {
    Items(ListText(gaps, items) + end, room) == ReadOf(items, end, room)
  }

  lemma ReadsNoItem(gaps: seq<string>, items: seq<string>, end: string, room: nat)
    requires IsList(gaps, items) && IsGap(end) && (items == [] || room == 0)
    ensures ReadsItems(gaps, items, end, room)
  {
    if room > 0 {
      assert ListText(gaps, items) + end == end;
      NoItems(end, room);
    }
  }

  lemma ReadsOneMore(gaps: seq<string>, items: seq<string>, end: string, room: nat)
    requires IsList(gaps, items) && IsGap(end) && items != [] && room > 0
    requires ReadsItems(gaps[1..], items[1..], end, room - 1)
    ensures ReadsItems(gaps, items, end, room)
  {
    OneItem(gaps, items, end, room);
    ReadOfStep(items, end, room);
  }

  lemma {:induction false} ItemsOfList(gaps: seq<string>, items: seq<string>, end: string, room: nat)
    requires IsList(gaps, items) && IsGap(end)
    ensures ReadsItems(gaps, items, end, room)
    decreases |items|
  {
    if items == [] || room == 0 {
      ReadsNoItem(gaps, items, end, room);
    } else {
      ItemsOfList(gaps[1..], items[1..], end, room - 1);
      ReadsOneMore(gaps, items, end, room);
    }
  }

  /** The number of the bytes that the items spell, if every item spells one. */
  ghost function NumberOf(items: seq<string>): Option<nat> {
    if exists k :: 0 <= k < |items| && ByteOf(items[k]).None? then None
    else Some(FromLittleEndian(seq(|items|, k requires 0 <= k < |items| => ByteOf(items[k]).GetOr(0))))
  }

  lemma CollectsNumber(items: seq<string>, spelled: seq<Option<Byte>>)
    requires |spelled| == |items| && forall k :: 0 <= k < |items| ==> spelled[k] == ByteOf(items[k])
    ensures var bytes := Collect(spelled);
            NumberOf(items) == if bytes.None? then None else Some(FromLittleEndian(bytes.value))
  {
    if k :| 0 <= k < |items| && ByteOf(items[k]).None? {
      CollectsNothing(spelled, k);
    } else {
      CollectsAll(spelled, seq(|items|, k requires 0 <= k < |items| => ByteOf(items[k]).GetOr(0)));
    }
  }

  /**
   * A byte list with any separators: the first eight items read as bytes, lowest first; it is no number if
   * one of them is no byte or separators follow fewer than eight items.
   */
  lemma ByteListIs(gaps: seq<string>, items: seq<string>, end: string)
    requires IsList(gaps, items) && IsGap(end)
    ensures InputValue("bytes:" + (ListText(gaps, items) + end)) ==
            NumberOf(if |items| >= 8 then items[..8] else if end == "" then items else items + [""])
  {
    var text := ListText(gaps, items) + end;
    ListInput(text);
    ItemsOfList(gaps, items, end, 8);
    CollectsNumber(Items(text, 8), Readings(text, 8));
  }
}
