/** UTF-8 as section 3 of RFC 3629 defines it: text is the concatenated encoding of scalar values. */
module Utf8 {

  type Byte = b: int | 0 <= b < 0x100

  type Scalar = c: int | 0 <= c < 0xD800 || 0xE000 <= c < 0x110000

  function Encode(c: Scalar): (s: seq<Byte>)
    ensures 1 <= |s| <= 4
  {
    if c < 0x80 then [c]
    else if c < 0x800 then [0xC0 + c / 0x40, 0x80 + c % 0x40]
    else if c < 0x10000 then [0xE0 + c / 0x1000, 0x80 + c / 0x40 % 0x40, 0x80 + c % 0x40]
    else [0xF0 + c / 0x40000, 0x80 + c / 0x1000 % 0x40, 0x80 + c / 0x40 % 0x40, 0x80 + c % 0x40]
  }

  function EncodeAll(cs: seq<Scalar>): seq<Byte> {
    if cs == [] then [] else Encode(cs[0]) + EncodeAll(cs[1..])
  }

  ghost predicate WellFormed(s: seq<Byte>) {
    exists cs: seq<Scalar> :: EncodeAll(cs) == s
  }

  predicate IsContinuation(b: Byte) {
    0x80 <= b < 0xC0
  }

  function LeadLength(b: Byte): nat {
    if b < 0x80 then 1 else if b < 0xE0 then 2 else if b < 0xF0 then 3 else 4
  }

  /** The first byte tells the length, and only the bytes after it are continuation bytes. */
  lemma EncodeShape(c: Scalar)
    ensures !IsContinuation(Encode(c)[0]) && LeadLength(Encode(c)[0]) == |Encode(c)|
    ensures forall i :: 0 < i < |Encode(c)| ==> IsContinuation(Encode(c)[i])
  {
  }

  /** The bits of a byte that are left when its mark is taken off. */
  function Bits(b: Byte, mark: int): int {
    b - mark
  }

  lemma ThreeBytes(c: Scalar)
    requires 0x800 <= c < 0x10000
    ensures var s := Encode(c);
            |s| == 3 && c == Bits(s[0], 0xE0) * 0x1000 + Bits(s[1], 0x80) * 0x40 + Bits(s[2], 0x80)
  {
    var q := c / 0x40;
    assert c == q * 0x40 + c % 0x40 && q / 0x40 == c / 0x1000;
    assert q == q / 0x40 * 0x40 + q % 0x40;
  }

  lemma FourBytes(c: Scalar)
    requires 0x10000 <= c
    ensures var s := Encode(c);
            && |s| == 4
            && c == Bits(s[0], 0xF0) * 0x40000 + Bits(s[1], 0x80) * 0x1000 + Bits(s[2], 0x80) * 0x40 + Bits(s[3], 0x80)
  {
    var q, r := c / 0x40, c / 0x1000;
    assert c == q * 0x40 + c % 0x40 && q / 0x40 == r;
    assert q == r * 0x40 + q % 0x40 && r / 0x40 == c / 0x40000;
    assert r == r / 0x40 * 0x40 + r % 0x40;
  }

  /**
   * The table of section 3: how many bytes a scalar value takes, the marks in their high bits, and the
   * scalar value as the bits that are left, highest first.
   */
  lemma EncodeTable(c: Scalar)
    ensures var s := Encode(c);
            if c <= 0x7F then |s| == 1 && s[0] == c
            else if c <= 0x7FF then
              |s| == 2 && 0xC2 <= s[0] <= 0xDF && c == Bits(s[0], 0xC0) * 0x40 + Bits(s[1], 0x80)
            else if c <= 0xFFFF then
              && |s| == 3 && 0xE0 <= s[0] <= 0xEF
              && c == Bits(s[0], 0xE0) * 0x1000 + Bits(s[1], 0x80) * 0x40 + Bits(s[2], 0x80)
            else
              && |s| == 4 && 0xF0 <= s[0] <= 0xF4
              && c == Bits(s[0], 0xF0) * 0x40000 + Bits(s[1], 0x80) * 0x1000 + Bits(s[2], 0x80) * 0x40 + Bits(s[3], 0x80)
    ensures forall i :: 0 < i < |Encode(c)| ==> 0x80 <= Encode(c)[i] <= 0xBF
  {
    EncodeShape(c);
    if c >= 0x10000 {
      FourBytes(c);
    } else if c >= 0x800 {
      ThreeBytes(c);
    }
  }

  /** Whether a position lies between two characters, judged by one byte. */
  predicate IsBoundary(s: seq<Byte>, i: nat)
    requires i <= |s|
  {
    i == 0 || i == |s| || !IsContinuation(s[i])
  }

  lemma {:induction false} BoundaryIsWellFormed(cs: seq<Scalar>, i: nat)
    requires i <= |EncodeAll(cs)| && IsBoundary(EncodeAll(cs), i)
    ensures WellFormed(EncodeAll(cs)[..i])
    decreases |cs|
  {
    var s := EncodeAll(cs);
    if i == 0 {
      assert EncodeAll([]) == s[..i];
    } else {
      var head, tail := Encode(cs[0]), EncodeAll(cs[1..]);
      EncodeShape(cs[0]);
      assert i >= |head|;
      var j := i - |head|;
      assert j < |tail| ==> tail[j] == s[i];
      BoundaryIsWellFormed(cs[1..], j);
      var ds: seq<Scalar> :| EncodeAll(ds) == tail[..j];
      assert ([cs[0]] + ds)[1..] == ds;
      assert EncodeAll([cs[0]] + ds) == head + tail[..j] == s[..i];
    }
  }

  lemma FirstByteLeads(cs: seq<Scalar>)
    requires cs != []
    ensures EncodeAll(cs) != [] && EncodeAll(cs)[0] == Encode(cs[0])[0] && !IsContinuation(EncodeAll(cs)[0])
  {
    EncodeShape(cs[0]);
  }

  /** Behind a whole character, boundaries are those of the rest. */
  lemma BoundaryShifts(head: seq<Byte>, cs: seq<Scalar>, j: nat)
    requires j <= |EncodeAll(cs)| && IsBoundary(EncodeAll(cs), j)
    ensures IsBoundary(head + EncodeAll(cs), |head| + j)
  {
    if j < |EncodeAll(cs)| {
      assert (head + EncodeAll(cs))[|head| + j] == EncodeAll(cs)[j];
      if j == 0 {
        FirstByteLeads(cs);
      }
    }
  }

  /** If one encoding is a prefix of another, so it is without the first character of each. */
  lemma PrefixTails(cs: seq<Scalar>, ds: seq<Scalar>)
    requires EncodeAll(ds) <= EncodeAll(cs) && ds != []
    ensures cs != [] && |Encode(cs[0])| == |Encode(ds[0])| && EncodeAll(ds[1..]) <= EncodeAll(cs[1..])
  {
    FirstByteLeads(ds);
    FirstByteLeads(cs);
    EncodeShape(cs[0]);
    EncodeShape(ds[0]);
    var n := |Encode(cs[0])|;
    assert EncodeAll(cs)[n..] == EncodeAll(cs[1..]);
    assert EncodeAll(ds)[n..] == EncodeAll(ds[1..]);
  }

  /** Well-formed prefixes end at boundaries: the encoding can be cut in no other place. */
  lemma {:induction false} PrefixEndsAtBoundary(cs: seq<Scalar>, ds: seq<Scalar>)
    requires EncodeAll(ds) <= EncodeAll(cs)
    ensures IsBoundary(EncodeAll(cs), |EncodeAll(ds)|)
    decreases |ds|
  {
    if ds != [] {
      PrefixTails(cs, ds);
      PrefixEndsAtBoundary(cs[1..], ds[1..]);
      BoundaryShifts(Encode(cs[0]), cs[1..], |EncodeAll(ds[1..])|);
    }
  }

  /** A boundary is never more than three bytes back. */
  lemma {:induction false} BoundaryNearby(cs: seq<Scalar>, i: nat)
    requires i <= |EncodeAll(cs)|
    ensures exists j :: 0 <= j <= i && i <= j + 3 && IsBoundary(EncodeAll(cs), j)
    decreases |cs|
  {
    var s := EncodeAll(cs);
    if i <= 3 {
      assert IsBoundary(s, 0);
    } else {
      var n := |Encode(cs[0])|;
      var tail := EncodeAll(cs[1..]);
      BoundaryNearby(cs[1..], i - n);
      var j :| 0 <= j <= i - n && i - n <= j + 3 && IsBoundary(tail, j);
      BoundaryShifts(Encode(cs[0]), cs[1..], j);
      assert IsBoundary(s, n + j);
    }
  }
}
