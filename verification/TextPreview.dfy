/** Inline previews: the longest well-formed prefix of a text that fits a byte limit. */
module TextPreview {
  import opened Utf8

  datatype InlineTextPreview = InlineTextPreview(
    text: seq<Byte>, truncated: bool, fullByteLen: nat, inlineByteLimit: nat)

  lemma CutIsBoundary(text: seq<Byte>, n: nat)
    requires WellFormed(text) && n <= |text| && WellFormed(text[..n])
    ensures IsBoundary(text, n)
  {
    var cs: seq<Scalar> :| EncodeAll(cs) == text;
    var ds: seq<Scalar> :| EncodeAll(ds) == text[..n];
    PrefixEndsAtBoundary(cs, ds);
  }

  /** The argument is a string, so it is well-formed UTF-8; the limit is any number of bytes. */
  method Preview(text: seq<Byte>, byteLimit: nat) returns (p: InlineTextPreview)
    requires WellFormed(text)
    ensures p.text <= text && |p.text| <= byteLimit && WellFormed(p.text)
    ensures forall n :: 0 <= n <= |text| && n <= byteLimit && WellFormed(text[..n]) ==> n <= |p.text|
    ensures p.truncated <==> |text| > byteLimit
    ensures if p.truncated then byteLimit <= |p.text| + 3 else p.text == text
    ensures p.fullByteLen == |text| && p.inlineByteLimit == byteLimit
  {
    if |text| <= byteLimit {
      assert text[..|text|] == text;
      return InlineTextPreview(text, false, |text|, byteLimit);
    }
    ghost var near := NearestBoundary(text, byteLimit);
    var end := byteLimit;
    while end > 0 && !(end == |text| || !IsContinuation(text[end]))
      invariant near <= end <= byteLimit
      invariant forall i :: end < i <= byteLimit ==> !IsBoundary(text, i)
    {
      end := end - 1;
    }
    LastBoundaryIsBest(text, byteLimit, end);
    p := InlineTextPreview(text[..end], true, |text|, byteLimit);
  }

  lemma NearestBoundary(text: seq<Byte>, limit: nat) returns (near: nat)
    requires WellFormed(text) && limit < |text|
    ensures near <= limit <= near + 3 && IsBoundary(text, near)
  {
    var cs: seq<Scalar> :| EncodeAll(cs) == text;
    BoundaryNearby(cs, limit);
    near :| 0 <= near <= limit && limit <= near + 3 && IsBoundary(text, near);
  }

  /** The last boundary within the limit is the longest well-formed cut. */
  lemma LastBoundaryIsBest(text: seq<Byte>, limit: nat, end: nat)
    requires WellFormed(text) && end <= limit <= |text| && IsBoundary(text, end)
    requires forall i :: end < i <= limit ==> !IsBoundary(text, i)
    ensures WellFormed(text[..end])
    ensures forall n :: 0 <= n <= limit && WellFormed(text[..n]) ==> n <= end
  {
    var cs: seq<Scalar> :| EncodeAll(cs) == text;
    BoundaryIsWellFormed(cs, end);
    forall n | 0 <= n <= limit && WellFormed(text[..n])
      ensures n <= end
    {
      CutIsBoundary(text, n);
    }
  }
}
