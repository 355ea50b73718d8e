/**
 * What the byte search finds, told without the search: one row for every pattern, segment and address
 * where the pattern fits, in that order, up to the first pattern that does not parse.
 */
module IdaHits {
  import opened Options
  import opened IdaPattern
  import opened IdaPaging

  /** A place where a pattern may fit: the number of its text, the number of the segment, the address. */
  datatype Spot = Spot(text: nat, segment: nat, ea: nat)

  predicate Before(x: Spot, y: Spot) {
    || x.text < y.text
    || (x.text == y.text && (x.segment < y.segment || (x.segment == y.segment && x.ea < y.ea)))
  }

  /** The byte is readable, and position i of the pattern is a wildcard or holds that byte. */
  predicate FitsByte(mem: Memory, p: BytePattern, ea: nat, i: nat)
    requires i < |p.bytes| == |p.wildcard|
  {
    ea + i in mem && (p.wildcard[i] || mem[ea + i] == p.bytes[i])
  }

  /** The pattern fits at the address. */
  predicate FitsAt(mem: Memory, p: BytePattern, ea: nat)
    requires |p.bytes| == |p.wildcard|
  {
    forall i :: 0 <= i < |p.bytes| ==> FitsByte(mem, p, ea, i)
  }

  predicate Inside(s: Segment, p: BytePattern, ea: nat) {
    s.start <= ea && ea + |p.bytes| <= s.end
  }

  /** All patterns up to this one parse, and this one fits at the address inside the segment. */
  predicate IsHit(mem: Memory, segments: seq<Segment>, texts: seq<string>, x: Spot) {
    && x.text < |texts| && x.segment < |segments|
    && (forall m :: 0 <= m <= x.text ==> ParsePattern(texts[m]).Ok?)
    && var p := ParsePattern(texts[x.text]).pattern;
       |p.bytes| == |p.wildcard| && Inside(segments[x.segment], p, x.ea) && FitsAt(mem, p, x.ea)
  }

  predicate Sorted(at: seq<Spot>) {
    forall i, j :: 0 <= i < j < |at| ==> Before(at[i], at[j])
  }

  lemma SortedJoin(a: seq<Spot>, b: seq<Spot>)
    requires Sorted(a) && Sorted(b)
    requires forall x, y :: x in a && y in b ==> Before(x, y)
    ensures Sorted(a + b)
  {
    forall i, j | 0 <= i < j < |a + b|
      ensures Before((a + b)[i], (a + b)[j])
    {
      if i < |a| <= j {
        assert a[i] in a && b[j - |a|] in b;
      }
    }
  }

  /** The rows are those of the text at the spots, one for one. */
  predicate RowsAt(rows: seq<Row>, texts: seq<string>, at: seq<Spot>) {
    |rows| == |at| && forall i :: 0 <= i < |at| ==> at[i].text < |texts| && rows[i] == Row(texts[at[i].text], at[i].ea)
  }

  lemma RowsJoin(a: seq<Row>, b: seq<Row>, texts: seq<string>, at: seq<Spot>, bt: seq<Spot>)
    requires RowsAt(a, texts, at) && RowsAt(b, texts, bt)
    ensures RowsAt(a + b, texts, at + bt)
  {
  }

  // ---------- one segment ----------

  /** The spots of one text in one segment, from an address on. */
  ghost predicate SpotsFrom(mem: Memory, p: BytePattern, s: Segment, n: nat, k: nat, ea: nat, at: seq<Spot>)
    requires |p.bytes| == |p.wildcard|
  {
    && Sorted(at)
    && forall x :: x in at <==>
         x.text == n && x.segment == k && ea <= x.ea && x.ea + |p.bytes| <= s.end && FitsAt(mem, p, x.ea)
  }

  lemma FitsMeans(mem: Memory, p: BytePattern, ea: nat)
    requires |p.bytes| == |p.wildcard|
    ensures MatchesAt(mem, p, ea) <==> FitsAt(mem, p, ea)
  {
    forall i: nat | i < |p.bytes|
      ensures ByteFits(mem, p, ea, i) == FitsByte(mem, p, ea, i)
    {
    }
  }

  lemma {:induction false} SegmentSpots(
    mem: Memory, texts: seq<string>, p: BytePattern, s: Segment, n: nat, k: nat, ea: nat) returns (at: seq<Spot>)
    requires |p.bytes| == |p.wildcard| > 0 && n < |texts|
    ensures SpotsFrom(mem, p, s, n, k, ea, at)
    ensures RowsAt(HitsFrom(mem, texts[n], p, ea, s.end), texts, at)
    decreases s.end - ea
  {
    if ea + |p.bytes| > s.end {
      at := [];
    } else {
      FitsMeans(mem, p, ea);
      var rest := SegmentSpots(mem, texts, p, s, n, k, ea + 1);
      var here := if FitsAt(mem, p, ea) then [Spot(n, k, ea)] else [];
      var row := if FitsAt(mem, p, ea) then [Row(texts[n], ea)] else [];
      SortedJoin(here, rest);
      RowsJoin(row, HitsFrom(mem, texts[n], p, ea + 1, s.end), texts, here, rest);
      at := here + rest;
    }
  }

  // ---------- all segments of one text ----------

  ghost predicate SpotsIn(mem: Memory, p: BytePattern, segments: seq<Segment>, n: nat, k: nat, at: seq<Spot>)
    requires |p.bytes| == |p.wildcard|
  {
    && Sorted(at)
    && forall x :: x in at <==>
         x.text == n && k <= x.segment < |segments| && Inside(segments[x.segment], p, x.ea) && FitsAt(mem, p, x.ea)
  }

  lemma SpotsJoin(mem: Memory, p: BytePattern, segments: seq<Segment>, n: nat, k: nat, here: seq<Spot>, rest: seq<Spot>)
    requires |p.bytes| == |p.wildcard| && k < |segments|
    requires SpotsFrom(mem, p, segments[k], n, k, segments[k].start, here) && SpotsIn(mem, p, segments, n, k + 1, rest)
    ensures SpotsIn(mem, p, segments, n, k, here + rest)
  {
    SortedJoin(here, rest);
    forall x
      ensures x in here + rest <==>
              x.text == n && k <= x.segment < |segments| && Inside(segments[x.segment], p, x.ea) && FitsAt(mem, p, x.ea)
    {
      assert x in here + rest <==> x in here || x in rest;
    }
  }

  lemma {:induction false} AllSegmentSpots(
    mem: Memory, texts: seq<string>, p: BytePattern, segments: seq<Segment>, n: nat, k: nat) returns (at: seq<Spot>)
    requires |p.bytes| == |p.wildcard| > 0 && n < |texts| && k <= |segments|
    ensures SpotsIn(mem, p, segments, n, k, at)
    ensures RowsAt(SegmentHits(mem, texts[n], p, segments[k..]), texts, at)
    decreases |segments| - k
  {
    if k == |segments| {
      at := [];
    } else {
      var s := segments[k];
      var here := SegmentSpots(mem, texts, p, s, n, k, s.start);
      var rest := AllSegmentSpots(mem, texts, p, segments, n, k + 1);
      at := here + rest;
      SpotsJoin(mem, p, segments, n, k, here, rest);
      assert segments[k..][1..] == segments[k + 1..];
      RowsJoin(HitsFrom(mem, texts[n], p, s.start, s.end), SegmentHits(mem, texts[n], p, segments[k + 1..]), texts,
               here, rest);
    }
  }

  // ---------- all texts ----------

  /** The spots of the texts from number n on. */
  ghost predicate Spots(mem: Memory, segments: seq<Segment>, texts: seq<string>, n: nat, at: seq<Spot>) {
    Sorted(at) && forall x :: x in at <==> n <= x.text && IsHit(mem, segments, texts, x)
  }

  lemma TextJoin(mem: Memory, segments: seq<Segment>, texts: seq<string>, n: nat, here: seq<Spot>, rest: seq<Spot>)
    requires n < |texts| && forall m :: 0 <= m <= n ==> ParsePattern(texts[m]).Ok?
    requires var p := ParsePattern(texts[n]).pattern;
             |p.bytes| == |p.wildcard| && SpotsIn(mem, p, segments, n, 0, here)
    requires Spots(mem, segments, texts, n + 1, rest)
    ensures Spots(mem, segments, texts, n, here + rest)
  {
    SortedJoin(here, rest);
    forall x
      ensures x in here + rest <==> n <= x.text && IsHit(mem, segments, texts, x)
    {
      assert x in here + rest <==> x in here || x in rest;
      assert x in here <==> x.text == n && IsHit(mem, segments, texts, x);
    }
  }

  lemma {:induction false} TextSpots(mem: Memory, segments: seq<Segment>, texts: seq<string>, n: nat) returns (at: seq<Spot>)
    requires n <= |texts| && forall m :: 0 <= m < n ==> ParsePattern(texts[m]).Ok?
    ensures Spots(mem, segments, texts, n, at)
    ensures RowsAt(AllHits(mem, segments, texts[n..]), texts, at)
    decreases |texts| - n
  {
    if n == |texts| || ParsePattern(texts[n]).Err? {
      at := [];
    } else {
      var p := ParsePattern(texts[n]).pattern;
      PatternListsAgree(texts[n]);
      var here := AllSegmentSpots(mem, texts, p, segments, n, 0);
      var rest := TextSpots(mem, segments, texts, n + 1);
      at := here + rest;
      TextJoin(mem, segments, texts, n, here, rest);
      assert texts[n..][1..] == texts[n + 1..] && segments[0..] == segments;
      RowsJoin(SegmentHits(mem, texts[n], p, segments), AllHits(mem, segments, texts[n + 1..]), texts, here, rest);
    }
  }

  /**
   * The matches of a search: exactly the hits, one row each, in the order of pattern, segment and address.
   */
  lemma AllHitsAre(mem: Memory, segments: seq<Segment>, texts: seq<string>) returns (at: seq<Spot>)
    ensures Sorted(at)
    ensures forall x :: x in at <==> IsHit(mem, segments, texts, x)
    ensures |AllHits(mem, segments, texts)| == |at|
    ensures forall i :: 0 <= i < |at| ==>
              at[i].text < |texts| && AllHits(mem, segments, texts)[i] == Row(texts[at[i].text], at[i].ea)
  {
    at := TextSpots(mem, segments, texts, 0);
    assert texts[0..] == texts;
  }

  /** An address is found for a text iff the text parses, no earlier one fails, and it fits there inside a segment. */
  lemma FoundIff(mem: Memory, segments: seq<Segment>, texts: seq<string>, text: string, ea: nat)
    ensures Row(text, ea) in AllHits(mem, segments, texts) <==>
            exists x: Spot :: IsHit(mem, segments, texts, x) && texts[x.text] == text && x.ea == ea
  {
    var at := AllHitsAre(mem, segments, texts);
    var rows := AllHits(mem, segments, texts);
    if Row(text, ea) in rows {
      var i :| 0 <= i < |rows| && rows[i] == Row(text, ea);
      assert at[i] in at;
    }
    if x: Spot :| IsHit(mem, segments, texts, x) && texts[x.text] == text && x.ea == ea {
      assert x in at;
      var i :| 0 <= i < |at| && at[i] == x;
      assert rows[i] == Row(text, ea);
    }
  }

  /** The first error is that of the first text that does not parse. */
  lemma {:induction false} FirstErrorIs(texts: seq<string>)
    ensures FirstError(texts).None? <==> forall m :: 0 <= m < |texts| ==> ParsePattern(texts[m]).Ok?
    ensures FirstError(texts).Some? ==>
              exists n :: 0 <= n < |texts| && ParsePattern(texts[n]) == Err(FirstError(texts).value)
                          && forall m :: 0 <= m < n ==> ParsePattern(texts[m]).Ok?
    decreases |texts|
  {
    if texts != [] && ParsePattern(texts[0]).Ok? {
      var rest := texts[1..];
      FirstErrorIs(rest);
      assert forall m :: 0 < m < |texts| ==> texts[m] == rest[m - 1];
      if FirstError(texts).Some? {
        var n :| 0 <= n < |rest| && ParsePattern(rest[n]) == Err(FirstError(rest).value)
                 && forall m :: 0 <= m < n ==> ParsePattern(rest[m]).Ok?;
        assert ParsePattern(texts[n + 1]) == Err(FirstError(texts).value);
        forall m | 0 <= m < n + 1
          ensures ParsePattern(texts[m]).Ok?
        {
          if m > 0 {
            assert ParsePattern(rest[m - 1]).Ok?;
          }
        }
      }
    }
  }

  // ---------- one page ----------

  /** A page holds the rows from its offset on, at most `limit`, and leads on exactly when more rows follow. */
  lemma PageIsCut<T>(all: seq<T>, offset: nat, limit: nat)
    ensures var rows, next := Slice(all, offset, limit), NextOffset(all, offset, limit);
            && |rows| == (if |all| <= offset then 0 else if |all| - offset <= limit then |all| - offset else limit)
            && (forall k :: 0 <= k < |rows| ==> rows[k] == all[offset + k])
            && (next.Some? <==> offset + limit < |all|)
            && (next.Some? ==> next.value == offset + |rows|)
  {
  }

  /** What a search answers: the error iff it is reached, else the page, counting at most one match past it. */
  lemma SearchAnswers(mem: Memory, segments: seq<Segment>, texts: seq<string>, offset: nat, limit: nat)
    ensures var all, r := AllHits(mem, segments, texts), Search(mem, segments, texts, offset, limit);
            if |all| <= offset + limit && FirstError(texts).Some? then r == BadPattern(FirstError(texts).value)
            else
              && r.Found? && r.page.offset == offset
              && |r.page.items| == (if |all| <= offset then 0 else if |all| - offset <= limit then |all| - offset else limit)
              && (forall k :: 0 <= k < |r.page.items| ==> r.page.items[k] == all[offset + k])
              && r.page.total == (if |all| <= offset + limit then |all| else offset + limit + 1)
              && r.page.next == (if |all| <= offset + limit then None else Some(offset + limit))
  {
    PageIsCut(AllHits(mem, segments, texts), offset, limit);
  }
}
