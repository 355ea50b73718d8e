/**
 * Paged results of the IDA adapter. The byte search stops as soon as it knows a next page exists; its
 * pages are nevertheless slices of the full list of matches, and following them visits every match once.
 */
module IdaPaging {
  import opened Options
  import opened Utf8
  import opened IdaNumbers
  import opened IdaPattern

  // ---------- slices and tiling ----------

  function Min(a: nat, b: nat): nat {
    if a < b then a else b
  }

  function Slice<T>(all: seq<T>, offset: nat, limit: nat): seq<T> {
    all[Min(offset, |all|)..Min(offset + limit, |all|)]
  }

  /** Where the next page starts: None exactly when this page reaches the end of the list. */
  function NextOffset<T>(all: seq<T>, offset: nat, limit: nat): Option<nat> {
    if offset + limit < |all| then Some(offset + limit) else None
  }

  /** All rows a client sees that asks from `offset` and follows every next offset. */
  function Followed<T>(all: seq<T>, offset: nat, limit: nat): seq<T>
    requires limit >= 1
    decreases |all| - offset
  {
    var next := NextOffset(all, offset, limit);
    Slice(all, offset, limit) + if next.Some? then Followed(all, next.value, limit) else []
  }

  /** From any offset the pages tile the rest of the list, in order and without overlap. */
  lemma {:induction false} PagesTile<T>(all: seq<T>, offset: nat, limit: nat)
    requires limit >= 1
    ensures Followed(all, offset, limit) == all[Min(offset, |all|)..]
    decreases |all| - offset
  {
    var next := NextOffset(all, offset, limit);
    if next.Some? {
      PagesTile(all, next.value, limit);
    }
  }

  /** Following from the start gives the whole list. */
  lemma PagesCoverAll<T>(all: seq<T>, limit: nat)
    requires limit >= 1
    ensures Followed(all, 0, limit) == all
  {
    PagesTile(all, 0, limit);
  }

  datatype Page<T> = Page(offset: nat, items: seq<T>, total: nat, next: Option<nat>)

  /** The page of a complete list: the limit defaults to 50 and is capped at 1000. */
  method PagedResult<T>(rows: seq<T>, offset: nat, count: nat) returns (page: Page<T>)
    ensures var limit := Min(if count == 0 then 50 else count, 1000);
            && limit >= 1
            && page == Page(offset, Slice(rows, offset, limit), |rows|, NextOffset(rows, offset, limit))
  {
    var limit := Min(if count == 0 then 50 else count, 1000);
    var items: seq<T> := [];
    var i := offset;
    while i < |rows| && |items| < limit
      invariant i == offset + |items| && |items| <= limit
      invariant items == rows[Min(offset, |rows|)..Min(i, |rows|)]
    {
      items := items + [rows[i]];
      i := i + 1;
    }
    var next := offset + |items|;
    page := Page(offset, items, |rows|, if next < |rows| then Some(next) else None);
  }

  // ---------- the full search ----------

  /** The bytes that can be read, by address. */
  type Memory = map<nat, Byte>

  /** Segments end below the last address, so that stepping past a segment stays in range. */
  datatype Segment = Segment(start: nat, end: nat)

  datatype Row = Row(pattern: string, ea: nat)

  predicate ByteFits(mem: Memory, p: BytePattern, ea: nat, i: nat)
    requires i < |p.bytes| == |p.wildcard|
  {
    ea + i in mem && (p.wildcard[i] || mem[ea + i] == p.bytes[i])
  }

  predicate MatchesAt(mem: Memory, p: BytePattern, ea: nat)
    requires |p.bytes| == |p.wildcard|
  {
    forall i :: 0 <= i < |p.bytes| ==> ByteFits(mem, p, ea, i)
  }

  method BytePatternMatches(mem: Memory, p: BytePattern, ea: nat) returns (matches: bool)
    requires |p.bytes| == |p.wildcard|
    ensures matches == MatchesAt(mem, p, ea)
  {
    for i := 0 to |p.bytes|
      invariant forall j :: 0 <= j < i ==> ByteFits(mem, p, ea, j)
    {
      assert ByteFits(mem, p, ea, i) <==> ea + i in mem && (p.wildcard[i] || mem[ea + i] == p.bytes[i]);
      if ea + i !in mem {
        return false;
      }
      if !p.wildcard[i] && mem[ea + i] != p.bytes[i] {
        return false;
      }
    }
    matches := true;
  }

  function HitsFrom(mem: Memory, text: string, p: BytePattern, ea: nat, end: nat): seq<Row>
    requires |p.bytes| == |p.wildcard|
    decreases end - ea
  {
    if ea + |p.bytes| > end || ea >= end then []
    else (if MatchesAt(mem, p, ea) then [Row(text, ea)] else []) + HitsFrom(mem, text, p, ea + 1, end)
  }

  function SegmentHits(mem: Memory, text: string, p: BytePattern, segments: seq<Segment>): seq<Row>
    requires |p.bytes| == |p.wildcard|
  {
    if segments == [] then []
    else HitsFrom(mem, text, p, segments[0].start, segments[0].end) + SegmentHits(mem, text, p, segments[1..])
  }

  /** All matches of the patterns up to the first one that does not parse: pattern by pattern, by address. */
  function AllHits(mem: Memory, segments: seq<Segment>, texts: seq<string>): seq<Row> {
    if texts == [] || ParsePattern(texts[0]).Err? then []
    else
      PatternListsAgree(texts[0]);
      SegmentHits(mem, texts[0], ParsePattern(texts[0]).pattern, segments) + AllHits(mem, segments, texts[1..])
  }

  function FirstError(texts: seq<string>): Option<PatternError> {
    if texts == [] then None
    else if ParsePattern(texts[0]).Err? then Some(ParsePattern(texts[0]).error)
    else FirstError(texts[1..])
  }

  datatype SearchResult = Found(page: Page<Row>) | BadPattern(error: PatternError)

  /**
   * What a paged search is to return: the slice of all matches. A pattern that does not parse is an error only
   * if the search gets that far, that is, if the matches before it do not already fill the page and one more.
   */
  function Search(mem: Memory, segments: seq<Segment>, texts: seq<string>, offset: nat, limit: nat): SearchResult {
    PageAt(AllHits(mem, segments, texts), FirstError(texts), offset, limit)
  }

  /** The page of a search whose matches are `all`, with `error` the first pattern error behind them. */
  function PageAt(all: seq<Row>, error: Option<PatternError>, offset: nat, limit: nat): SearchResult {
    if |all| <= offset + limit && error.Some? then BadPattern(error.value)
    else Found(Page(offset, Slice(all, offset, limit), Min(|all|, offset + limit + 1), NextOffset(all, offset, limit)))
  }

  // ---------- following the pages of a search ----------

  /** The rows a client collects, and the error that ended the search, if any. */
  datatype Delivery = Delivery(rows: seq<Row>, error: Option<PatternError>)

  /** Asks for the page at the offset and follows every next offset. */
  function FollowPages(all: seq<Row>, error: Option<PatternError>, offset: nat, limit: nat): Delivery
    requires limit >= 1
    decreases |all| - offset
  {
    match PageAt(all, error, offset, limit)
    case BadPattern(e) => Delivery([], Some(e))
    case Found(page) =>
      if page.next.None? then Delivery(page.items, None)
      else
        var rest := FollowPages(all, error, page.next.value, limit);
        Delivery(page.items + rest.rows, rest.error)
  }

  function FollowSearch(mem: Memory, segments: seq<Segment>, texts: seq<string>, limit: nat): Delivery
    requires limit >= 1
  {
    FollowPages(AllHits(mem, segments, texts), FirstError(texts), 0, limit)
  }

  /** The rows are those of the list from the offset on, all of them or all but a last page. */
  predicate Delivers(all: seq<Row>, offset: nat, limit: nat, d: Delivery) {
    var o := Min(offset, |all|);
    var m := o + |d.rows|;
    && m <= |all|
    && d.rows == all[o..m]
    && (d.error.None? ==> m == |all|)
    && (d.error.Some? ==> |all| <= m + limit && (offset < |all| ==> m < |all|))
  }

  lemma DeliversMore(all: seq<Row>, offset: nat, limit: nat, rest: Delivery)
    requires offset + limit < |all| && Delivers(all, offset + limit, limit, rest)
    ensures Delivers(all, offset, limit, Delivery(Slice(all, offset, limit) + rest.rows, rest.error))
  {
  }

  lemma {:induction false} PagesDeliver(all: seq<Row>, error: Option<PatternError>, offset: nat, limit: nat)
    requires limit >= 1
    ensures var d := FollowPages(all, error, offset, limit); d.error == error && Delivers(all, offset, limit, d)
    decreases |all| - offset
  {
    if offset + limit < |all| {
      PagesDeliver(all, error, offset + limit, limit);
      DeliversMore(all, offset, limit, FollowPages(all, error, offset + limit, limit));
    } else {
      LastPageDelivers(all, offset, limit, error);
    }
  }

  lemma LastPageDelivers(all: seq<Row>, offset: nat, limit: nat, error: Option<PatternError>)
    requires |all| <= offset + limit
    ensures Delivers(all, offset, limit, Delivery(if error.None? then Slice(all, offset, limit) else [], error))
  {
  }

  /**
   * Following a search from its start visits every match once and in order, unless a pattern does not parse.
   * Then it ends in that error, and the matches of the last page, if there is any match, are never delivered.
   */
  lemma SearchPagesTile(mem: Memory, segments: seq<Segment>, texts: seq<string>, limit: nat)
    requires limit >= 1
    ensures var all, d := AllHits(mem, segments, texts), FollowSearch(mem, segments, texts, limit);
            && d.error == FirstError(texts)
            && d.rows <= all
            && (d.rows == all <==> FirstError(texts).None? || all == [])
            && |all| - |d.rows| <= limit
  {
    PagesDeliver(AllHits(mem, segments, texts), FirstError(texts), 0, limit);
  }

  /** A page leads back to itself exactly when its limit is zero and matches remain: its rows are never seen. */
  lemma ZeroLimitStalls(mem: Memory, segments: seq<Segment>, texts: seq<string>, offset: nat, limit: nat)
    ensures var r := Search(mem, segments, texts, offset, limit);
            (r.Found? && r.page.next == Some(offset)) <==>
            limit == 0 && offset < |AllHits(mem, segments, texts)|
  {
  }

  // ---------- the early-stopping search ----------

  /** When the loops stop: one match past the page, or the largest number if that overflows. */
  function StopAfter(offset: nat, limit: nat): (stop: nat)
    ensures 1 <= stop < U64_LIMIT
  {
    if offset + limit + 1 < U64_LIMIT then offset + limit + 1 else U64_LIMIT - 1
  }

  method ComputeStopAfter(offset: nat, limit: nat) returns (stop: nat)
    requires offset < U64_LIMIT && limit <= 10000
    ensures stop == StopAfter(offset, limit)
  {
    stop := (offset + limit + 1) % U64_LIMIT;
    if stop < offset {
      stop := U64_LIMIT - 1;
    }
  }

  /** The matches from the offset up to but not including number `end`. */
  function Window(all: seq<Row>, offset: nat, end: nat): seq<Row> {
    var top := Min(end, |all|);
    all[Min(offset, top)..top]
  }

  /** The rows, the count of matches and the flag that the loops carry. */
  datatype Scan = Scan(rows: seq<Row>, total: nat, truncated: bool)

  /** The state of the loops after the matches in `seen`, if they stop at match number `stop`. */
  function ScanOf(seen: seq<Row>, offset: nat, stop: nat): Scan
    requires stop >= 1
  {
    Scan(Window(seen, offset, stop - 1), Min(|seen|, stop), |seen| >= stop)
  }

  /** The reported page: the next offset is given if the search stopped early or has counted past the page. */
  function PageOf(scan: Scan, offset: nat): Page<Row> {
    var next := offset + |scan.rows|;
    Page(offset, scan.rows, scan.total, if scan.truncated || next < scan.total then Some(next) else None)
  }

  /** What the program returns, whatever the number of matches. */
  function BoundedSearch(mem: Memory, segments: seq<Segment>, texts: seq<string>, offset: nat, limit: nat)
    : SearchResult
  {
    var all, stop := AllHits(mem, segments, texts), StopAfter(offset, limit);
    if |all| < stop && FirstError(texts).Some? then BadPattern(FirstError(texts).value)
    else Found(PageOf(ScanOf(all, offset, stop), offset))
  }

  lemma PageOfScan(all: seq<Row>, offset: nat, limit: nat)
    ensures PageOf(ScanOf(all, offset, offset + limit + 1), offset) ==
            Page(offset, Slice(all, offset, limit), Min(|all|, offset + limit + 1), NextOffset(all, offset, limit))
  {
  }

  lemma SmallPage(all: seq<Row>, offset: nat, limit: nat)
    requires |all| < U64_LIMIT - 1 <= offset + limit
    ensures PageOf(ScanOf(all, offset, U64_LIMIT - 1), offset) ==
            Page(offset, Slice(all, offset, limit), Min(|all|, offset + limit + 1), NextOffset(all, offset, limit))
  {
  }

  lemma LargePage(all: seq<Row>, offset: nat, limit: nat)
    requires |all| >= U64_LIMIT - 1 && offset + limit >= U64_LIMIT - 1
    ensures PageOf(ScanOf(all, offset, U64_LIMIT - 1), offset) !=
            Page(offset, Slice(all, offset, limit), Min(|all|, offset + limit + 1), NextOffset(all, offset, limit))
  {
  }

  /**
   * The early-stopping search returns the slice of all matches if and only if the end of the page or the
   * number of matches stays below the largest number, where the saturated stopping point lies.
   */
  lemma BoundedSearchIsSearch(mem: Memory, segments: seq<Segment>, texts: seq<string>, offset: nat, limit: nat)
    ensures BoundedSearch(mem, segments, texts, offset, limit) == Search(mem, segments, texts, offset, limit) <==>
            offset + limit < U64_LIMIT - 1 || |AllHits(mem, segments, texts)| < U64_LIMIT - 1
  {
    var all := AllHits(mem, segments, texts);
    if offset + limit < U64_LIMIT - 1 {
      PageOfScan(all, offset, limit);
    } else if |all| < U64_LIMIT - 1 {
      SmallPage(all, offset, limit);
    } else {
      LargePage(all, offset, limit);
    }
  }

  lemma {:induction false} ScanIgnoresMore(seen: seq<Row>, more: seq<Row>, offset: nat, stop: nat)
    requires |seen| >= stop >= 1
    ensures ScanOf(seen + more, offset, stop) == ScanOf(seen, offset, stop)
  {
  }

  /** One more match: it is counted, skipped, kept, or it ends the search. */
  method CountMatch(scan: Scan, ghost seen: seq<Row>, row: Row, stop: nat, offset: nat, limit: nat) returns (next: Scan)
    requires stop == StopAfter(offset, limit)
    requires scan == ScanOf(seen, offset, stop) && !scan.truncated
    ensures next == ScanOf(seen + [row], offset, stop)
  {
    var index, total := scan.total, scan.total + 1;
    if total >= stop {
      return Scan(scan.rows, total, true);
    }
    if index < offset {
      return Scan(scan.rows, total, false);
    }
    // The program compares the number of rows with the limit once more; by now it is always below.
    assert |scan.rows| < limit;
    next := Scan(scan.rows + [row], total, false);
  }

  lemma Regroup<T>(a: seq<T>, b: seq<T>, c: seq<T>)
    ensures a + (b + c) == (a + b) + c
  {
  }

  /** Scanning may stop early: what comes after a full page and one more match changes nothing. */
  lemma ScanStops(now: seq<Row>, rest: seq<Row>, offset: nat, stop: nat)
    requires stop >= 1 && (ScanOf(now, offset, stop).truncated || rest == [])
    ensures ScanOf(now + rest, offset, stop) == ScanOf(now, offset, stop)
  {
    if rest == [] {
      assert now + rest == now;
    } else {
      ScanIgnoresMore(now, rest, offset, stop);
    }
  }

  lemma HitsStep(mem: Memory, text: string, p: BytePattern, ea: nat, end: nat, now: seq<Row>)
    requires |p.bytes| == |p.wildcard| > 0 && ea + |p.bytes| <= end
    ensures now + HitsFrom(mem, text, p, ea, end) ==
            (if MatchesAt(mem, p, ea) then now + [Row(text, ea)] else now) + HitsFrom(mem, text, p, ea + 1, end)
  {
    Regroup(now, if MatchesAt(mem, p, ea) then [Row(text, ea)] else [], HitsFrom(mem, text, p, ea + 1, end));
    assert now + [] == now;
  }

  method SearchSegment(mem: Memory, text: string, p: BytePattern, segment: Segment, stop: nat, offset: nat,
                       limit: nat, scan: Scan, ghost seen: seq<Row>) returns (next: Scan)
    requires |p.bytes| == |p.wildcard| > 0 && stop == StopAfter(offset, limit)
    requires scan == ScanOf(seen, offset, stop) && !scan.truncated
    ensures next == ScanOf(seen + HitsFrom(mem, text, p, segment.start, segment.end), offset, stop)
  {
    ghost var goal := seen + HitsFrom(mem, text, p, segment.start, segment.end);
    next := scan;
    if segment.end <= segment.start || segment.end - segment.start < |p.bytes| {
      assert goal == seen;
      return;
    }
    var ea := segment.start;
    ghost var now := seen;
    while ea + |p.bytes| <= segment.end && !next.truncated
      invariant goal == now + HitsFrom(mem, text, p, ea, segment.end)
      invariant next == ScanOf(now, offset, stop)
      decreases segment.end - ea
    {
      HitsStep(mem, text, p, ea, segment.end, now);
      var matches := BytePatternMatches(mem, p, ea);
      if matches {
        next := CountMatch(next, now, Row(text, ea), stop, offset, limit);
        now := now + [Row(text, ea)];
      }
      ea := ea + 1;
    }
    ScanStops(now, HitsFrom(mem, text, p, ea, segment.end), offset, stop);
  }

  method SearchSegments(mem: Memory, text: string, p: BytePattern, segments: seq<Segment>, stop: nat, offset: nat,
                        limit: nat, scan: Scan, ghost seen: seq<Row>) returns (next: Scan)
    requires |p.bytes| == |p.wildcard| > 0 && stop == StopAfter(offset, limit)
    requires scan == ScanOf(seen, offset, stop) && !scan.truncated
    ensures next == ScanOf(seen + SegmentHits(mem, text, p, segments), offset, stop)
  {
    ghost var goal := seen + SegmentHits(mem, text, p, segments);
    next := scan;
    var i := 0;
    ghost var now := seen;
    while i < |segments| && !next.truncated
      invariant 0 <= i <= |segments|
      invariant goal == now + SegmentHits(mem, text, p, segments[i..])
      invariant next == ScanOf(now, offset, stop)
    {
      assert segments[i..][1..] == segments[i + 1..];
      ghost var here := HitsFrom(mem, text, p, segments[i].start, segments[i].end);
      Regroup(now, here, SegmentHits(mem, text, p, segments[i + 1..]));
      next := SearchSegment(mem, text, p, segments[i], stop, offset, limit, next, now);
      now := now + here;
      i := i + 1;
    }
    ScanStops(now, SegmentHits(mem, text, p, segments[i..]), offset, stop);
  }

  /**
   * The paged byte search. The caller's limit is capped at 10000; the loops stop before their counter
   * can overflow.
   */
  method FindBytes(mem: Memory, segments: seq<Segment>, texts: seq<string>, offset: nat, requested: nat)
    returns (r: SearchResult)
    requires offset < U64_LIMIT
    ensures r == BoundedSearch(mem, segments, texts, offset, Min(requested, 10000))
  {
    var limit := Min(requested, 10000);
    var stop := ComputeStopAfter(offset, limit);
    ghost var all := AllHits(mem, segments, texts);
    var scan := Scan([], 0, false);
    ghost var now: seq<Row> := [];
    var i := 0;
    while i < |texts| && !scan.truncated
      invariant 0 <= i <= |texts|
      invariant all == now + AllHits(mem, segments, texts[i..])
      invariant FirstError(texts) == FirstError(texts[i..])
      invariant scan == ScanOf(now, offset, stop)
    {
      assert texts[i..][1..] == texts[i + 1..];
      var parsed := ParseBytePattern(texts[i]);
      if parsed.Err? {
        assert all == now;
        return BadPattern(parsed.error);
      }
      PatternListsAgree(texts[i]);
      ghost var here := SegmentHits(mem, texts[i], parsed.pattern, segments);
      Regroup(now, here, AllHits(mem, segments, texts[i + 1..]));
      scan := SearchSegments(mem, texts[i], parsed.pattern, segments, stop, offset, limit, scan, now);
      now := now + here;
      i := i + 1;
    }
    ScanStops(now, AllHits(mem, segments, texts[i..]), offset, stop);
    assert !scan.truncated ==> FirstError(texts) == None;
    r := Found(PageOf(scan, offset));
  }
}
