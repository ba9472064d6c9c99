/** The offset cursor of `query_graph`: an injected row bound with a probe row, a clip, and a
    byte-budget cut, over a result whose order is stable (src/query_handlers.rs,
    src/response_budget.rs). */
module QueryPaging {
  import opened Options
  import opened Text

  const ROW_LIMIT: nat := 500

  function SaturatingAdd(a: nat, b: nat): nat {
    if a + b <= U64_MAX then a + b else U64_MAX
  }

  function Take<T>(s: seq<T>, n: nat): seq<T> {
    if n <= |s| then s[..n] else s
  }

  // ----- the byte budget -----

  datatype BoundedPage<T> = BoundedPage(items: seq<T>, totalCount: nat, truncated: bool, nextOffset: Option<nat>)

  /** How many items of `tail` fit when `used` characters are taken; the first item of a page
      always fits. */
  function Fitting<T>(tail: seq<T>, size: T -> nat, used: nat, budget: nat, first: bool): (n: nat)
    ensures n <= |tail|
    ensures first && tail != [] ==> n >= 1
  {
    if tail == [] then 0
    else if !first && used + size(tail[0]) > budget then 0
    else 1 + Fitting(tail[1..], size, used + size(tail[0]), budget, false)
  }

  function Start(offset: nat, total: nat): (s: nat)
    ensures s <= total
  {
    if offset <= total then offset else total
  }

  function BoundPage<T>(values: seq<T>, size: T -> nat, offset: nat, budget: nat): BoundedPage<T> {
    var start := Start(offset, |values|);
    var n := Fitting(values[start..], size, 0, budget, true);
    var more := start + n < |values|;
    BoundedPage(values[start..start + n], |values|, more, if more then Some(start + n) else None)
  }

  function TotalSize<T>(s: seq<T>, size: T -> nat): nat {
    if s == [] then 0 else size(s[0]) + TotalSize(s[1..], size)
  }

  /** A page is the longest run that stays within the budget, but never empty. */
  lemma {:induction false} FittingIsLongest<T>(tail: seq<T>, size: T -> nat, used: nat, budget: nat, first: bool)
    ensures var n := Fitting(tail, size, used, budget, first);
            && (n > (if first then 1 else 0) ==> used + TotalSize(tail[..n], size) <= budget)
            && (n < |tail| ==> (first && n == 0) || used + TotalSize(tail[..n + 1], size) > budget)
  {
    var n := Fitting(tail, size, used, budget, first);
    if n > 0 {
      FittingIsLongest(tail[1..], size, used + size(tail[0]), budget, false);
      assert tail[..n][1..] == tail[1..][..n - 1];
      if n < |tail| { assert tail[..n + 1][1..] == tail[1..][..n]; }
      if n == 1 { assert TotalSize(tail[..1][1..], size) == 0; }
    } else if tail != [] {
      assert tail[..1] == [tail[0]] && tail[..1][1..] == [];
    }
  }

  /** `bound_values_paged`. */
  method BoundValuesPaged<T>(values: seq<T>, size: T -> nat, offset: nat, budget: nat) returns (page: BoundedPage<T>)
    ensures page == BoundPage(values, size, offset, budget)
  {
    var total := |values|;
    var start := if offset <= total then offset else total;
    var items: seq<T> := [];
    var used: nat, consumed: nat := 0, 0;
    for k := start to total
      invariant consumed == k - start == |items| && items == values[start..k]
      invariant Fitting(values[start..], size, 0, budget, true) ==
                consumed + Fitting(values[k..], size, used, budget, consumed == 0)
    {
      var v := values[k];
      assert values[k..][1..] == values[k + 1..];
      if items != [] && used + size(v) > budget {
        break;
      }
      used := used + size(v);
      items := items + [v];
      consumed := consumed + 1;
    }
    var next := start + consumed;
    page := BoundedPage(items, total, next < total, if next < total then Some(next) else None);
  }

  // ----- the injected row bound -----

  /** `injected_fetch_limit`: the page window plus one probe row. */
  function FetchLimit(offset: nat): nat {
    SaturatingAdd(offset, ROW_LIMIT + 1)
  }

  class RowBuffer<T> {
    var rows: seq<T>

    constructor (rows: seq<T>)
      ensures this.rows == rows
    {
      this.rows := rows;
    }

    method Truncate(n: nat)
      modifies this
      ensures rows == Take(old(rows), n)
    {
      if n <= |rows| {
        rows := rows[..n];
      }
    }

    /** `clip_probe_row`: drops the probe in place and says whether it was there. */
    method ClipProbeRow(offset: nat) returns (reached: bool)
      modifies this
      ensures reached <==> |old(rows)| > SaturatingAdd(offset, ROW_LIMIT)
      ensures rows == Take(old(rows), SaturatingAdd(offset, ROW_LIMIT))
    {
      var windowEnd := SaturatingAdd(offset, ROW_LIMIT);
      reached := |rows| > windowEnd;
      Truncate(windowEnd);
    }
  }

  datatype Response<T> = Response(rows: seq<T>, totalCount: nat, truncated: bool, nextOffset: Option<nat>)

  /** One page of `result`: without a LIMIT of the caller's own the engine is asked for the
      page window and a probe row only. */
  function PageOf<T>(result: seq<T>, injected: bool, offset: nat, size: T -> nat, budget: nat): Response<T> {
    var fetched := if injected then Take(result, FetchLimit(offset)) else result;
    var windowEnd := SaturatingAdd(offset, ROW_LIMIT);
    var reached := injected && |fetched| > windowEnd;
    var rows := if injected then Take(fetched, windowEnd) else fetched;
    var page := BoundPage(rows, size, offset, budget);
    Response(page.items, page.totalCount, page.truncated || reached,
             if page.nextOffset.Some? then page.nextOffset else if reached then Some(|rows|) else None)
  }

  /** `run_gated_cypher` and `paged_query_response`, over what the engine returns. */
  method QueryPage<T>(result: seq<T>, hasLimit: bool, offset: nat, size: T -> nat, budget: nat)
    returns (r: Response<T>)
    ensures r == PageOf(result, !hasLimit, offset, size, budget)
  {
    var limitInjected := !hasLimit;
    var buffer := new RowBuffer(if limitInjected then Take(result, FetchLimit(offset)) else result);
    var reached := false;
    if limitInjected {
      reached := buffer.ClipProbeRow(offset);
    }
    var page := BoundValuesPaged(buffer.rows, size, offset, budget);
    var windowEnd := if reached then Some(|buffer.rows|) else None;
    r := Response(page.items, page.totalCount, page.truncated || reached,
                  if page.nextOffset.Some? then page.nextOffset else windowEnd);
  }

  // ----- paging reaches every row exactly once -----

  /** Whatever cut a page, it is the run of rows from its offset, not empty while rows are
      left; it is truncated exactly when rows are left after it, and the cursor is then the
      first of them. A result has at most as many rows as a machine word counts. */
  lemma PageIsRun<T>(result: seq<T>, injected: bool, offset: nat, size: T -> nat, budget: nat)
    requires |result| <= U64_MAX
    ensures var r := PageOf(result, injected, offset, size, budget);
            var start := Start(offset, |result|);
            var end := start + |r.rows|;
            && end <= |result| && r.rows == result[start..end]
            && (start < |result| ==> end > start)
            && (r.truncated <==> end < |result|)
            && r.nextOffset == (if end < |result| then Some(end) else None)
  {
    hide Take, SaturatingAdd, FetchLimit, Fitting, BoundPage;
    var windowEnd := SaturatingAdd(offset, ROW_LIMIT);
    var rows := if injected && |result| > windowEnd then Take(result, windowEnd) else result;
    WindowIsRead(result, injected, offset);
    PageInWindow(result, rows, size, offset, budget);
  }

  /** Where the rows that a page may use end: 500 past its offset, or with the result. */
  function WindowEnd(total: nat, injected: bool, offset: nat): nat {
    if injected && offset + 500 < total then offset + 500 else total
  }

  /** A page holds at most the budget, or one row; when it ends before its window does, one row
      more would not have fitted. The count it reports is that of the rows up to the window's end. */
  lemma PageFillsBudget<T>(result: seq<T>, injected: bool, offset: nat, size: T -> nat, budget: nat)
    requires |result| <= U64_MAX
    ensures var r, window := PageOf(result, injected, offset, size, budget), WindowEnd(|result|, injected, offset);
            var start := if offset <= |result| then offset else |result|;
            var end := start + |r.rows|;
            && r.totalCount == window && end <= window
            && (|r.rows| > 1 ==> TotalSize(r.rows, size) <= budget)
            && (end < window ==> TotalSize(result[start..end + 1], size) > budget)
  {
    hide Fitting, TotalSize, BoundPage;
    WindowIsRead(result, injected, offset);
    var window := WindowEnd(|result|, injected, offset);
    var rows := result[..window];
    assert result[..|result|] == result;
    var start := if offset <= |result| then offset else |result|;
    BoundPageFills(rows, size, offset, budget);
    var end := start + |PageOf(result, injected, offset, size, budget).rows|;
    assert end <= window ==> rows[start..end] == result[start..end];
    assert end < window ==> rows[start..end + 1] == result[start..end + 1];
  }

  /** The same of `bound_values_paged` alone. */
  lemma BoundPageFills<T>(values: seq<T>, size: T -> nat, offset: nat, budget: nat)
    ensures var page := BoundPage(values, size, offset, budget);
            var start := if offset <= |values| then offset else |values|;
            var end := start + |page.items|;
            && end <= |values| && page.items == values[start..end] && page.totalCount == |values|
            && (|page.items| > 1 ==> TotalSize(page.items, size) <= budget)
            && (end < |values| ==> TotalSize(values[start..end + 1], size) > budget)
            && (start < |values| ==> end > start)
  {
    hide Fitting, TotalSize;
    var start := Start(offset, |values|);
    var tail := values[start..];
    FittingIsLongest(tail, size, 0, budget, true);
    var n := Fitting(tail, size, 0, budget, true);
    assert tail[..n] == values[start..start + n];
    if n < |tail| { assert tail[..n + 1] == values[start..start + n + 1]; }
  }

  /** What is left of the rows that are fetched, and whether the probe row was there. */
  lemma WindowIsRead<T>(result: seq<T>, injected: bool, offset: nat)
    requires |result| <= U64_MAX
    ensures var fetched := if injected then Take(result, FetchLimit(offset)) else result;
            var windowEnd := SaturatingAdd(offset, ROW_LIMIT);
            var cut := injected && |result| > windowEnd;
            && (injected && |fetched| > windowEnd <==> cut)
            && (if injected then Take(fetched, windowEnd) else fetched) ==
               (if cut then Take(result, windowEnd) else result)
            && (cut ==>
                  |Take(result, windowEnd)| == windowEnd > offset && Take(result, windowEnd) == result[..windowEnd])
  {
  }

  lemma PageInWindow<T>(result: seq<T>, rows: seq<T>, size: T -> nat, offset: nat, budget: nat)
    requires |rows| <= |result| && rows == result[..|rows|] && (rows == result || offset < |rows|)
    ensures var page := BoundPage(rows, size, offset, budget);
            var start := Start(offset, |result|);
            var end := start + |page.items|;
            && end <= |rows| && page.items == result[start..end]
            && (start < |result| ==> end > start)
            && (page.truncated <==> end < |rows|) && page.nextOffset == (if end < |rows| then Some(end) else None)
  {
    hide Fitting;
    var start := Start(offset, |rows|);
    var n := Fitting(rows[start..], size, 0, budget, true);
    assert rows[start..start + n] == result[start..start + n];
  }

  /** Following the cursor from `offset` until there is none. */
  function Follow<T>(result: seq<T>, injected: bool, offset: nat, size: T -> nat, budget: nat): seq<T>
    requires offset <= |result| <= U64_MAX
    decreases |result| - offset
  {
    PageIsRun(result, injected, offset, size, budget);
    var r := PageOf(result, injected, offset, size, budget);
    r.rows + (if r.nextOffset.Some? then Follow(result, injected, r.nextOffset.value, size, budget) else [])
  }

  /** The pages concatenate to the rest of the result: no gap, no duplicate, and following
      the cursor ends. */
  lemma {:induction false} FollowingReachesEveryRow<T>(
    result: seq<T>, injected: bool, offset: nat, size: T -> nat, budget: nat)
    requires offset <= |result| <= U64_MAX
    ensures Follow(result, injected, offset, size, budget) == result[offset..]
    decreases |result| - offset
  {
    hide PageOf;
    PageIsRun(result, injected, offset, size, budget);
    var r := PageOf(result, injected, offset, size, budget);
    if r.nextOffset.Some? {
      var next := r.nextOffset.value;
      FollowingReachesEveryRow(result, injected, next, size, budget);
      assert result[offset..next] + result[next..] == result[offset..];
    }
  }

  /** From the start: exactly the result. */
  lemma PagesAreTheResult<T>(result: seq<T>, injected: bool, size: T -> nat, budget: nat)
    requires |result| <= U64_MAX
    ensures Follow(result, injected, 0, size, budget) == result
  {
    FollowingReachesEveryRow(result, injected, 0, size, budget);
    assert result[0..] == result;
  }
}
