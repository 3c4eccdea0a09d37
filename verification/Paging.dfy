/** Reading a session's events and findings page by page under caps (`internal/analysis/reconciler.go`). */
module Paging {
  import opened Common
  import opened Ordering

  const PAGE_SIZE := 501
  const FINDING_PAGE_SIZE := 101
  const FINDING_LIMIT := 1000
  const CITATION_LIMIT := 1000

  // ---------- a page of a fixed, strictly ordered snapshot ----------

  /** The rows that follow the cursor in the store's order. */
  function RowsAfter<T>(rows: seq<T>, cursor: Option<T>, before: (T, T) -> bool): seq<T> {
    if rows == [] then []
    else (if cursor.None? || before(cursor.value, rows[0]) then [rows[0]] else []) + RowsAfter(rows[1..], cursor, before)
  }

  function Page<T>(rows: seq<T>, cursor: Option<T>, before: (T, T) -> bool, limit: nat): seq<T> {
    var after := RowsAfter(rows, cursor, before);
    if |after| <= limit then after else after[..limit]
  }

  lemma {:induction false} AllRowsAfter<T(!new)>(rows: seq<T>, cursor: Option<T>, before: (T, T) -> bool)
    requires cursor.None? || forall k :: 0 <= k < |rows| ==> before(cursor.value, rows[k])
    ensures RowsAfter(rows, cursor, before) == rows
  {
    if rows != [] {
      AllRowsAfter(rows[1..], cursor, before);
      assert rows == [rows[0]] + rows[1..];
    }
  }

  lemma {:induction false} RowsAfterRow<T(!new)>(rows: seq<T>, i: nat, before: (T, T) -> bool)
    requires StrictWeak(before) && StrictlySorted(rows, before) && i < |rows|
    ensures RowsAfter(rows, Some(rows[i]), before) == rows[i + 1..]
  {
    if i == 0 {
      assert !before(rows[0], rows[0]);
      AllRowsAfter(rows[1..], Some(rows[0]), before);
    } else {
      assert before(rows[0], rows[i]) && !before(rows[i], rows[0]);
      assert rows[1..][i - 1] == rows[i];
      RowsAfterRow(rows[1..], i - 1, before);
    }
  }

  /** The cursor after the first n rows: none, or the last of them. */
  function CursorAt<T>(rows: seq<T>, n: nat): Option<T>
    requires n <= |rows|
  {
    if n == 0 then None else Some(rows[n - 1])
  }

  lemma PageAt<T(!new)>(rows: seq<T>, n: nat, before: (T, T) -> bool, limit: nat)
    requires StrictWeak(before) && StrictlySorted(rows, before) && n <= |rows|
    ensures Page(rows, CursorAt(rows, n), before, limit) == if |rows| - n <= limit then rows[n..] else rows[n..n + limit]
  {
    if n == 0 {
      AllRowsAfter(rows, None, before);
    } else {
      RowsAfterRow(rows, n - 1, before);
    }
  }

  // ---------- events ----------

  /** The first 10000 events of the snapshot, and whether there are more. */
  method SessionEvents<T(!new)>(snapshot: seq<T>, before: (T, T) -> bool) returns (events: seq<T>, truncated: bool)
    requires StrictWeak(before) && StrictlySorted(snapshot, before)
    ensures events == if |snapshot| <= 10_000 then snapshot else snapshot[..10_000]
    ensures truncated <==> |snapshot| > 10_000
  {
    events := [];
    var cursor: Option<T> := None;
    while |events| < MAX_SESSION_EVENTS
      invariant |events| <= |snapshot| && |events| <= MAX_SESSION_EVENTS
      invariant events == snapshot[..|events|] && cursor == CursorAt(snapshot, |events|)
    {
      var remaining := MAX_SESSION_EVENTS - |events|;
      var limit := if remaining < PAGE_SIZE then remaining else PAGE_SIZE;
      PageAt(snapshot, |events|, before, limit);
      var page := Page(snapshot, cursor, before, limit);
      events := events + page;
      if |page| < limit {
        return events, false;
      }
      cursor := Some(page[|page| - 1]);
    }
    PageAt(snapshot, |events|, before, 1);
    var lookAhead := Page(snapshot, cursor, before, 1);
    return events, |lookAhead| > 0;
  }

  // ---------- findings ----------

  /** A finding as the store returns it; `clipped` when the store already cut its citations. */
  datatype Finding = Finding(
    id: string, detectedAt: int, ruleId: string, ruleVersion: string, severity: string, confidence: string,
    harness: string, scopeHint: string, cited: seq<string>, clipped: bool)

  /** The store's order: newest first. */
  predicate FindingBefore(a: Finding, b: Finding) {
    if a.detectedAt != b.detectedAt then a.detectedAt > b.detectedAt else Less(b.id, a.id)
  }

  lemma FindingBeforeIsStrictWeak()
    ensures StrictWeak(FindingBefore)
  {
    LessIsStrictTotal();
  }

  /** Findings are read from the newest to the oldest, and at one time from the largest ID down. */
  lemma NewestFirst(snapshot: seq<Finding>, i: nat, j: nat)
    requires StrictlySorted(snapshot, FindingBefore) && i < j < |snapshot|
    ensures snapshot[i].detectedAt >= snapshot[j].detectedAt
    ensures snapshot[i].detectedAt == snapshot[j].detectedAt ==> Less(snapshot[j].id, snapshot[i].id)
  {
    assert FindingBefore(snapshot[i], snapshot[j]);
    hide Less;
  }

  function Citations(findings: seq<Finding>, n: nat): nat
    requires n <= |findings|
  {
    if n == 0 then 0 else Citations(findings, n - 1) + |findings[n - 1].cited|
  }

  /** A prefix of the snapshot whose last item may have lost the end of its citations. */
  ghost predicate IsClippedPrefix(result: seq<Finding>, snapshot: seq<Finding>) {
    && |result| <= |snapshot|
    && (forall k :: 0 <= k < |result| - 1 ==> result[k] == snapshot[k])
    && (result != [] ==>
          var last, full := result[|result| - 1], snapshot[|result| - 1];
          last.cited <= full.cited && last == full.(cited := last.cited))
  }

  ghost predicate AnyClipped(findings: seq<Finding>) {
    exists k :: 0 <= k < |findings| && findings[k].clipped
  }

  lemma {:induction false} CitationsOfPrefix(a: seq<Finding>, b: seq<Finding>, n: nat)
    requires n <= |a| && n <= |b| && a[..n] == b[..n]
    ensures Citations(a, n) == Citations(b, n)
  {
    if n > 0 {
      assert a[n - 1] == a[..n][n - 1] == b[n - 1];
      assert a[..n - 1] == a[..n][..n - 1] && b[..n - 1] == b[..n][..n - 1];
      CitationsOfPrefix(a, b, n - 1);
    }
  }

  /** What `sessionFindings` promises about the snapshot it read. */
  ghost predicate ReadFindings(snapshot: seq<Finding>, result: seq<Finding>, truncated: bool) {
    && |result| <= 1000 && Citations(result, |result|) <= 1000
    && IsClippedPrefix(result, snapshot)
    && (truncated <==> result != snapshot || AnyClipped(snapshot))
    && (result != snapshot ==> |result| == 1000 || Citations(result, |result|) == 1000)
  }

  datatype Progress = Progress(result: seq<Finding>, citations: nat, full: bool)

  lemma FullMeans(findings: nat, citations: nat)
    ensures findings == FINDING_LIMIT || citations == CITATION_LIMIT <==> findings == 1000 || citations == 1000
  {
  }

  lemma StopsShort(snapshot: seq<Finding>, result: seq<Finding>)
    requires |result| < |snapshot| && result == snapshot[..|result|] && |result| <= FINDING_LIMIT
    requires Citations(snapshot, |result|) <= CITATION_LIMIT
    requires |result| == FINDING_LIMIT || Citations(snapshot, |result|) == CITATION_LIMIT
    ensures ReadFindings(snapshot, result, true)
  {
    CitationsOfPrefix(result, snapshot, |result|);
    FullMeans(|result|, Citations(result, |result|));
    assert forall k :: 0 <= k < |result| ==> result[k] == snapshot[k];
  }

  lemma StopsWithin(snapshot: seq<Finding>, result: seq<Finding>, left: nat)
    requires |result| < |snapshot| && result == snapshot[..|result|] && |result| < FINDING_LIMIT
    requires Citations(snapshot, |result|) + left == CITATION_LIMIT && left < |snapshot[|result|].cited|
    ensures var next := snapshot[|result|];
            var cut := result + [next.(cited := next.cited[..left])];
            ReadFindings(snapshot, cut, true) && cut != snapshot
  {
    var next := snapshot[|result|];
    var cut := result + [next.(cited := next.cited[..left])];
    CitationsOfPrefix(cut, snapshot, |result|);
    assert cut[|result|].cited != snapshot[|result|].cited;
    assert forall k :: 0 <= k < |result| ==> cut[k] == snapshot[k];
  }

  /** The rows of one page: stops at the first one that does not fit, keeping what fits of its citations. */
  method TakePage(snapshot: seq<Finding>, page: seq<Finding>, start: nat, citations0: nat) returns (p: Progress)
    requires start + |page| <= |snapshot| && page == snapshot[start..start + |page|]
    requires start <= FINDING_LIMIT && citations0 == Citations(snapshot, start) <= CITATION_LIMIT
    ensures !p.full ==> p.result == snapshot[..start + |page|] && |p.result| <= FINDING_LIMIT
                        && p.citations == Citations(snapshot, start + |page|) <= CITATION_LIMIT
    ensures p.full ==> ReadFindings(snapshot, p.result, true) && p.result != snapshot
  {
    var result, citations := snapshot[..start], citations0;
    for k := 0 to |page|
      invariant |result| == start + k <= FINDING_LIMIT && result == snapshot[..start + k]
      invariant citations == Citations(snapshot, start + k) <= CITATION_LIMIT
    {
      var finding := page[k];
      assert finding == snapshot[start + k];
      CitationsOfPrefix(result, snapshot, |result|);
      hide ReadFindings;
      if |result| == FINDING_LIMIT {
        StopsShort(snapshot, result);
        return Progress(result, citations, true);
      }
      var remaining := CITATION_LIMIT - citations;
      if remaining == 0 {
        StopsShort(snapshot, result);
        return Progress(result, citations, true);
      }
      if |finding.cited| > remaining {
        var cut := finding.(cited := finding.cited[..remaining]);
        StopsWithin(snapshot, result, remaining);
        return Progress(result + [cut], CITATION_LIMIT, true);
      }
      citations := citations + |finding.cited|;
      result := result + [finding];
    }
    return Progress(result, citations, false);
  }

  /**
   * Reads at most 1000 findings and 1000 citations; terminates, and reports truncation exactly when
   * something of the snapshot is missing from the result or was already missing in the store's rows.
   */
  method SessionFindings(snapshot: seq<Finding>) returns (result: seq<Finding>, truncated: bool)
    requires StrictlySorted(snapshot, FindingBefore)
    ensures ReadFindings(snapshot, result, truncated)
  {
    FindingBeforeIsStrictWeak();
    hide FindingBefore, StrictWeak, StrictlySorted, Page, RowsAfter, ReadFindings, AnyClipped;
    NothingClipped(snapshot);
    result, truncated := [], false;
    var citationCount := 0;
    var cursor: Option<Finding> := None;
    while |result| <= FINDING_LIMIT
      invariant |result| <= |snapshot| && |result| <= FINDING_LIMIT && result == snapshot[..|result|]
      invariant cursor == CursorAt(snapshot, |result|)
      invariant citationCount == Citations(snapshot, |result|) <= CITATION_LIMIT
      invariant truncated <==> AnyClipped(snapshot[..|result|])
      decreases |snapshot| - |result|
    {
      var remainingLookAhead := FINDING_LIMIT + 1 - |result|;
      var limit := if remainingLookAhead < FINDING_PAGE_SIZE then remainingLookAhead else FINDING_PAGE_SIZE;
      PageAt(snapshot, |result|, FindingBefore, limit);
      var page := Page(snapshot, cursor, FindingBefore, limit);
      ghost var start := |result|;
      var pageTruncated := exists k :: 0 <= k < |page| && page[k].clipped;
      assert pageTruncated == AnyClipped(page) by { ClippedPage(page); }
      ClippedSoFar(snapshot, start, |page|);
      truncated := truncated || pageTruncated;
      var progress := TakePage(snapshot, page, |result|, citationCount);
      result := progress.result;
      if progress.full {
        return result, true;
      }
      citationCount := progress.citations;
      if |page| < limit {
        assert result == snapshot;
        WholeSnapshot(snapshot, truncated);
        return;
      }
      cursor := Some(page[|page| - 1]);
    }
  }

  lemma NothingClipped(snapshot: seq<Finding>)
    ensures !AnyClipped(snapshot[..0])
  {
  }

  lemma ClippedPage(page: seq<Finding>)
    ensures AnyClipped(page) <==> exists k :: 0 <= k < |page| && page[k].clipped
  {
  }

  lemma WholeSnapshot(snapshot: seq<Finding>, truncated: bool)
    requires |snapshot| <= FINDING_LIMIT && Citations(snapshot, |snapshot|) <= CITATION_LIMIT
    requires truncated <==> AnyClipped(snapshot)
    ensures ReadFindings(snapshot, snapshot, truncated)
  {
  }

  lemma ClippedSoFar(snapshot: seq<Finding>, start: nat, count: nat)
    requires start + count <= |snapshot|
    ensures AnyClipped(snapshot[..start + count]) <==>
              AnyClipped(snapshot[..start]) || AnyClipped(snapshot[start..start + count])
  {
    var all, front, page := snapshot[..start + count], snapshot[..start], snapshot[start..start + count];
    assert all == front + page;
    if k :| 0 <= k < |front| && front[k].clipped { assert all[k].clipped; }
    if k :| 0 <= k < |page| && page[k].clipped { assert all[start + k].clipped; }
    if k :| 0 <= k < |all| && all[k].clipped {
      assert k < start ==> front[k].clipped;
      assert k >= start ==> page[k - start].clipped;
    }
  }
}
