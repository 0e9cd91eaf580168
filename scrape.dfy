/**
 * The program's own logic inside one page scrape: the `data-id` filter over
 * the table rows (scrape), the counter selection on each report page and the
 * positional pairing of rows with the collected stats (scrape_current_page).
 * The browser is replaced by its observable results: rows, counter texts and
 * the way each report-page visit ended.
 */
module Scrape {
  import opened Wrappers
  import opened History

  /** A `tr` element of the course table: its `data-id` attribute (None when
      the attribute is missing) and the texts of its `td` cells. */
  datatype DomRow = DomRow(dataId: Option<string>, cells: seq<string>)

  /** Why the wait for the counter elements raised inside its try block. */
  datatype CounterFault = CounterTimeout | CounterNotFound | CounterOther

  /** How one report-page visit ended. */
  datatype Fetch =
    | Counters(texts: seq<string>)  // the counter elements, their texts in page order
    | Fault(reason: CounterFault)   // caught and logged; no stats entry
    | FrameUnavailable              // the page load or the iframe wait failed, outside any try

  /** The two counters kept for one course. */
  datatype Stats = Stats(enrollments: Value, completed: Value)

  /** The exceptions a page scrape propagates to its caller; FrameTimeout
      stands for any failure of the page load or the iframe wait. */
  datatype PageError = FrameTimeout | IndexError

  /** The `if data_id:` test: a missing or empty attribute is skipped. */
  predicate HasId(r: DomRow)
  {
    r.dataId.Some? && r.dataId.value != ""
  }

  function IdOf(r: DomRow): seq<string>
  {
    if HasId(r) then [r.dataId.value] else []
  }

  /** The non-empty `data-id` values of the rows, in row order. */
  function DataIds(rows: seq<DomRow>): (ids: seq<string>)
    ensures |ids| <= |rows|
    ensures (forall i :: 0 <= i < |rows| ==> HasId(rows[i])) ==> |ids| == |rows|
    ensures forall k :: 0 <= k < |ids| ==> ids[k] != ""
  {
    if rows == [] then [] else DataIds(rows[..|rows| - 1]) + IdOf(rows[|rows| - 1])
  }

  /** The positions of the rows that carry an id, in increasing order. */
  function IdPositions(rows: seq<DomRow>): (p: seq<nat>)
    ensures forall k :: 0 <= k < |p| ==> p[k] < |rows| && HasId(rows[p[k]])
    ensures forall k, l :: 0 <= k < l < |p| ==> p[k] < p[l]
    ensures forall i :: 0 <= i < |rows| && HasId(rows[i]) ==> i in p
  {
    if rows == [] then []
    else
      var init := rows[..|rows| - 1];
      IdPositions(init) + (if HasId(rows[|rows| - 1]) then [|rows| - 1] else [])
  }

  /** The ids are exactly the attributes found at IdPositions: `data_ids` is
      the subsequence of non-empty attributes, in row order. */
  lemma {:induction false} DataIdsAtPositions(rows: seq<DomRow>)
    ensures |DataIds(rows)| == |IdPositions(rows)|
    ensures forall k :: 0 <= k < |DataIds(rows)| ==>
      DataIds(rows)[k] == rows[IdPositions(rows)[k]].dataId.value
  {
    if rows != [] {
      var init := rows[..|rows| - 1];
      DataIdsAtPositions(init);
      assert forall i :: 0 <= i < |init| ==> init[i] == rows[i];
    }
  }

  /** A row without an id makes `data_ids` shorter than the row list. */
  lemma {:induction false} MissingIdShortensIds(rows: seq<DomRow>, i: nat)
    requires i < |rows| && !HasId(rows[i])
    ensures |DataIds(rows)| < |rows|
  {
    var init := rows[..|rows| - 1];
    if i < |rows| - 1 {
      assert init[i] == rows[i];
      MissingIdShortensIds(init, i);
    }
  }

  /** Every row carries an id: one id per row, row by row. */
  lemma {:induction false} AllIdsPresent(rows: seq<DomRow>)
    requires forall i :: 0 <= i < |rows| ==> HasId(rows[i])
    ensures |DataIds(rows)| == |rows|
    ensures forall i :: 0 <= i < |rows| ==> rows[i].dataId == Some(DataIds(rows)[i])
  {
    if rows != [] {
      var init := rows[..|rows| - 1];
      AllIdsPresent(init);
    }
  }

  /** The loop that builds `data_ids`. */
  method CollectDataIds(rows: seq<DomRow>) returns (ids: seq<string>)
    ensures ids == DataIds(rows)
  {
    ids := [];
    for i := 0 to |rows|
      invariant ids == DataIds(rows[..i])
    {
      var dataId := rows[i].dataId;
      if dataId.Some? && dataId.value != "" {
        ids := ids + [dataId.value];
      }
      assert rows[..i + 1][..i] == rows[..i];
    }
    assert rows[..|rows|] == rows;
  }

  /** The counters kept from one report page: enrollments at position 0 and
      completions at position 5, each defaulting to the integer 0. */
  function SelectStats(counters: seq<string>): (s: Stats)
    ensures |counters| > 0 ==> s.enrollments == StrVal(counters[0])
    ensures |counters| == 0 ==> s.enrollments == IntVal(0)
    ensures |counters| > 5 ==> s.completed == StrVal(counters[5])
    ensures |counters| <= 5 ==> s.completed == IntVal(0)
  {
    Stats(if |counters| > 0 then StrVal(counters[0]) else IntVal(0),
          if |counters| > 5 then StrVal(counters[5]) else IntVal(0))
  }

  function StatsOf(f: Fetch): seq<Stats>
  {
    if f.Counters? then [SelectStats(f.texts)] else []
  }

  /** `course_stats` when no visit propagated an exception: one entry per
      visit that found its counters, in visit order. */
  function LoadedStats(fetches: seq<Fetch>): (stats: seq<Stats>)
    ensures |stats| <= |fetches|
  {
    if fetches == [] then [] else LoadedStats(fetches[..|fetches| - 1]) + StatsOf(fetches[|fetches| - 1])
  }

  predicate FrameFailed(fetches: seq<Fetch>)
  {
    exists k :: 0 <= k < |fetches| && fetches[k].FrameUnavailable?
  }

  lemma {:induction false} LoadedStatsAppend(a: seq<Fetch>, b: seq<Fetch>)
    ensures LoadedStats(a + b) == LoadedStats(a) + LoadedStats(b)
    decreases |b|
  {
    if b != [] {
      var init := b[..|b| - 1];
      assert (a + b)[..|a + b| - 1] == a + init;
      assert (a + b)[|a + b| - 1] == b[|b| - 1];
      LoadedStatsAppend(a, init);
      assert LoadedStats(b) == LoadedStats(init) + StatsOf(b[|b| - 1]);
    } else {
      assert a + b == a;
    }
  }

  /** Every visit found its counters: stats entry `i` belongs to visit `i`. */
  lemma {:induction false} AllFetchedAligned(fetches: seq<Fetch>)
    requires forall k :: 0 <= k < |fetches| ==> fetches[k].Counters?
    ensures |LoadedStats(fetches)| == |fetches|
    ensures forall k :: 0 <= k < |fetches| ==> LoadedStats(fetches)[k] == SelectStats(fetches[k].texts)
  {
    if fetches != [] {
      AllFetchedAligned(fetches[..|fetches| - 1]);
    }
  }

  /** One caught fault at visit `k` shifts every later stats entry down by
      one position: entry `j >= k` holds the counters of visit `j + 1`. */
  lemma FaultShiftsLaterStats(fetches: seq<Fetch>, k: nat)
    requires k < |fetches| && fetches[k].Fault?
    requires forall j :: 0 <= j < |fetches| && j != k ==> fetches[j].Counters?
    ensures |LoadedStats(fetches)| == |fetches| - 1
    ensures forall j :: 0 <= j < k ==> LoadedStats(fetches)[j] == SelectStats(fetches[j].texts)
    ensures forall j :: k <= j < |fetches| - 1 ==> LoadedStats(fetches)[j] == SelectStats(fetches[j + 1].texts)
  {
    var before, after := fetches[..k], fetches[k + 1..];
    assert fetches == before + [fetches[k]] + after;
    LoadedStatsAppend(before + [fetches[k]], after);
    LoadedStatsAppend(before, [fetches[k]]);
    assert LoadedStats([fetches[k]]) == [] by {
      assert [fetches[k]][..0] == [];
    }
    AllFetchedAligned(before);
    AllFetchedAligned(after);
  }

  /** A caught fault anywhere leaves fewer stats entries than visits. */
  lemma FaultLosesEntry(fetches: seq<Fetch>, k: nat)
    requires k < |fetches| && fetches[k].Fault?
    ensures |LoadedStats(fetches)| < |fetches|
  {
    var before, after := fetches[..k], fetches[k + 1..];
    assert fetches == before + [fetches[k]] + after;
    LoadedStatsAppend(before + [fetches[k]], after);
    LoadedStatsAppend(before, [fetches[k]]);
    assert LoadedStats([fetches[k]]) == [] by {
      assert [fetches[k]][..0] == [];
    }
  }

  /** The visits of scrape_current_page: stops at the first visit whose
      iframe never appeared, and otherwise skips visits whose counters failed. */
  method CollectStats(fetches: seq<Fetch>) returns (r: Result<seq<Stats>, PageError>)
    ensures FrameFailed(fetches) ==> r == Err(FrameTimeout)
    ensures !FrameFailed(fetches) ==> r == Ok(LoadedStats(fetches))
  {
    var stats := [];
    for i := 0 to |fetches|
      invariant stats == LoadedStats(fetches[..i])
      invariant forall k :: 0 <= k < i ==> !fetches[k].FrameUnavailable?
    {
      assert fetches[..i + 1][..i] == fetches[..i];
      match fetches[i]
      case FrameUnavailable =>
        return Err(FrameTimeout);
      case Counters(texts) =>
        stats := stats + [SelectStats(texts)];
      case Fault(_) =>
    }
    assert fetches[..|fetches|] == fetches;
    return Ok(stats);
  }

  /** The course built from a table row and one stats entry: `td` cells 1 to 5. */
  function CourseOf(row: DomRow, s: Stats): Course
    requires |row.cells| >= 6
  {
    Course(row.cells[1], row.cells[2], row.cells[3], row.cells[4], row.cells[5],
           s.enrollments, s.completed)
  }

  /** `r` is what pairing `rows` with `stats` by position produces: one course
      per row, row `i` with `stats[i]`, or an index error when a row has too
      few cells or there are fewer stats entries than rows. */
  predicate PairedAs(rows: seq<DomRow>, stats: seq<Stats>, r: Result<seq<Course>, PageError>)
  {
    && (r.Ok? <==> |rows| <= |stats| && forall i :: 0 <= i < |rows| ==> |rows[i].cells| >= 6)
    && (r.Err? ==> r.error == IndexError)
    && (r.Ok? ==> |r.value| == |rows|)
    && (r.Ok? ==> forall i :: 0 <= i < |rows| ==> r.value[i] == CourseOf(rows[i], stats[i]))
  }

  /** The loop that builds `courses`. */
  method PairRows(rows: seq<DomRow>, stats: seq<Stats>) returns (r: Result<seq<Course>, PageError>)
    ensures PairedAs(rows, stats, r)
  {
    var courses := [];
    for i := 0 to |rows|
      invariant i <= |stats|
      invariant |courses| == i
      invariant forall j :: 0 <= j < i ==>
        |rows[j].cells| >= 6 && courses[j] == CourseOf(rows[j], stats[j])
    {
      var cols := rows[i].cells;
      if |cols| < 6 || i >= |stats| {
        return Err(IndexError);
      }
      courses := courses + [CourseOf(rows[i], stats[i])];
    }
    return Ok(courses);
  }

  /** scrape_current_page: visit every id's report page, then pair rows. */
  method ScrapeCurrentPage(rows: seq<DomRow>, fetches: seq<Fetch>)
    returns (r: Result<seq<Course>, PageError>)
    ensures FrameFailed(fetches) ==> r == Err(FrameTimeout)
    ensures !FrameFailed(fetches) ==> PairedAs(rows, LoadedStats(fetches), r)
  {
    var stats := CollectStats(fetches);
    if stats.Err? {
      return Err(stats.error);
    }
    r := PairRows(rows, stats.value);
  }

  /** The first call, on the initial page with no ids: no stats are
      collected, so any row at all makes the pairing raise an index error. */
  lemma FirstPageFails(rows: seq<DomRow>, r: Result<seq<Course>, PageError>)
    requires |rows| > 0 && PairedAs(rows, LoadedStats([]), r)
    ensures r == Err(IndexError)
  {
  }

  /** One page of the pagination loop: collect the ids, visit each (visit
      `k` is the one for `data_ids[k]`) and pair the rows.  The page yields
      courses exactly when every row carries an id and six cells and every
      visit found its counters; a row without an id (such as a header row),
      a short row or a single caught fault costs the whole page an index
      error. */
  method ScrapeListedPage(rows: seq<DomRow>, fetches: seq<Fetch>)
    returns (r: Result<seq<Course>, PageError>)
    requires |fetches| == |DataIds(rows)|
    ensures FrameFailed(fetches) ==> r == Err(FrameTimeout)
    ensures !FrameFailed(fetches) ==>
      (r.Ok? <==> (forall i :: 0 <= i < |rows| ==> HasId(rows[i]) && |rows[i].cells| >= 6) &&
                  (forall k :: 0 <= k < |fetches| ==> fetches[k].Counters?))
    ensures !FrameFailed(fetches) && r.Err? ==> r.error == IndexError
    ensures !FrameFailed(fetches) && (exists i :: 0 <= i < |rows| && !HasId(rows[i])) ==>
      r == Err(IndexError)
    ensures !FrameFailed(fetches) && (exists k :: 0 <= k < |fetches| && fetches[k].Fault?) ==>
      r == Err(IndexError)
    ensures (forall i :: 0 <= i < |rows| ==> HasId(rows[i]) && |rows[i].cells| >= 6) &&
            (forall k :: 0 <= k < |fetches| ==> fetches[k].Counters?) ==>
      && r.Ok? && |r.value| == |rows|
      && forall i :: 0 <= i < |rows| ==> r.value[i] == CourseOf(rows[i], SelectStats(fetches[i].texts))
  {
    var ids := CollectDataIds(rows);
    assert |fetches| == |ids|;
    r := ScrapeCurrentPage(rows, fetches);
    if !FrameFailed(fetches) && exists i :: 0 <= i < |rows| && !HasId(rows[i]) {
      var i :| 0 <= i < |rows| && !HasId(rows[i]);
      MissingIdShortensIds(rows, i);
    }
    if !FrameFailed(fetches) && exists k :: 0 <= k < |fetches| && fetches[k].Fault? {
      var k :| 0 <= k < |fetches| && fetches[k].Fault?;
      FaultLosesEntry(fetches, k);
    }
    if forall k :: 0 <= k < |fetches| ==> fetches[k].Counters? {
      AllFetchedAligned(fetches);
      if forall i :: 0 <= i < |rows| ==> HasId(rows[i]) {
        AllIdsPresent(rows);
      }
    }
  }
}
