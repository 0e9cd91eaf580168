/**
 * The persisted course table and the merge of one scrape's courses into it
 * (update_csv_with_historical_data).  A table is a sequence of rows; each row
 * has five descriptive fields and two histories mapping a date to a counter.
 */
module History {
  import opened Wrappers

  /** A date as the program formats it ("%Y-%m-%d"); treated as an opaque key. */
  type Date = string

  /** A counter as the program stores it: an int (legacy cells, the default 0)
      or the text read from a report page. */
  datatype Value = IntVal(n: int) | StrVal(s: string)

  /** One scraped course. */
  datatype Course = Course(
    title: string,
    kind: string,
    creationDate: string,
    daysSinceCreation: string,
    trainingMaterials: string,
    enrollments: Value,
    completed: Value)

  /** One row of the persisted table; its fields are the file's columns in
      order: Title, Type, Creation Date, Days Since Creation, Training
      Materials, Enrollments, Completed. */
  datatype Row = Row(
    title: string,
    kind: string,
    creationDate: string,
    daysSinceCreation: string,
    trainingMaterials: string,
    enrollments: map<Date, Value>,
    completed: map<Date, Value>)

  predicate HasTitle(rows: seq<Row>, t: string)
  {
    exists i :: 0 <= i < |rows| && rows[i].title == t
  }

  /** The five descriptive fields of two rows agree. */
  predicate SameDescription(a: Row, b: Row)
  {
    && a.title == b.title
    && a.kind == b.kind
    && a.creationDate == b.creationDate
    && a.daysSinceCreation == b.daysSinceCreation
    && a.trainingMaterials == b.trainingMaterials
  }

  /** `after` is `before` with key `d` bound to `v`, the effect of
      `history[d] = v` on a dictionary. */
  predicate SetsKey(before: map<Date, Value>, after: map<Date, Value>, d: Date, v: Value)
  {
    && after.Keys == before.Keys + {d}
    && d in after && after[d] == v
    && forall e :: e in before && e != d ==> after[e] == before[e]
  }

  /** The label of the first row whose title is `t` (`index[0]` of the
      rows selected by title), or None when no row has that title. */
  function FirstIndex(rows: seq<Row>, t: string): (r: Option<nat>)
    ensures r.Some? ==> r.value < |rows| && rows[r.value].title == t
    ensures r.Some? ==> forall j :: 0 <= j < r.value ==> rows[j].title != t
    ensures r.None? ==> forall j :: 0 <= j < |rows| ==> rows[j].title != t
  {
    if rows == [] then None
    else if rows[0].title == t then Some(0)
    else match FirstIndex(rows[1..], t)
      case None => None
      case Some(i) => Some(i + 1)
  }

  /** Today's counters of `c` written into the histories of `row`. */
  function Stamp(row: Row, c: Course, today: Date): Row
  {
    row.(enrollments := row.enrollments[today := c.enrollments],
         completed := row.completed[today := c.completed])
  }

  /** A row created from the descriptive fields of `first` whose histories
      hold only today's counters of `last`. */
  function Seeded(first: Course, last: Course, today: Date): Row
  {
    Row(first.title, first.kind, first.creationDate, first.daysSinceCreation,
        first.trainingMaterials, map[today := last.enrollments], map[today := last.completed])
  }

  /** The row appended for a course whose title is not in the table. */
  function NewRow(c: Course, today: Date): Row
  {
    Seeded(c, c, today)
  }

  /** One iteration of the merge loop. */
  function MergeCourse(rows: seq<Row>, c: Course, today: Date): seq<Row>
  {
    match FirstIndex(rows, c.title)
    case Some(i) => rows[i := Stamp(rows[i], c, today)]
    case None => rows + [NewRow(c, today)]
  }

  /** The whole merge: the courses are taken in order. */
  function MergeAll(rows: seq<Row>, courses: seq<Course>, today: Date): (r: seq<Row>)
    ensures |r| >= |rows|
    decreases |courses|
  {
    if courses == [] then rows
    else MergeCourse(MergeAll(rows, courses[..|courses| - 1], today), courses[|courses| - 1], today)
  }

  /** The in-memory table the merge updates and then writes out. */
  class CourseTable {
    var rows: seq<Row>

    /** The empty table synthesised when no file exists; its columns are
        the fields of Row. */
    constructor Empty()
      ensures rows == []
    {
      rows := [];
    }

    /** The table load_existing_data returns: the file's rows with both
        counter columns already migrated (Migration.Load). */
    constructor Loaded(loaded: seq<Row>)
      ensures rows == loaded
    {
      rows := loaded;
    }

    /** Merge the scraped courses, stamping `today`'s counters. */
    method Merge(courses: seq<Course>, today: Date)
      modifies this
      ensures rows == MergeAll(old(rows), courses, today)
    {
      for i := 0 to |courses|
        invariant rows == MergeAll(old(rows), courses[..i], today)
      {
        var course := courses[i];
        match FirstIndex(rows, course.title)
        case Some(idx) =>
          var row := rows[idx];
          rows := rows[idx := row.(enrollments := row.enrollments[today := course.enrollments],
                                   completed := row.completed[today := course.completed])];
        case None =>
          rows := rows + [NewRow(course, today)];
        assert courses[..i + 1][..i] == courses[..i];
      }
      assert courses[..|courses|] == courses;
    }
  }

  // ---------------------------------------------------------------------
  // One course at a time

  /** A known title: only the first row with that title changes, and in it
      only today's key of each history. */
  lemma MergeKnownTitle(rows: seq<Row>, c: Course, today: Date, k: nat)
    requires k < |rows| && rows[k].title == c.title
    requires forall j :: 0 <= j < k ==> rows[j].title != c.title
    ensures var r := MergeCourse(rows, c, today);
      && |r| == |rows|
      && SameDescription(r[k], rows[k])
      && SetsKey(rows[k].enrollments, r[k].enrollments, today, c.enrollments)
      && SetsKey(rows[k].completed, r[k].completed, today, c.completed)
      && forall j :: 0 <= j < |rows| && j != k ==> r[j] == rows[j]
  {
  }

  /** A new title: exactly one row is appended, seeded with today's counters. */
  lemma MergeNewTitle(rows: seq<Row>, c: Course, today: Date)
    requires forall j :: 0 <= j < |rows| ==> rows[j].title != c.title
    ensures var r := MergeCourse(rows, c, today);
      && |r| == |rows| + 1
      && r[..|rows|] == rows
      && r[|rows|].title == c.title && r[|rows|].kind == c.kind
      && r[|rows|].creationDate == c.creationDate
      && r[|rows|].daysSinceCreation == c.daysSinceCreation
      && r[|rows|].trainingMaterials == c.trainingMaterials
      && r[|rows|].enrollments == map[today := c.enrollments]
      && r[|rows|].completed == map[today := c.completed]
  {
  }

  // ---------------------------------------------------------------------
  // First and last occurrence of a title in a batch

  function LastOf(courses: seq<Course>, t: string): (r: Option<Course>)
    ensures r.Some? ==> r.value in courses && r.value.title == t
    ensures r.None? ==> forall k :: 0 <= k < |courses| ==> courses[k].title != t
  {
    if courses == [] then None
    else if courses[|courses| - 1].title == t then Some(courses[|courses| - 1])
    else LastOf(courses[..|courses| - 1], t)
  }

  function FirstOf(courses: seq<Course>, t: string): (r: Option<Course>)
    ensures r.Some? ==> r.value in courses && r.value.title == t
    ensures r.None? ==> forall k :: 0 <= k < |courses| ==> courses[k].title != t
  {
    if courses == [] then None
    else match FirstOf(courses[..|courses| - 1], t)
      case Some(c) => Some(c)
      case None =>
        if courses[|courses| - 1].title == t then Some(courses[|courses| - 1]) else None
  }

  lemma LastOfSnoc(courses: seq<Course>, c: Course, t: string)
    ensures LastOf(courses + [c], t) == if c.title == t then Some(c) else LastOf(courses, t)
  {
    assert (courses + [c])[..|courses|] == courses;
  }

  lemma FirstOfSnoc(courses: seq<Course>, c: Course, t: string)
    ensures FirstOf(courses + [c], t) ==
      if FirstOf(courses, t).Some? then FirstOf(courses, t)
      else if c.title == t then Some(c) else None
  {
    assert (courses + [c])[..|courses|] == courses;
  }

  lemma {:induction false} LastOfIsLast(courses: seq<Course>, k: nat)
    requires k < |courses|
    requires forall j :: k < j < |courses| ==> courses[j].title != courses[k].title
    ensures LastOf(courses, courses[k].title) == Some(courses[k])
  {
    if k < |courses| - 1 {
      LastOfIsLast(courses[..|courses| - 1], k);
    }
  }

  lemma {:induction false} FirstOfIsFirst(courses: seq<Course>, k: nat)
    requires k < |courses|
    requires forall j :: 0 <= j < k ==> courses[j].title != courses[k].title
    ensures FirstOf(courses, courses[k].title) == Some(courses[k])
  {
    var init := courses[..|courses| - 1];
    if k < |courses| - 1 {
      FirstOfIsFirst(init, k);
    } else {
      assert FirstOf(init, courses[k].title).None?;
    }
  }

  // ---------------------------------------------------------------------
  // The shape of a merged table

  ghost predicate IsFirst(rows: seq<Row>, i: int)
    requires 0 <= i < |rows|
  {
    forall j :: 0 <= j < i ==> rows[j].title != rows[i].title
  }

  /** What an existing row `T[i]` becomes after merging batch `B`. */
  ghost function Revised(T: seq<Row>, B: seq<Course>, today: Date, i: int): Row
    requires 0 <= i < |T|
  {
    var last := LastOf(B, T[i].title);
    if IsFirst(T, i) && last.Some? then Stamp(T[i], last.value, today) else T[i]
  }

  /** `row` is the row appended for a title of `B` absent from `T`. */
  ghost predicate AppendedRow(T: seq<Row>, B: seq<Course>, today: Date, row: Row)
  {
    && !HasTitle(T, row.title)
    && FirstOf(B, row.title).Some?
    && LastOf(B, row.title).Some?
    && row == Seeded(FirstOf(B, row.title).value, LastOf(B, row.title).value, today)
  }

  /** `R` is the result of merging batch `B` into table `T`. */
  ghost predicate MergedFrom(T: seq<Row>, B: seq<Course>, today: Date, R: seq<Row>)
  {
    && |T| <= |R|
    && (forall i :: 0 <= i < |T| ==> R[i] == Revised(T, B, today, i))
    && (forall i :: |T| <= i < |R| ==> IsFirst(R, i) && AppendedRow(T, B, today, R[i]))
    && (forall t :: LastOf(B, t).Some? ==> HasTitle(R, t))
  }

  lemma StampTwice(row: Row, c1: Course, c2: Course, today: Date)
    ensures Stamp(Stamp(row, c1, today), c2, today) == Stamp(row, c2, today)
  {
    assert row.enrollments[today := c1.enrollments][today := c2.enrollments]
        == row.enrollments[today := c2.enrollments];
    assert row.completed[today := c1.completed][today := c2.completed]
        == row.completed[today := c2.completed];
  }

  lemma StampSeeded(first: Course, last: Course, c: Course, today: Date)
    ensures Stamp(Seeded(first, last, today), c, today) == Seeded(first, c, today)
  {
    assert map[today := last.enrollments][today := c.enrollments] == map[today := c.enrollments];
    assert map[today := last.completed][today := c.completed] == map[today := c.completed];
  }

  lemma MergedTitles(T: seq<Row>, B: seq<Course>, today: Date, R: seq<Row>)
    requires MergedFrom(T, B, today, R)
    ensures forall i :: 0 <= i < |T| ==> R[i].title == T[i].title
  {
    forall i | 0 <= i < |T| ensures R[i].title == T[i].title {
      assert R[i] == Revised(T, B, today, i);
    }
  }

  /** Merging a known title into a merged table: one row that was in `T`. */
  lemma KnownRevisesRow(T: seq<Row>, B: seq<Course>, c: Course, today: Date, R: seq<Row>, i: int)
    requires MergedFrom(T, B, today, R)
    requires HasTitle(R, c.title)
    requires 0 <= i < |T|
    ensures |MergeCourse(R, c, today)| == |R|
    ensures MergeCourse(R, c, today)[i] == Revised(T, B + [c], today, i)
  {
    var k := FirstIndex(R, c.title).value;
    var R2 := MergeCourse(R, c, today);
    assert R2 == R[k := Stamp(R[k], c, today)];
    MergedTitles(T, B, today, R);
    LastOfSnoc(B, c, T[i].title);
    if i == k {
      assert IsFirst(T, k);
      if R[k] != T[k] {
        StampTwice(T[k], LastOf(B, T[k].title).value, c, today);
      }
    } else if T[i].title == c.title {
      assert T[k].title == c.title;
      assert !IsFirst(T, i);
    }
  }

  /** Merging a known title into a merged table: the rows that were in `T`. */
  lemma KnownRevisesPrefix(T: seq<Row>, B: seq<Course>, c: Course, today: Date, R: seq<Row>)
    requires MergedFrom(T, B, today, R)
    requires HasTitle(R, c.title)
    ensures |MergeCourse(R, c, today)| == |R|
    ensures forall i :: 0 <= i < |T| ==> MergeCourse(R, c, today)[i] == Revised(T, B + [c], today, i)
  {
    forall i | 0 <= i < |T| ensures MergeCourse(R, c, today)[i] == Revised(T, B + [c], today, i) {
      KnownRevisesRow(T, B, c, today, R, i);
    }
  }

  /** Merging a known title into a merged table: the rows appended after `T`. */
  lemma KnownKeepsAppended(T: seq<Row>, B: seq<Course>, c: Course, today: Date, R: seq<Row>)
    requires MergedFrom(T, B, today, R)
    requires HasTitle(R, c.title)
    ensures |MergeCourse(R, c, today)| == |R|
    ensures forall i :: |T| <= i < |R| ==>
              IsFirst(MergeCourse(R, c, today), i) && AppendedRow(T, B + [c], today, MergeCourse(R, c, today)[i])
  {
    var B2 := B + [c];
    var k := FirstIndex(R, c.title).value;
    var R2 := MergeCourse(R, c, today);
    assert R2 == R[k := Stamp(R[k], c, today)];
    MergedTitles(T, B, today, R);
    forall t ensures LastOf(B2, t) == if c.title == t then Some(c) else LastOf(B, t) {
      LastOfSnoc(B, c, t);
    }
    forall t ensures FirstOf(B2, t) ==
      if FirstOf(B, t).Some? then FirstOf(B, t) else if c.title == t then Some(c) else None
    {
      FirstOfSnoc(B, c, t);
    }
    forall i | |T| <= i < |R2| ensures IsFirst(R2, i) && AppendedRow(T, B2, today, R2[i]) {
      assert IsFirst(R, i) && AppendedRow(T, B, today, R[i]);
      if i == k {
        StampSeeded(FirstOf(B, c.title).value, LastOf(B, c.title).value, c, today);
      } else {
        assert R[i].title != c.title;
      }
    }
  }

  lemma MergedShapeKnown(T: seq<Row>, B: seq<Course>, c: Course, today: Date, R: seq<Row>)
    requires MergedFrom(T, B, today, R)
    requires HasTitle(R, c.title)
    ensures MergedFrom(T, B + [c], today, MergeCourse(R, c, today))
  {
    var B2 := B + [c];
    var k := FirstIndex(R, c.title).value;
    var R2 := MergeCourse(R, c, today);
    assert R2 == R[k := Stamp(R[k], c, today)];
    KnownRevisesPrefix(T, B, c, today, R);
    KnownKeepsAppended(T, B, c, today, R);
    forall t ensures LastOf(B2, t) == if c.title == t then Some(c) else LastOf(B, t) {
      LastOfSnoc(B, c, t);
    }
    forall t | LastOf(B2, t).Some? ensures HasTitle(R2, t) {
      if t == c.title {
        assert R2[k].title == t;
      } else {
        var j :| 0 <= j < |R| && R[j].title == t;
        assert R2[j].title == t;
      }
    }
  }

  lemma MergedShapeNew(T: seq<Row>, B: seq<Course>, c: Course, today: Date, R: seq<Row>)
    requires MergedFrom(T, B, today, R)
    requires !HasTitle(R, c.title)
    ensures MergedFrom(T, B + [c], today, MergeCourse(R, c, today))
  {
    var B2 := B + [c];
    var R2 := MergeCourse(R, c, today);
    assert R2 == R + [NewRow(c, today)];
    MergedTitles(T, B, today, R);
    assert LastOf(B, c.title).None?;
    assert FirstOf(B, c.title).None?;
    forall t ensures LastOf(B2, t) == if c.title == t then Some(c) else LastOf(B, t) {
      LastOfSnoc(B, c, t);
    }
    forall t ensures FirstOf(B2, t) ==
      if FirstOf(B, t).Some? then FirstOf(B, t) else if c.title == t then Some(c) else None
    {
      FirstOfSnoc(B, c, t);
    }
    assert !HasTitle(T, c.title) by {
      forall j | 0 <= j < |T| ensures T[j].title != c.title {
        assert R[j].title == T[j].title;
      }
    }
    forall i | 0 <= i < |T| ensures R2[i] == Revised(T, B2, today, i) {
      assert R[i].title == T[i].title;
    }
    forall i | |T| <= i < |R2| ensures IsFirst(R2, i) && AppendedRow(T, B2, today, R2[i]) {
      if i < |R| {
        assert IsFirst(R, i) && AppendedRow(T, B, today, R[i]);
        assert R[i].title != c.title;
      }
    }
    forall t | LastOf(B2, t).Some? ensures HasTitle(R2, t) {
      if t == c.title {
        assert R2[|R|].title == t;
      } else {
        var j :| 0 <= j < |R| && R[j].title == t;
        assert R2[j].title == t;
      }
    }
  }

  /** Every merge result has the shape MergedFrom describes. */
  lemma {:induction false} MergeAllShape(T: seq<Row>, B: seq<Course>, today: Date)
    ensures MergedFrom(T, B, today, MergeAll(T, B, today))
    decreases |B|
  {
    if B == [] {
      forall i | 0 <= i < |T| ensures T[i] == Revised(T, B, today, i) {}
    } else {
      var init := B[..|B| - 1];
      var c := B[|B| - 1];
      assert B == init + [c];
      MergeAllShape(T, init, today);
      var R := MergeAll(T, init, today);
      if HasTitle(R, c.title) {
        MergedShapeKnown(T, init, c, today, R);
      } else {
        MergedShapeNew(T, init, c, today, R);
      }
    }
  }

  lemma AppendedTitleIsNew(T: seq<Row>, B: seq<Course>, today: Date, R: seq<Row>, i: nat)
    requires MergedFrom(T, B, today, R) && |T| <= i < |R|
    ensures !HasTitle(T, R[i].title) && LastOf(B, R[i].title).Some?
  {
    assert AppendedRow(T, B, today, R[i]);
  }

  /** Merging a batch again into its own result changes nothing. */
  lemma MergedTwice(T: seq<Row>, B: seq<Course>, today: Date, R: seq<Row>, R2: seq<Row>)
    requires MergedFrom(T, B, today, R)
    requires MergedFrom(R, B, today, R2)
    ensures R2 == R
  {
    if |R2| > |R| {
      AppendedTitleIsNew(R, B, today, R2, |R|);
      assert false;
    }
    MergedTitles(T, B, today, R);
    forall i | 0 <= i < |R| ensures R2[i] == R[i] {
      assert R2[i] == Revised(R, B, today, i);
      var last := LastOf(B, R[i].title);
      if IsFirst(R, i) && last.Some? {
        if i < |T| {
          assert IsFirst(T, i);
          assert R[i] == Stamp(T[i], last.value, today);
          StampTwice(T[i], last.value, last.value, today);
        } else {
          assert AppendedRow(T, B, today, R[i]);
          StampSeeded(FirstOf(B, R[i].title).value, last.value, last.value, today);
        }
      }
    }
  }

  // ---------------------------------------------------------------------
  // Properties of the whole merge

  /** The first call (made before scraping, with no courses) is a no-op. */
  lemma MergeEmptyBatch(rows: seq<Row>, today: Date)
    ensures MergeAll(rows, [], today) == rows
  {
  }

  /** Merging the same batch twice on the same date is merging it once. */
  lemma MergeIdempotent(T: seq<Row>, B: seq<Course>, today: Date)
    ensures MergeAll(MergeAll(T, B, today), B, today) == MergeAll(T, B, today)
  {
    var R := MergeAll(T, B, today);
    MergeAllShape(T, B, today);
    MergeAllShape(R, B, today);
    MergedTwice(T, B, today, R, MergeAll(R, B, today));
  }

  /** Rows are never removed; existing rows keep their descriptive fields and
      every history entry except today's. */
  lemma MergeKeepsHistory(T: seq<Row>, B: seq<Course>, today: Date)
    ensures var R := MergeAll(T, B, today);
      forall i :: 0 <= i < |T| ==>
        && SameDescription(R[i], T[i])
        && R[i].enrollments.Keys <= T[i].enrollments.Keys + {today}
        && R[i].completed.Keys <= T[i].completed.Keys + {today}
        && (forall e :: e in T[i].enrollments && e != today ==>
              e in R[i].enrollments && R[i].enrollments[e] == T[i].enrollments[e])
        && (forall e :: e in T[i].completed && e != today ==>
              e in R[i].completed && R[i].completed[e] == T[i].completed[e])
  {
    var R := MergeAll(T, B, today);
    MergeAllShape(T, B, today);
    forall i | 0 <= i < |T| ensures SameDescription(R[i], T[i]) {
      assert R[i] == Revised(T, B, today, i);
    }
  }

  /** A batch of known titles leaves the row count unchanged. */
  lemma MergeKnownBatchKeepsCount(T: seq<Row>, B: seq<Course>, today: Date)
    requires forall k :: 0 <= k < |B| ==> HasTitle(T, B[k].title)
    ensures |MergeAll(T, B, today)| == |T|
  {
    var R := MergeAll(T, B, today);
    MergeAllShape(T, B, today);
    if |R| > |T| {
      AppendedTitleIsNew(T, B, today, R, |T|);
      assert false;
    }
  }

  /** For a title already in the table, the first row with it receives the
      counters of the title's last occurrence in the batch, under today's key. */
  lemma MergeKnownTitleLastWins(T: seq<Row>, B: seq<Course>, today: Date, i: nat, k: nat)
    requires i < |T| && k < |B| && B[k].title == T[i].title
    requires forall j :: 0 <= j < i ==> T[j].title != T[i].title
    requires forall j :: k < j < |B| ==> B[j].title != B[k].title
    ensures var R := MergeAll(T, B, today);
      && SameDescription(R[i], T[i])
      && SetsKey(T[i].enrollments, R[i].enrollments, today, B[k].enrollments)
      && SetsKey(T[i].completed, R[i].completed, today, B[k].completed)
  {
    MergeAllShape(T, B, today);
    LastOfIsLast(B, k);
    assert MergeAll(T, B, today)[i] == Revised(T, B, today, i);
  }

  /** Row `i`, at or after `from`, is the only row titled `first.title`; it
      has the descriptive fields of `first` and today's counters of `last`. */
  ghost predicate SoleRowSeeded(R: seq<Row>, from: nat, i: int, first: Course, last: Course, today: Date)
  {
    && from <= i < |R|
    && R[i].title == first.title
    && (forall j :: 0 <= j < |R| && R[j].title == first.title ==> j == i)
    && R[i].kind == first.kind
    && R[i].creationDate == first.creationDate
    && R[i].daysSinceCreation == first.daysSinceCreation
    && R[i].trainingMaterials == first.trainingMaterials
    && R[i].enrollments == map[today := last.enrollments]
    && R[i].completed == map[today := last.completed]
  }

  /** A new title repeated within one batch yields a single row: descriptive
      fields from its first occurrence, today's counters from its last. */
  lemma MergeRepeatedNewTitle(T: seq<Row>, B: seq<Course>, today: Date, f: nat, k: nat)
    requires f <= k < |B| && B[f].title == B[k].title
    requires forall j :: 0 <= j < |T| ==> T[j].title != B[k].title
    requires forall j :: 0 <= j < f ==> B[j].title != B[f].title
    requires forall j :: k < j < |B| ==> B[j].title != B[k].title
    ensures exists i :: SoleRowSeeded(MergeAll(T, B, today), |T|, i, B[f], B[k], today)
  {
    var R := MergeAll(T, B, today);
    var t := B[k].title;
    MergeAllShape(T, B, today);
    MergedTitles(T, B, today, R);
    LastOfIsLast(B, k);
    FirstOfIsFirst(B, f);
    assert HasTitle(R, t);
    var i :| 0 <= i < |R| && R[i].title == t;
    assert i >= |T|;
    forall j | 0 <= j < |R| && R[j].title == t ensures j == i {
    }
    assert AppendedRow(T, B, today, R[i]);
    assert R[i] == Seeded(B[f], B[k], today);
    assert SoleRowSeeded(R, |T|, i, B[f], B[k], today);
  }
}
