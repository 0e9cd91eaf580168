/**
 * Loading the persisted table (load_existing_data): each counter cell is
 * either a legacy number, migrated to a one-entry history keyed by the load
 * date, or an already-serialised history, kept as it is.
 */
module Migration {
  import opened History

  /** A counter cell as read from the file: a number (legacy single-day
      format) or a history that has already been parsed. */
  datatype Cell = Num(n: int) | Hist(h: map<Date, Value>)

  /** A row as read from the file, before its counter cells are migrated. */
  datatype StoredRow = StoredRow(
    title: string,
    kind: string,
    creationDate: string,
    daysSinceCreation: string,
    trainingMaterials: string,
    enrollments: Cell,
    completed: Cell)

  /** The migration applied to one counter cell on date `today`. */
  function Migrate(cell: Cell, today: Date): (h: map<Date, Value>)
    ensures cell.Num? ==> h.Keys == {today} && h[today] == IntVal(cell.n)
    ensures cell.Hist? ==> h == cell.h
  {
    match cell
    case Num(n) => map[today := IntVal(n)]
    case Hist(h) => h
  }

  function LoadRow(s: StoredRow, today: Date): Row
  {
    Row(s.title, s.kind, s.creationDate, s.daysSinceCreation, s.trainingMaterials,
        Migrate(s.enrollments, today), Migrate(s.completed, today))
  }

  /** Both counter columns migrated, row by row; nothing else changes. */
  function Load(stored: seq<StoredRow>, today: Date): (rows: seq<Row>)
    ensures |rows| == |stored|
    ensures forall i :: 0 <= i < |stored| ==>
      && rows[i].title == stored[i].title
      && rows[i].kind == stored[i].kind
      && rows[i].creationDate == stored[i].creationDate
      && rows[i].daysSinceCreation == stored[i].daysSinceCreation
      && rows[i].trainingMaterials == stored[i].trainingMaterials
      && rows[i].enrollments == Migrate(stored[i].enrollments, today)
      && rows[i].completed == Migrate(stored[i].completed, today)
  {
    if stored == [] then [] else [LoadRow(stored[0], today)] + Load(stored[1..], today)
  }

  /** The table as written back: every counter column holds a serialised history. */
  function Persist(rows: seq<Row>): (stored: seq<StoredRow>)
    ensures |stored| == |rows|
  {
    if rows == [] then []
    else
      var r := rows[0];
      [StoredRow(r.title, r.kind, r.creationDate, r.daysSinceCreation, r.trainingMaterials,
                 Hist(r.enrollments), Hist(r.completed))] + Persist(rows[1..])
  }

  /** A table written by the program and read back on any later date is
      unchanged: only legacy cells are keyed by the load date. */
  lemma {:induction false} ReloadIsIdentity(rows: seq<Row>, today: Date)
    ensures Load(Persist(rows), today) == rows
  {
    if rows != [] {
      ReloadIsIdentity(rows[1..], today);
      assert Persist(rows)[1..] == Persist(rows[1..]);
    }
  }

  /** Loading is stable across runs: a table loaded on `first`, written
      back and loaded again on `second` is the table loaded on `first`. */
  lemma LoadIsStable(stored: seq<StoredRow>, first: Date, second: Date)
    ensures Load(Persist(Load(stored, first)), second) == Load(stored, first)
  {
    ReloadIsIdentity(Load(stored, first), second);
  }

  /** A legacy table migrates to one-entry histories keyed by the load date. */
  lemma LegacyCellsKeyedByLoadDate(stored: seq<StoredRow>, today: Date, i: nat)
    requires i < |stored| && stored[i].enrollments.Num? && stored[i].completed.Num?
    ensures Load(stored, today)[i].enrollments == map[today := IntVal(stored[i].enrollments.n)]
    ensures Load(stored, today)[i].completed == map[today := IntVal(stored[i].completed.n)]
  {
  }
}
