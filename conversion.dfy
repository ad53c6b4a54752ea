/**
 * Conversion of the scraped injury table into PlayerStatus records
 * (df_to_player_statuses in app/tools.py).
 *
 * A table is its set of column names plus its rows in order. A row maps column
 * names to cells; `None` is a pandas NA, and a column missing from a row's map
 * reads as NA too, as `row.get` does.
 */
module Conversion {
  import opened Wrappers
  import opened State

  const NameColumn := "NAME"
  const StatusColumn := "STATUS"
  const CommentColumn := "COMMENT"
  const ReturnDateColumn := "EST. RETURN DATE"

  type Row = map<string, Option<string>>

  datatype Table = Table(columns: set<string>, rows: seq<Row>)

  /** The exceptions the record layer raises. */
  datatype Error =
    | NoTablesFound                       // the injuries page held no table
    | MissingRequiredColumns              // NAME or STATUS is not a column
    | InvalidRecord(cause: ValidationError)

  predicate HasRequiredColumns(columns: set<string>) {
    NameColumn in columns && StatusColumn in columns
  }

  /** `row.get(column)`: the cell, or NA when the row has no such key. */
  function Cell(row: Row, column: string): Option<string> {
    if column in row then row[column] else None
  }

  /** An optional column is read only when the table has it; otherwise it is NA. */
  function OptionalCell(columns: set<string>, row: Row, column: string): (v: Option<string>)
    ensures v.Some? <==> column in columns && Cell(row, column).Some?
    ensures v.Some? ==> v == Cell(row, column)
  {
    if column in columns then Cell(row, column) else None
  }

  /** A row is kept only when both its name and its status are present. */
  predicate IsComplete(row: Row) {
    Cell(row, NameColumn).Some? && Cell(row, StatusColumn).Some?
  }

  /** The record a complete row becomes. */
  function RecordOf(columns: set<string>, row: Row): (p: PlayerStatus)
    requires IsComplete(row)
    ensures p.team.None?
    ensures Cell(row, NameColumn) == Some(p.playerName)
    ensures Cell(row, StatusColumn) == Some(p.status)
    ensures p.reason.None? <==> CommentColumn !in columns || Cell(row, CommentColumn).None?
    ensures p.reason.Some? ==> p.reason == Cell(row, CommentColumn)
    ensures p.expectedReturn.None? <==> ReturnDateColumn !in columns || Cell(row, ReturnDateColumn).None?
    ensures p.expectedReturn.Some? ==> p.expectedReturn == Cell(row, ReturnDateColumn)
  {
    PlayerStatus(
      None,
      Cell(row, NameColumn).value,
      Cell(row, StatusColumn).value,
      OptionalCell(columns, row, CommentColumn),
      OptionalCell(columns, row, ReturnDateColumn))
  }

  /** The records converted from `rows`, built as the loop builds them: one row at a time, appending. */
  function Converted(columns: set<string>, rows: seq<Row>): (ps: seq<PlayerStatus>)
    ensures |ps| <= |rows|
    ensures forall k :: 0 <= k < |ps| ==> ps[k].team.None?
  {
    if rows == [] then []
    else
      var last := rows[|rows| - 1];
      Converted(columns, rows[..|rows| - 1]) + (if IsComplete(last) then [RecordOf(columns, last)] else [])
  }

  /** Reference definition: the positions of the complete rows, in increasing order. */
  function CompleteIndices(rows: seq<Row>): (ix: seq<nat>)
    ensures forall k :: 0 <= k < |ix| ==> ix[k] < |rows|
  {
    if rows == [] then []
    else CompleteIndices(rows[..|rows| - 1]) + (if IsComplete(rows[|rows| - 1]) then [|rows| - 1] else [])
  }

  /** The records are exactly the complete rows, one each, taken in increasing position. */
  lemma {:induction false} ConvertedSelectsCompleteRows(columns: set<string>, rows: seq<Row>)
    ensures |Converted(columns, rows)| == |CompleteIndices(rows)|
    ensures forall k :: 0 <= k < |CompleteIndices(rows)| ==>
              IsComplete(rows[CompleteIndices(rows)[k]]) &&
              Converted(columns, rows)[k] == RecordOf(columns, rows[CompleteIndices(rows)[k]])
  {
    if rows != [] {
      var init := rows[..|rows| - 1];
      ConvertedSelectsCompleteRows(columns, init);
      var ix := CompleteIndices(rows);
      forall k | 0 <= k < |CompleteIndices(init)|
        ensures rows[ix[k]] == init[CompleteIndices(init)[k]]
      {
      }
    }
  }

  /** Every complete row, and no other row, has its position listed, and the positions ascend. */
  lemma {:induction false} CompleteIndicesExact(rows: seq<Row>)
    ensures forall k, l :: 0 <= k < l < |CompleteIndices(rows)| ==> CompleteIndices(rows)[k] < CompleteIndices(rows)[l]
    ensures forall i :: 0 <= i < |rows| ==> (IsComplete(rows[i]) <==> i in CompleteIndices(rows))
  {
    if rows != [] {
      var init := rows[..|rows| - 1];
      CompleteIndicesExact(init);
      forall i | 0 <= i < |init| ensures rows[i] == init[i] { }
    }
  }

  /** Converting a concatenation of row blocks converts each block on its own. */
  lemma {:induction false} ConvertedAppend(columns: set<string>, a: seq<Row>, b: seq<Row>)
    ensures Converted(columns, a + b) == Converted(columns, a) + Converted(columns, b)
  {
    if b == [] {
      assert a + b == a;
    } else {
      var b' := b[..|b| - 1];
      assert (a + b)[..|a + b| - 1] == a + b';
      ConvertedAppend(columns, a, b');
    }
  }

  /**
   * df_to_player_statuses: fails unless NAME and STATUS are both columns;
   * otherwise drops incomplete rows and converts the rest, in order.
   */
  method DfToPlayerStatuses(table: Table) returns (r: Result<seq<PlayerStatus>, Error>)
    ensures r.Err? <==> !HasRequiredColumns(table.columns)
    ensures r.Err? ==> r.error == MissingRequiredColumns
    ensures r.Ok? ==> r.value == Converted(table.columns, table.rows)
  {
    if !HasRequiredColumns(table.columns) {
      return Err(MissingRequiredColumns);
    }
    var players: seq<PlayerStatus> := [];
    var i := 0;
    while i < |table.rows|
      invariant 0 <= i <= |table.rows|
      invariant players == Converted(table.columns, table.rows[..i])
    {
      var row := table.rows[i];
      assert table.rows[..i + 1][..i] == table.rows[..i];
      var name := Cell(row, NameColumn);
      var status := Cell(row, StatusColumn);
      if name.Some? && status.Some? {
        var expectedReturn := OptionalCell(table.columns, row, ReturnDateColumn);
        var comment := OptionalCell(table.columns, row, CommentColumn);
        players := players + [PlayerStatus(None, name.value, status.value, comment, expectedReturn)];
      }
      i := i + 1;
    }
    assert table.rows[..i] == table.rows;
    return Ok(players);
  }

  /**
   * The conversion as declared (see Finding in the README): every kept row is
   * validated against app/state.py, whose `team: str` rejects the missing team,
   * so the first complete row raises.
   */
  function ConvertedAsDeclared(columns: set<string>, rows: seq<Row>): (r: Result<seq<PlayerStatus>, Error>)
    ensures r.Ok? ==> r.value == []
    ensures r.Err? ==> r.error == InvalidRecord(TeamNotAString)
  {
    if rows == [] then Ok([])
    else if !IsComplete(rows[0]) then ConvertedAsDeclared(columns, rows[1..])
    else
      var row := rows[0];
      var rest := ConvertedAsDeclared(columns, rows[1..]);
      match NewPlayerStatus(None, Cell(row, NameColumn).value, Cell(row, StatusColumn).value,
                            OptionalCell(columns, row, CommentColumn),
                            OptionalCell(columns, row, ReturnDateColumn))
      case Err(e) => Err(InvalidRecord(e))
      case Ok(p) =>
        match rest
        case Err(e) => Err(e)
        case Ok(ps) => Ok([p] + ps)
  }

  /** df_to_player_statuses as declared: the column check first, then the validating loop. */
  function DfToPlayerStatusesAsDeclared(table: Table): (r: Result<seq<PlayerStatus>, Error>)
    ensures !HasRequiredColumns(table.columns) ==> r == Err(MissingRequiredColumns)
    ensures r.Ok? ==> r.value == []
    ensures HasRequiredColumns(table.columns) && r.Err? ==> r.error == InvalidRecord(TeamNotAString)
  {
    if !HasRequiredColumns(table.columns) then Err(MissingRequiredColumns)
    else ConvertedAsDeclared(table.columns, table.rows)
  }

  /** As declared, the conversion succeeds only on tables with no complete row, and then yields nothing. */
  lemma {:induction false} AsDeclaredRejectsEveryCompleteRow(columns: set<string>, rows: seq<Row>)
    ensures (exists i :: 0 <= i < |rows| && IsComplete(rows[i])) ==>
              ConvertedAsDeclared(columns, rows) == Err(InvalidRecord(TeamNotAString))
    ensures (forall i :: 0 <= i < |rows| ==> !IsComplete(rows[i])) ==>
              ConvertedAsDeclared(columns, rows) == Ok([])
  {
    if rows != [] {
      AsDeclaredRejectsEveryCompleteRow(columns, rows[1..]);
      if !IsComplete(rows[0]) {
        if exists i :: 0 <= i < |rows| && IsComplete(rows[i]) {
          var i :| 0 <= i < |rows| && IsComplete(rows[i]);
          assert rows[1..][i - 1] == rows[i];
        }
        if forall i :: 0 <= i < |rows| ==> !IsComplete(rows[i]) {
          forall j | 0 <= j < |rows[1..]| ensures !IsComplete(rows[1..][j]) {
            assert rows[1..][j] == rows[j + 1];
          }
        }
      }
    }
  }

  /** The row of the LeBron James scenario, with a comment naming his team. */
  function LeBronTable(): Table {
    Table({NameColumn, StatusColumn, CommentColumn},
          [map[NameColumn := Some("LeBron James"), StatusColumn := Some("OUT"),
               CommentColumn := Some("the Lakers announced LeBron James is out")]])
  }

  /** As declared, the one-row LeBron James table raises a validation error. */
  lemma LeBronRejectedAsDeclared()
    ensures DfToPlayerStatusesAsDeclared(LeBronTable()) == Err(InvalidRecord(TeamNotAString))
  {
    var t := LeBronTable();
    assert IsComplete(t.rows[0]);
    AsDeclaredRejectsEveryCompleteRow(t.columns, t.rows);
  }

  /** With an optional team, the same table converts to the intended single record. */
  lemma LeBronConverted()
    ensures Converted(LeBronTable().columns, LeBronTable().rows) ==
              [PlayerStatus(None, "LeBron James", "OUT", Some("the Lakers announced LeBron James is out"), None)]
  {
    var t := LeBronTable();
    assert t.rows[..0] == [];
    assert ReturnDateColumn !in t.columns;
  }
}
