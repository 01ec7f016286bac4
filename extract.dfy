/**
 * The by-inning split table: its rows, the projection of a row's data cells
 * to a statistics record, and the first-match scan for the "1st inning" row.
 */
module Extract {
  import opened Wrappers

  /** A `td` element: its optional `data-stat` attribute and its text. */
  datatype Cell = Cell(dataStat: Option<string>, text: string)

  /** A `tr` element: the text of its first `th`, if it has one, and its `td` cells in order. */
  datatype Row = Row(header: Option<string>, cells: seq<Cell>)

  /** The dict built from a row; a cell without `data-stat` is keyed by `None`. */
  type StatRecord = map<Option<string>, string>

  const FIRST_INNING := "1st inning"

  /** The row has a header whose text is exactly "1st inning". */
  predicate IsFirstInningRow(row: Row) {
    row.header == Some(FIRST_INNING)
  }

  /** The `data-stat` values carried by `cells`, a missing one counted as `None`. */
  function StatKeys(cells: seq<Cell>): set<Option<string>> {
    set i | 0 <= i < |cells| :: cells[i].dataStat
  }

  /**
   * `{td.get("data-stat"): td.get_text() for td in cells}`: cells are taken in
   * order, so a later cell overwrites an earlier one with the same key.
   */
  function Project(cells: seq<Cell>): (record: StatRecord)
    ensures record.Keys == StatKeys(cells)
  {
    if cells == [] then map[]
    else
      var last := cells[|cells| - 1];
      var init := cells[..|cells| - 1];
      assert StatKeys(cells) == StatKeys(init) + {last.dataStat} by {
        forall k | k in StatKeys(cells) ensures k in StatKeys(init) + {last.dataStat} {
          var i :| 0 <= i < |cells| && cells[i].dataStat == k;
          if i < |cells| - 1 { assert init[i] == cells[i]; }
        }
        forall k | k in StatKeys(init) ensures k in StatKeys(cells) {
          var i :| 0 <= i < |init| && init[i].dataStat == k;
          assert cells[i] == init[i];
        }
      }
      Project(init)[last.dataStat := last.text]
  }

  /** Each key maps to the unmodified text of the last cell that carries it. */
  lemma {:induction false} ProjectLastWins(cells: seq<Cell>, j: nat)
    requires j < |cells|
    requires forall k :: j < k < |cells| ==> cells[k].dataStat != cells[j].dataStat
    ensures cells[j].dataStat in Project(cells)
    ensures Project(cells)[cells[j].dataStat] == cells[j].text
  {
    if j < |cells| - 1 {
      var init := cells[..|cells| - 1];
      ProjectLastWins(init, j);
    }
  }

  /** Cell `i` is the first cell carrying its `data-stat` value. */
  predicate FirstOccurrence(cells: seq<Cell>, i: nat)
    requires i < |cells|
  {
    forall k :: 0 <= k < i ==> cells[k].dataStat != cells[i].dataStat
  }

  /**
   * The record's key order: a dict keeps each key where it was first inserted,
   * and an overwrite does not move it. Each key appears once, and the keys are
   * exactly those of `Project(cells)`.
   */
  function KeyOrder(cells: seq<Cell>): (keys: seq<Option<string>>)
    ensures forall k :: k in keys <==> k in StatKeys(cells)
    ensures forall a, b :: 0 <= a < b < |keys| ==> keys[a] != keys[b]
  {
    if cells == [] then []
    else
      var last := cells[|cells| - 1];
      var init := cells[..|cells| - 1];
      var keys := KeyOrder(init);
      assert forall i :: 0 <= i < |init| ==> init[i] == cells[i];
      assert last.dataStat in StatKeys(cells);
      if last.dataStat in keys then keys else keys + [last.dataStat]
  }

  /** Keys follow the order in which their first cells appear in the row. */
  lemma {:induction false} KeyOrderFollowsCells(cells: seq<Cell>, i: nat, j: nat)
    requires i < j < |cells|
    requires FirstOccurrence(cells, i) && FirstOccurrence(cells, j)
    ensures exists a, b :: 0 <= a < b < |KeyOrder(cells)|
              && KeyOrder(cells)[a] == cells[i].dataStat && KeyOrder(cells)[b] == cells[j].dataStat
  {
    var init := cells[..|cells| - 1];
    var keys := KeyOrder(init);
    assert forall k :: 0 <= k < |init| ==> init[k] == cells[k];
    if j < |cells| - 1 {
      KeyOrderFollowsCells(init, i, j);
      var a, b :| 0 <= a < b < |keys| && keys[a] == cells[i].dataStat && keys[b] == cells[j].dataStat;
      assert KeyOrder(cells)[..|keys|] == keys;
      assert KeyOrder(cells)[a] == keys[a] && KeyOrder(cells)[b] == keys[b];
    } else {
      assert cells[i].dataStat in StatKeys(init);
      assert cells[j].dataStat !in StatKeys(init);
      var a :| 0 <= a < |keys| && keys[a] == cells[i].dataStat;
      assert KeyOrder(cells) == keys + [cells[j].dataStat];
      assert KeyOrder(cells)[a] == cells[i].dataStat && KeyOrder(cells)[|keys|] == cells[j].dataStat;
    }
  }

  /** The scan's specification: the record of the first "1st inning" row, if any. */
  function FirstInningStats(rows: seq<Row>): (stats: Option<StatRecord>)
    ensures stats.Some? ==>
              exists i :: 0 <= i < |rows| && IsFirstInningRow(rows[i]) && stats.value == Project(rows[i].cells)
  {
    if rows == [] then None
    else if IsFirstInningRow(rows[0]) then Some(Project(rows[0].cells))
    else
      var rest := FirstInningStats(rows[1..]);
      assert forall i :: 0 <= i < |rows| - 1 ==> rows[1..][i] == rows[i + 1];
      rest
  }

  /**
   * When row `i` is the first "1st inning" row, the result is its record,
   * whatever rows follow it: later rows are never inspected.
   */
  lemma {:induction false} FirstInningStatsFirstMatch(rows: seq<Row>, i: nat, later: seq<Row>)
    requires i < |rows| && IsFirstInningRow(rows[i])
    requires forall j :: 0 <= j < i ==> !IsFirstInningRow(rows[j])
    ensures FirstInningStats(rows) == Some(Project(rows[i].cells))
    ensures FirstInningStats(rows[..i + 1] + later) == Some(Project(rows[i].cells))
  {
    if i > 0 {
      FirstInningStatsFirstMatch(rows[1..], i - 1, later);
      assert (rows[..i + 1] + later)[1..] == rows[1..][..i] + later;
    }
  }

  /** There is no result exactly when no row is a "1st inning" row. */
  lemma {:induction false} FirstInningStatsNone(rows: seq<Row>)
    ensures FirstInningStats(rows) == None <==> forall j :: 0 <= j < |rows| ==> !IsFirstInningRow(rows[j])
  {
    if rows != [] {
      FirstInningStatsNone(rows[1..]);
      assert forall j :: 1 <= j < |rows| ==> rows[j] == rows[1..][j - 1];
    }
  }

  /**
   * The loop over the table's rows: returns the record of the first row whose
   * header is "1st inning", or falls through to `None`.
   */
  method FindFirstInningStats(rows: seq<Row>) returns (stats: Option<StatRecord>)
    ensures stats == FirstInningStats(rows)
    ensures stats.None? <==> forall j :: 0 <= j < |rows| ==> !IsFirstInningRow(rows[j])
    ensures stats.Some? ==>
              exists i :: 0 <= i < |rows| && IsFirstInningRow(rows[i])
                          && (forall j :: 0 <= j < i ==> !IsFirstInningRow(rows[j]))
                          && stats.value == Project(rows[i].cells)
  {
    for i := 0 to |rows|
      invariant forall j :: 0 <= j < i ==> !IsFirstInningRow(rows[j])
      invariant FirstInningStats(rows) == FirstInningStats(rows[i..])
    {
      if IsFirstInningRow(rows[i]) {
        return Some(Project(rows[i].cells));
      }
      assert rows[i..][1..] == rows[i + 1..];
    }
    return None;
  }
}
