/** The tables the Python copies read and write: a header of column names
    and rows of cells, as `pd.read_csv` produces them. The scorer reads the
    criteria columns (all but the first) through numeric coercion, and the
    result is a copy of the input with "Topsis Score" and "Rank" assigned. */
module Frames {
  import opened Common
  import Scorer

  /** A cell: text as read, a number, an integer, or a missing value (NaN). */
  datatype Cell = Text(s: string) | Number(r: real) | Whole(n: int) | Missing

  datatype Table = Table(header: seq<string>, rows: seq<seq<Cell>>)

  /** No column name appears twice. */
  predicate DistinctNames(header: seq<string>)
  {
    forall a, b :: 0 <= a < b < |header| ==> header[a] != header[b]
  }

  /** Every row has one cell per column and the names are distinct. */
  predicate WellFormed(t: Table)
  {
    && DistinctNames(t.header)
    && forall i :: 0 <= i < |t.rows| ==> |t.rows[i]| == |t.header|
  }

  /** Position of a column name in the header. */
  function ColumnIndex(header: seq<string>, name: string): (c: Option<nat>)
    ensures c.Some? <==> name in header
    ensures c.Some? ==> c.value < |header| && header[c.value] == name
  {
    if header == [] then None
    else if header[0] == name then Some(0)
    else match ColumnIndex(header[1..], name)
      case None => None
      case Some(k) => Some(k + 1)
  }

  /** The cells of column `c`. */
  function ColumnAt(t: Table, c: nat): seq<Cell>
    requires WellFormed(t) && c < |t.header|
  {
    seq(|t.rows|, i requires 0 <= i < |t.rows| => t.rows[i][c])
  }

  /** `t[name]`: the cells of the column called `name`. */
  function Column(t: Table, name: string): seq<Cell>
    requires WellFormed(t) && name in t.header
  {
    ColumnAt(t, ColumnIndex(t.header, name).value)
  }

  /** `t[name] = values`: replaces the column of that name, or appends a new
      last column when there is none. */
  function AssignColumn(t: Table, name: string, values: seq<Cell>): (r: Table)
    requires WellFormed(t) && |values| == |t.rows|
    ensures WellFormed(r) && |r.rows| == |t.rows|
    ensures name in t.header ==> r.header == t.header
    ensures name !in t.header ==> r.header == t.header + [name]
  {
    match ColumnIndex(t.header, name)
    case Some(c) =>
      Table(t.header, seq(|t.rows|, i requires 0 <= i < |t.rows| => t.rows[i][c := values[i]]))
    case None =>
      var r := Table(t.header + [name], seq(|t.rows|, i requires 0 <= i < |t.rows| => t.rows[i] + [values[i]]));
      assert forall a :: 0 <= a < |t.header| ==> r.header[a] == t.header[a] != name;
      r
  }

  /** After the assignment the named column holds `values` and every other
      column of the input is unchanged. */
  lemma AssignColumnContents(t: Table, name: string, values: seq<Cell>)
    requires WellFormed(t) && |values| == |t.rows|
    ensures name in AssignColumn(t, name, values).header
    ensures Column(AssignColumn(t, name, values), name) == values
    ensures forall other :: other in t.header && other != name ==>
      other in AssignColumn(t, name, values).header
      && Column(AssignColumn(t, name, values), other) == Column(t, other)
  {
    var r := AssignColumn(t, name, values);
    var c := ColumnIndex(r.header, name).value;
    assert r.header[c] == name;
    if name !in t.header {
      assert r.header[|t.header|] == name;
      assert c == |t.header|;
    }
    forall other | other in t.header && other != name
      ensures other in r.header && Column(r, other) == Column(t, other)
    {
      var a := ColumnIndex(t.header, other).value;
      assert r.header[a] == other;
      assert ColumnIndex(r.header, other).value == a;
    }
  }

  // ---------------------------------------------------------------
  // Numeric coercion of the criteria columns
  // ---------------------------------------------------------------

  /** The number a cell holds, read with `parse` when it is text; `None`
      for a cell that is missing or does not read as a number. */
  function CellValue(c: Cell, parse: string -> Option<real>): Option<real>
  {
    match c
    case Text(s) => parse(s)
    case Number(r) => Some(r)
    case Whole(n) => Some(n as real)
    case Missing => None
  }

  /** `pd.to_numeric(cell, errors="coerce")`: the number, or NaN. */
  function Coerce(c: Cell, parse: string -> Option<real>): (r: Cell)
    ensures r.Number? || r.Missing?
    ensures CellValue(r, parse) == CellValue(c, parse)
  {
    match CellValue(c, parse)
    case Some(x) => Number(x)
    case None => Missing
  }

  /** `df.iloc[:, 1:]` with every column coerced to numbers. */
  function CoercedCriteria(t: Table, parse: string -> Option<real>): (data: seq<seq<Cell>>)
    requires WellFormed(t) && |t.header| >= 1
    ensures |data| == |t.rows|
    ensures forall i :: 0 <= i < |data| ==> |data[i]| == |t.header| - 1
    ensures forall i, j :: 0 <= i < |data| && 0 <= j < |t.header| - 1 ==> data[i][j] == Coerce(t.rows[i][j + 1], parse)
  {
    seq(|t.rows|, i requires 0 <= i < |t.rows| =>
      seq(|t.header| - 1, j requires 0 <= j < |t.header| - 1 => Coerce(t.rows[i][j + 1], parse)))
  }

  /** `data = df.iloc[:, 1:].copy()` followed by the loop that overwrites
      each column with its coerced values. */
  method CoerceCriteria(t: Table, parse: string -> Option<real>) returns (data: seq<seq<Cell>>)
    requires WellFormed(t) && |t.header| >= 1
    ensures data == CoercedCriteria(t, parse)
  {
    var n := |t.header| - 1;
    data := seq(|t.rows|, i requires 0 <= i < |t.rows| => t.rows[i][1..]);
    for j := 0 to n
      invariant |data| == |t.rows|
      invariant forall i :: 0 <= i < |data| ==> |data[i]| == n
      invariant forall i, k :: 0 <= i < |data| && 0 <= k < j ==> data[i][k] == Coerce(t.rows[i][k + 1], parse)
      invariant forall i, k :: 0 <= i < |data| && j <= k < n ==> data[i][k] == t.rows[i][k + 1]
    {
      data := seq(|data|, i requires 0 <= i < |data| => data[i][j := Coerce(data[i][j], parse)]);
    }
    var expected := CoercedCriteria(t, parse);
    forall i | 0 <= i < |data| ensures data[i] == expected[i] {
      assert forall k :: 0 <= k < n ==> expected[i][k] == Coerce(t.rows[i][k + 1], parse);
    }
  }

  /** `data.isnull().any().any()` is false: every criteria cell is a number. */
  predicate AllNumeric(t: Table, parse: string -> Option<real>)
    requires WellFormed(t) && |t.header| >= 1
  {
    forall i, j :: 0 <= i < |t.rows| && 1 <= j < |t.header| ==> CellValue(t.rows[i][j], parse).Some?
  }

  /** The criteria matrix, or `None` when a criteria cell is not a number. */
  function Criteria(t: Table, parse: string -> Option<real>): (x: Option<Scorer.Matrix>)
    requires WellFormed(t) && |t.header| >= 1
    ensures x.Some? <==> AllNumeric(t, parse)
    ensures x.Some? ==> |x.value| == |t.rows| && Scorer.IsMatrix(x.value, |t.header| - 1)
    ensures x.Some? ==> forall i, j :: 0 <= i < |t.rows| && 1 <= j < |t.header| ==>
      CellValue(t.rows[i][j], parse) == Some(x.value[i][j - 1])
  {
    if AllNumeric(t, parse) then
      Some(seq(|t.rows|, i requires 0 <= i < |t.rows| =>
        seq(|t.header| - 1, j requires 0 <= j < |t.header| - 1 => CellValue(t.rows[i][j + 1], parse).value)))
    else None
  }

  /** The null check on the coerced columns fails exactly when some
      criteria cell is not a number. */
  lemma CoercedHasMissingIff(t: Table, parse: string -> Option<real>)
    requires WellFormed(t) && |t.header| >= 1
    ensures (exists i, k :: 0 <= i < |t.rows| && 0 <= k < |t.header| - 1 && CoercedCriteria(t, parse)[i][k].Missing?)
      <==> Criteria(t, parse).None?
  {
    var data: seq<seq<Cell>> := CoercedCriteria(t, parse);
    if Criteria(t, parse).None? {
      var i, j :| 0 <= i < |t.rows| && 1 <= j < |t.header| && CellValue(t.rows[i][j], parse).None?;
      assert data[i][j - 1] == Coerce(t.rows[i][j - 1 + 1], parse);
    } else {
      forall i, k | 0 <= i < |t.rows| && 0 <= k < |t.header| - 1 ensures !data[i][k].Missing? {
        assert data[i][k] == Coerce(t.rows[i][k + 1], parse);
        assert CellValue(t.rows[i][k + 1], parse).Some?;
      }
    }
  }

  // ---------------------------------------------------------------
  // The result table
  // ---------------------------------------------------------------

  /** The displayed score column: each closeness times 100. */
  function ScoreCells(scores: seq<real>): (cells: seq<Cell>)
    ensures |cells| == |scores| && forall i :: 0 <= i < |scores| ==> cells[i] == Number(scores[i] * 100.0)
  {
    seq(|scores|, i requires 0 <= i < |scores| => Number(scores[i] * 100.0))
  }

  /** The score column when every closeness is `0 / 0`: NaN times 100,
      rounded, is NaN in every row. */
  function NaNCells(n: nat): (cells: seq<Cell>)
    ensures |cells| == n && forall i :: 0 <= i < n ==> cells[i].Missing?
  {
    seq(n, i => Missing)
  }

  function RankCells(ranks: seq<nat>): (cells: seq<Cell>)
    ensures |cells| == |ranks| && forall i :: 0 <= i < |ranks| ==> cells[i] == Whole(ranks[i])
  {
    seq(|ranks|, i requires 0 <= i < |ranks| => Whole(ranks[i]))
  }

  /** `result = df.copy()` with "Topsis Score" and then "Rank" assigned. */
  function ResultTable(t: Table, scores: seq<Cell>, ranks: seq<nat>): (r: Table)
    requires WellFormed(t) && |scores| == |t.rows| && |ranks| == |t.rows|
    ensures WellFormed(r)
  {
    AssignColumn(AssignColumn(t, "Topsis Score", scores), "Rank", RankCells(ranks))
  }

  /** For an input without those two columns, the result keeps every input
      row and column as it was and appends the score and the rank. */
  lemma ResultAppends(t: Table, scores: seq<Cell>, ranks: seq<nat>)
    requires WellFormed(t) && |scores| == |t.rows| && |ranks| == |t.rows|
    requires "Topsis Score" !in t.header && "Rank" !in t.header
    ensures ResultTable(t, scores, ranks).header == t.header + ["Topsis Score", "Rank"]
    ensures |ResultTable(t, scores, ranks).rows| == |t.rows|
    ensures forall i :: 0 <= i < |t.rows| ==>
      ResultTable(t, scores, ranks).rows[i] == t.rows[i] + [scores[i], Whole(ranks[i])]
  {
    var s := AssignColumn(t, "Topsis Score", scores);
    assert ColumnIndex(t.header, "Topsis Score").None?;
    assert "Rank" !in s.header;
    assert ColumnIndex(s.header, "Rank").None?;
  }

  /** Whatever the input holds, the result's "Topsis Score" and "Rank"
      columns are the scores and ranks, and every other input column is
      unchanged. */
  lemma ResultColumns(t: Table, scores: seq<Cell>, ranks: seq<nat>)
    requires WellFormed(t) && |scores| == |t.rows| && |ranks| == |t.rows|
    ensures "Topsis Score" in ResultTable(t, scores, ranks).header
    ensures "Rank" in ResultTable(t, scores, ranks).header
    ensures Column(ResultTable(t, scores, ranks), "Topsis Score") == scores
    ensures Column(ResultTable(t, scores, ranks), "Rank") == RankCells(ranks)
    ensures forall other :: other in t.header && other != "Topsis Score" && other != "Rank" ==>
      other in ResultTable(t, scores, ranks).header
      && Column(ResultTable(t, scores, ranks), other) == Column(t, other)
  {
    var s := AssignColumn(t, "Topsis Score", scores);
    AssignColumnContents(t, "Topsis Score", scores);
    AssignColumnContents(s, "Rank", RankCells(ranks));
  }

  /** A pandas DataFrame held by reference: the result is built on a copy
      and the input object is left as it was. */
  class Frame {
    var header: seq<string>
    var rows: seq<seq<Cell>>

    function Value(): Table
      reads this
    {
      Table(header, rows)
    }

    constructor(t: Table)
      ensures Value() == t
    {
      header := t.header;
      rows := t.rows;
    }

    /** `df.copy()` */
    method Copy() returns (c: Frame)
      ensures fresh(c) && c.Value() == Value()
    {
      c := new Frame(Value());
    }

    /** `self[name] = values` */
    method SetColumn(name: string, values: seq<Cell>)
      requires WellFormed(Value()) && |values| == |rows|
      modifies this
      ensures Value() == AssignColumn(old(Value()), name, values)
    {
      var r := AssignColumn(Value(), name, values);
      header := r.header;
      rows := r.rows;
    }
  }

  /** `result = df.copy(); result["Topsis Score"] = ...; result["Rank"] = rank`:
      a new frame holding the result table, with the input frame untouched. */
  method BuildResult(df: Frame, scores: seq<Cell>, ranks: seq<nat>) returns (result: Frame)
    requires WellFormed(df.Value()) && |scores| == |df.rows| && |ranks| == |df.rows|
    ensures fresh(result)
    ensures result.Value() == ResultTable(df.Value(), scores, ranks)
    ensures df.Value() == old(df.Value())
  {
    result := df.Copy();
    result.SetColumn("Topsis Score", scores);
    result.SetColumn("Rank", RankCells(ranks));
  }
}
