/**
 * The part of System.Data that the flattening engine and the projection use:
 * a table with an ordered column list and positional rows, and a row that is
 * filled by column name before it is added to its table.
 */
module DataTables {
  import opened Utils

  /** A cell holds DBNull or a string: every value the flattening writes is a string, and other .NET values are not modelled. */
  datatype Cell = DbNull | Str(s: string)

  /** Object.ToString() of a cell value; DBNull.Value.ToString() is the empty string. */
  function CellText(c: Cell): (t: string)
    ensures c.Str? ==> t == c.s
    ensures c == DbNull ==> t == ""
  {
    match c
    case DbNull => ""
    case Str(s) => s
  }

  /** A table as a value: column names in insertion order, one cell per column in every row. */
  datatype TableValue = TableValue(columns: seq<string>, rows: seq<seq<Cell>>)

  predicate Rectangular(width: nat, rows: seq<seq<Cell>>) {
    forall i :: 0 <= i < |rows| ==> |rows[i]| == width
  }

  function Nulls(n: int): (r: seq<Cell>)
    ensures |r| == if n <= 0 then 0 else n
    ensures forall k :: 0 <= k < |r| ==> r[k] == DbNull
    decreases n
  {
    if n <= 0 then [] else Nulls(n - 1) + [DbNull]
  }

  /** The rows after the table's column list grew to width columns: new cells are DBNull. */
  function Widen(rows: seq<seq<Cell>>, width: int): (r: seq<seq<Cell>>)
    ensures |r| == |rows|
    ensures forall i :: 0 <= i < |rows| && |rows[i]| <= width ==>
      |r[i]| == width && r[i][..|rows[i]|] == rows[i] &&
      forall k :: |rows[i]| <= k < width ==> r[i][k] == DbNull
  {
    seq(|rows|, i requires 0 <= i < |rows| => rows[i] + Nulls(width - |rows[i]|))
  }

  lemma WidenTwice(rows: seq<seq<Cell>>, w1: int, w2: int)
    requires forall i :: 0 <= i < |rows| ==> |rows[i]| <= w1
    requires w1 <= w2
    ensures Widen(Widen(rows, w1), w2) == Widen(rows, w2)
  {
    var a, b := Widen(Widen(rows, w1), w2), Widen(rows, w2);
    forall i | 0 <= i < |rows| ensures a[i] == b[i] {
      assert |a[i]| == |b[i]| == w2;
      forall k | 0 <= k < w2 ensures a[i][k] == b[i][k] {
        if k < |rows[i]| {
          assert a[i][k] == a[i][..|rows[i]|][k];
          assert b[i][k] == b[i][..|rows[i]|][k];
        } else if k < w1 {
          assert a[i][k] == a[i][..w1][k] == Widen(rows, w1)[i][k];
        }
      }
    }
  }

  lemma WidenToOwnWidth(rows: seq<seq<Cell>>, width: nat)
    requires Rectangular(width, rows)
    ensures Widen(rows, width) == rows
  {
    var r := Widen(rows, width);
    forall i | 0 <= i < |rows| ensures r[i] == rows[i] {
      assert r[i] == r[i][..|rows[i]|];
    }
  }

  /** The value a row holds for a column name; a column never set holds DBNull. */
  function Lookup(cells: map<string, Cell>, name: string): (r: Cell) {
    if name in cells then cells[name] else DbNull
  }

  /** The positional record that Rows.Add stores for a row filled by name. */
  function Materialize(columns: seq<string>, cells: map<string, Cell>): (r: seq<Cell>)
    ensures |r| == |columns|
    ensures forall j :: 0 <= j < |columns| ==>
      (columns[j] in cells ==> r[j] == cells[columns[j]]) && (columns[j] !in cells ==> r[j] == DbNull)
  {
    seq(|columns|, j requires 0 <= j < |columns| => Lookup(cells, columns[j]))
  }

  class DataTable {
    var columns: seq<string>
    var rows: seq<seq<Cell>>

    /** Every row has one cell per column. */
    ghost predicate Valid()
      reads this
    {
      Rectangular(|columns|, rows)
    }

    function Value(): (r: TableValue)
      reads this
    {
      TableValue(columns, rows)
    }

    constructor ()
      ensures Valid() && columns == [] && rows == []
    {
      columns, rows := [], [];
    }

    /** Columns.Contains, by exact name. */
    predicate Contains(name: string)
      reads this
    {
      name in columns
    }

    /** Columns.Add: a new column at the end; every existing row gets DBNull in it. */
    method AddColumn(name: string)
      requires Valid() && name !in columns
      modifies this
      ensures Valid()
      ensures columns == old(columns) + [name]
      ensures rows == Widen(old(rows), |columns|)
    {
      rows := Widen(rows, |columns| + 1);
      columns := columns + [name];
    }

    /** NewRow: a detached row of this table with every cell DBNull. */
    method NewRow() returns (row: DataRow)
      ensures fresh(row) && row.table == this && row.cells == map[]
    {
      row := new DataRow(this);
    }

    /** Rows.Add: the row's values, one per current column, become the last row. */
    method AddRow(row: DataRow)
      requires Valid() && row.table == this
      modifies this
      ensures Valid()
      ensures columns == old(columns)
      ensures rows == old(rows) + [Materialize(columns, row.cells)]
    {
      rows := rows + [Materialize(columns, row.cells)];
    }
  }

  class DataRow {
    const table: DataTable
    var cells: map<string, Cell>

    constructor (table: DataTable)
      ensures this.table == table && cells == map[]
    {
      this.table := table;
      cells := map[];
    }

    /** The indexer row[name] = value, for a column the table has. */
    method Set(name: string, value: Cell)
      requires name in table.columns
      modifies this
      ensures cells == old(cells)[name := value]
    {
      cells := cells[name := value];
    }
  }
}
