/**
 * The tree-to-table flattening engine of DataHelper/XmlNodeExtensions.cs.
 *
 * Each selected node becomes one row. AddData walks the node depth-first,
 * carrying a path prefix, the node's index among same-named siblings and a
 * remaining depth budget; every attribute and every non-empty leaf text
 * becomes one cell write, and a write to a column the table lacks first
 * appends that column. Entries lists those writes as a value (or the
 * FormatException the walk raises), ApplyAll gives their effect on the
 * table's columns and the row's cells, and the methods are proved to do
 * exactly that.
 */
module XmlNodeExtensions {
  import opened Utils
  import opened DataTables

  datatype Attr = Attr(name: string, value: string)

  /**
   * An XmlNode. A text node is a child named "#text" whose attribute
   * collection is null (None); text is InnerText, read only for nodes
   * without children, where it is the node's own text.
   */
  datatype Node = Node(name: string, attributes: Option<seq<Attr>>, children: seq<Node>, text: string)

  /** ToDBValue: null and the empty string become DBNull, any other string is kept. */
  function ToDBValue(value: Option<string>): (r: Cell)
    ensures r == DbNull <==> value == None || value == Some("")
    ensures r.Str? ==> value == Some(r.s)
  {
    match value
    case None => DbNull
    case Some(s) => if s == "" then DbNull else Str(s)
  }

  // ---------------------------------------------------------------------------
  // Column names
  // ---------------------------------------------------------------------------

  /**
   * How an attribute column of a root node (empty parent) is formatted:
   * AsWritten is the code's string.Format("{1}-{2}", name, attr), which
   * raises a FormatException because placeholder {2} has no argument;
   * Intended is "{0}-{1}", i.e. name-attr.
   */
  datatype AttrFormat = AsWritten | Intended

  /** The node's own segment in an attribute column: name, or name-index past the first sibling. */
  function Segment(name: string, index: int): (seg: string)
    ensures name <= seg
    ensures seg == name <==> index <= 1
    ensures index > 1 ==> seg == name + "-" + DecimalString(index)
  {
    if index > 1 then name + "-" + DecimalString(index) else name
  }

  /** Extends a path prefix by a plain node name; used for the child prefix and leaf-text columns. */
  function PathJoin(parent: string, name: string): (r: string) {
    if parent == "" then name else parent + "-" + name
  }

  /** The attribute column name formatting raises. */
  predicate FormatRaises(fmt: AttrFormat, parent: string) {
    fmt == AsWritten && parent == ""
  }

  /** parent-segment-attr; for an empty parent the intended segment-attr. */
  function AttrColumnName(parent: string, seg: string, attr: string): (r: string) {
    if parent == "" then seg + "-" + attr else parent + "-" + seg + "-" + attr
  }

  // ---------------------------------------------------------------------------
  // The writes a walk performs
  // ---------------------------------------------------------------------------

  /** Setting the cell of a column, creating the column when it is absent. */
  datatype Write = Write(column: string, value: Cell)

  function AttrWrite(parent: string, seg: string, a: Attr): (r: Write) {
    Write(AttrColumnName(parent, seg, a.name), ToDBValue(Some(a.value)))
  }

  /** The attribute writes of one node, in attribute order. */
  function AttrWritesOf(attrs: seq<Attr>, parent: string, seg: string): (r: seq<Write>) {
    seq(|attrs|, i requires 0 <= i < |attrs| => AttrWrite(parent, seg, attrs[i]))
  }

  /** The attribute loop: it raises on the first attribute when formatting raises. */
  function AttrWrites(fmt: AttrFormat, attrs: seq<Attr>, parent: string, seg: string): (r: Result<seq<Write>>) {
    if |attrs| > 0 && FormatRaises(fmt, parent) then Err(FormatException)
    else Ok(AttrWritesOf(attrs, parent, seg))
  }

  function AttributesOf(node: Node): (r: seq<Attr>) {
    if node.attributes.Some? then node.attributes.value else []
  }

  function Names(nodes: seq<Node>): (r: seq<string>) {
    seq(|nodes|, i requires 0 <= i < |nodes| => nodes[i].name)
  }

  /** The index AddData passes to child k: same-named children among the first k + 1. */
  function SiblingIndex(children: seq<Node>, k: nat): (r: nat)
    requires k < |children|
  {
    Count(Names(children[..k + 1]), children[k].name)
  }

  /**
   * The cell writes of AddData(node, parent, index, depth), in the order it
   * performs them: attributes, then (depth permitting) the children, or the
   * leaf text of a childless node.
   */
  function Entries(fmt: AttrFormat, node: Node, parent: string, index: int, depth: int): (r: Result<seq<Write>>)
    decreases node, 1
  {
    match AttrWrites(fmt, AttributesOf(node), parent, Segment(node.name, index))
    case Err(f) => Err(f)
    case Ok(aw) =>
      if |node.children| > 0 then
        if depth > 0 then
          match ChildWrites(fmt, node, |node.children|, PathJoin(parent, node.name), depth - 1)
          case Err(f) => Err(f)
          case Ok(cw) => Ok(aw + cw)
        else Ok(aw)
      else if node.text != "" then Ok(aw + [Write(PathJoin(parent, node.name), ToDBValue(Some(node.text)))])
      else Ok(aw)
  }

  /** The writes of the first k children of node, each walked with its sibling index. */
  function ChildWrites(fmt: AttrFormat, node: Node, k: nat, parent: string, depth: int): (r: Result<seq<Write>>)
    requires k <= |node.children|
    decreases node, 0, k
  {
    if k == 0 then Ok([])
    else
      match ChildWrites(fmt, node, k - 1, parent, depth)
      case Err(f) => Err(f)
      case Ok(before) =>
        match Entries(fmt, node.children[k - 1], parent, SiblingIndex(node.children, k - 1), depth)
        case Err(f) => Err(f)
        case Ok(w) => Ok(before + w)
  }

  lemma NamesSnoc(nodes: seq<Node>, k: nat)
    requires k < |nodes|
    ensures Names(nodes[..k + 1]) == Names(nodes[..k]) + [nodes[k].name]
  {
  }

  lemma ChildWritesStep(fmt: AttrFormat, node: Node, k: nat, parent: string, depth: int)
    requires k < |node.children|
    requires ChildWrites(fmt, node, k, parent, depth).Ok?
    ensures var e := Entries(fmt, node.children[k], parent, SiblingIndex(node.children, k), depth);
      ChildWrites(fmt, node, k + 1, parent, depth) ==
        if e.Err? then Err(e.fault) else Ok(ChildWrites(fmt, node, k, parent, depth).value + e.value)
  {
  }

  lemma {:induction false} ChildWritesErrPersists(fmt: AttrFormat, node: Node, k: nat, m: nat, parent: string, depth: int)
    requires k <= m <= |node.children|
    requires ChildWrites(fmt, node, k, parent, depth).Err?
    ensures ChildWrites(fmt, node, m, parent, depth).Err?
    decreases m
  {
    if m > k {
      ChildWritesErrPersists(fmt, node, k, m - 1, parent, depth);
    }
  }

  // ---------------------------------------------------------------------------
  // The effect of writes on the table's columns and the row's cells
  // ---------------------------------------------------------------------------

  /** The table's column names and the row's cells, as the walk sees them. */
  datatype RowState = RowState(columns: seq<string>, cells: map<string, Cell>)

  /** Columns.Contains / Columns.Add followed by row[column] = value. */
  function Apply(st: RowState, w: Write): (r: RowState) {
    RowState(if w.column in st.columns then st.columns else st.columns + [w.column],
             st.cells[w.column := w.value])
  }

  function ApplyAll(st: RowState, ws: seq<Write>): (r: RowState)
    decreases |ws|
  {
    if ws == [] then st else Apply(ApplyAll(st, ws[..|ws| - 1]), ws[|ws| - 1])
  }

  lemma {:induction false} ApplyAllConcat(st: RowState, a: seq<Write>, b: seq<Write>)
    ensures ApplyAll(st, a + b) == ApplyAll(ApplyAll(st, a), b)
    decreases |b|
  {
    if b == [] {
      assert a + b == a;
    } else {
      var b' := b[..|b| - 1];
      assert (a + b)[..|a + b| - 1] == a + b';
      ApplyAllConcat(st, a, b');
    }
  }

  // ---------------------------------------------------------------------------
  // ToDataTable as a function
  // ---------------------------------------------------------------------------

  /** Flattening one more node: NewRow, AddData, Rows.Add. */
  function AppendRow(t: TableValue, ws: seq<Write>): (r: TableValue) {
    var st := ApplyAll(RowState(t.columns, map[]), ws);
    TableValue(st.columns, Widen(t.rows, |st.columns|) + [Materialize(st.columns, st.cells)])
  }

  /** The table ToDataTable builds from the selected nodes, or the exception it raises. */
  function Flatten(fmt: AttrFormat, nodes: seq<Node>, depth: int): (r: Result<TableValue>)
    decreases |nodes|
  {
    if nodes == [] then Ok(TableValue([], []))
    else
      match Flatten(fmt, nodes[..|nodes| - 1], depth)
      case Err(f) => Err(f)
      case Ok(t) =>
        match Entries(fmt, nodes[|nodes| - 1], "", 1, depth)
        case Err(f) => Err(f)
        case Ok(ws) => Ok(AppendRow(t, ws))
  }

  lemma {:induction false} FlattenErrPersists(fmt: AttrFormat, nodes: seq<Node>, k: nat, depth: int)
    requires k <= |nodes|
    requires Flatten(fmt, nodes[..k], depth).Err?
    ensures Flatten(fmt, nodes, depth).Err?
    decreases |nodes|
  {
    if k < |nodes| {
      var init := nodes[..|nodes| - 1];
      assert init[..k] == nodes[..k];
      FlattenErrPersists(fmt, init, k, depth);
    } else {
      assert nodes[..k] == nodes;
    }
  }

  // ---------------------------------------------------------------------------
  // The imperative code
  // ---------------------------------------------------------------------------

  function StateOf(row: DataRow): (r: RowState)
    reads row, row.table
  {
    RowState(row.table.columns, row.cells)
  }

  /** The table grew from (columns0, rows0): columns appended, existing rows padded with DBNull. */
  ghost predicate GrownFrom(columns0: seq<string>, rows0: seq<seq<Cell>>, t: DataTable)
    reads t
  {
    Rectangular(|columns0|, rows0) && columns0 <= t.columns && t.rows == Widen(rows0, |t.columns|)
  }

  lemma GrownFromSelf(t: DataTable)
    requires t.Valid()
    ensures GrownFrom(t.columns, t.rows, t)
  {
    WidenToOwnWidth(t.rows, |t.columns|);
  }

  lemma GrownFromTrans(columns0: seq<string>, rows0: seq<seq<Cell>>, columns1: seq<string>, rows1: seq<seq<Cell>>, t: DataTable)
    requires Rectangular(|columns0|, rows0) && columns0 <= columns1 && rows1 == Widen(rows0, |columns1|)
    requires GrownFrom(columns1, rows1, t)
    ensures GrownFrom(columns0, rows0, t)
  {
    WidenTwice(rows0, |columns1|, |t.columns|);
  }

  /** Lines 77-81 and 103-107: add the column when absent, then set the row's cell. */
  method SetCell(row: DataRow, columnName: string, value: Cell)
    requires row.table.Valid()
    modifies row, row.table
    ensures row.table.Valid() && GrownFrom(old(row.table.columns), old(row.table.rows), row.table)
    ensures StateOf(row) == Apply(old(StateOf(row)), Write(columnName, value))
  {
    var table := row.table;
    GrownFromSelf(table);
    if !table.Contains(columnName) {
      table.AddColumn(columnName);
      WidenTwice(old(table.rows), |old(table.columns)|, |table.columns|);
    }
    row.Set(columnName, value);
  }

  /** Lines 67-83: one cell per attribute, named parent-name[-index]-attr. */
  method AddAttributes(row: DataRow, node: Node, parent: string, index: int) returns (failed: bool)
    requires row.table.Valid()
    modifies row, row.table
    ensures row.table.Valid() && GrownFrom(old(row.table.columns), old(row.table.rows), row.table)
    ensures failed <==> AttrWrites(AsWritten, AttributesOf(node), parent, Segment(node.name, index)).Err?
    ensures !failed ==> StateOf(row) == ApplyAll(old(StateOf(row)), AttrWritesOf(AttributesOf(node), parent, Segment(node.name, index)))
  {
    var table := row.table;
    GrownFromSelf(table);
    ghost var st0 := StateOf(row);
    ghost var aw := AttrWritesOf(AttributesOf(node), parent, Segment(node.name, index));
    if node.attributes.Some? {
      var attrs := node.attributes.value;
      for a := 0 to |attrs|
        invariant table.Valid() && GrownFrom(old(table.columns), old(table.rows), table)
        invariant a > 0 ==> parent != ""
        invariant StateOf(row) == ApplyAll(st0, aw[..a])
      {
        var name := node.name;
        if index > 1 {
          name := name + "-" + DecimalString(index);
        }
        if parent == "" {
          return true;
        }
        var columnName := parent + "-" + name + "-" + attrs[a].name;
        ghost var columns1, rows1 := table.columns, table.rows;
        SetCell(row, columnName, ToDBValue(Some(attrs[a].value)));
        GrownFromTrans(old(table.columns), old(table.rows), columns1, rows1, table);
        assert aw[..a + 1][..a] == aw[..a];
      }
      assert aw[..|attrs|] == aw;
    }
    return false;
  }

  /**
   * AddData: writes the node's cells into row, adding the columns the table
   * lacks. failed means the FormatException of the root-attribute format;
   * the table it leaves is then discarded by ToDataTable.
   */
  method AddData(row: DataRow, node: Node, parent: string, index: int, depth: int) returns (failed: bool)
    requires row.table.Valid()
    modifies row, row.table
    decreases node, 1
    ensures row.table.Valid() && GrownFrom(old(row.table.columns), old(row.table.rows), row.table)
    ensures failed <==> Entries(AsWritten, node, parent, index, depth).Err?
    ensures !failed ==> StateOf(row) == ApplyAll(old(StateOf(row)), Entries(AsWritten, node, parent, index, depth).value)
  {
    var table := row.table;
    ghost var st0 := StateOf(row);
    ghost var aw := AttrWritesOf(AttributesOf(node), parent, Segment(node.name, index));
    failed := AddAttributes(row, node, parent, index);
    if failed {
      return;
    }
    ghost var st1, rows1 := StateOf(row), table.rows;
    if |node.children| > 0 {
      if depth > 0 {
        var prefix := if parent == "" then node.name else parent + "-" + node.name;
        failed := AddChildren(row, node, prefix, depth - 1);
        GrownFromTrans(old(table.columns), old(table.rows), st1.columns, rows1, table);
        if !failed {
          ApplyAllConcat(st0, aw, ChildWrites(AsWritten, node, |node.children|, prefix, depth - 1).value);
        }
      }
    } else if node.text != "" {
      var columnName := if parent == "" then node.name else parent + "-" + node.name;
      SetCell(row, columnName, ToDBValue(Some(node.text)));
      GrownFromTrans(old(table.columns), old(table.rows), st1.columns, rows1, table);
      ApplyAllConcat(st0, aw, [Write(columnName, ToDBValue(Some(node.text)))]);
    }
  }

  /** Lines 89-96: each child walked with its count among same-named siblings so far. */
  method AddChildren(row: DataRow, node: Node, prefix: string, depth: int) returns (failed: bool)
    requires row.table.Valid()
    modifies row, row.table
    decreases node, 0
    ensures row.table.Valid() && GrownFrom(old(row.table.columns), old(row.table.rows), row.table)
    ensures failed <==> ChildWrites(AsWritten, node, |node.children|, prefix, depth).Err?
    ensures !failed ==> StateOf(row) == ApplyAll(old(StateOf(row)), ChildWrites(AsWritten, node, |node.children|, prefix, depth).value)
  {
    var table := row.table;
    GrownFromSelf(table);
    ghost var st0 := StateOf(row);
    var childList: seq<string> := [];
    for k := 0 to |node.children|
      invariant table.Valid() && GrownFrom(old(table.columns), old(table.rows), table)
      invariant childList == Names(node.children[..k])
      invariant ChildWrites(AsWritten, node, k, prefix, depth).Ok?
      invariant StateOf(row) == ApplyAll(st0, ChildWrites(AsWritten, node, k, prefix, depth).value)
    {
      var child := node.children[k];
      childList := childList + [child.name];
      NamesSnoc(node.children, k);
      var childIndex := Count(childList, child.name);
      ghost var before := ChildWrites(AsWritten, node, k, prefix, depth).value;
      ghost var columns1, rows1 := table.columns, table.rows;
      var err := AddData(row, child, prefix, childIndex, depth);
      GrownFromTrans(old(table.columns), old(table.rows), columns1, rows1, table);
      ChildWritesStep(AsWritten, node, k, prefix, depth);
      if err {
        ChildWritesErrPersists(AsWritten, node, k + 1, |node.children|, prefix, depth);
        return true;
      }
      ApplyAllConcat(st0, before, Entries(AsWritten, child, prefix, childIndex, depth).value);
    }
    return false;
  }

  /** ToDataTable over the nodes SelectNodes(xpath) returned: one row per node. */
  method ToDataTable(selected: seq<Node>, depth: int) returns (r: Result<DataTable>)
    ensures r.Ok? <==> Flatten(AsWritten, selected, depth).Ok?
    ensures r.Ok? ==> fresh(r.value) && r.value.Valid() && r.value.Value() == Flatten(AsWritten, selected, depth).value
  {
    var table := new DataTable();
    for i := 0 to |selected|
      invariant table.Valid()
      invariant Flatten(AsWritten, selected[..i], depth) == Ok(table.Value())
    {
      assert selected[..i + 1][..i] == selected[..i];
      var row := table.NewRow();
      var err := AddData(row, selected[i], "", 1, depth);
      if err {
        FlattenErrPersists(AsWritten, selected, i + 1, depth);
        return Err(FormatException);
      }
      table.AddRow(row);
    }
    assert selected[..|selected|] == selected;
    return Ok(table);
  }
  /** ToDataTable with its default argument depth = 1. */
  method ToDataTableDefault(selected: seq<Node>) returns (r: Result<DataTable>)
    ensures r.Ok? <==> Flatten(AsWritten, selected, 1).Ok?
    ensures r.Ok? ==> fresh(r.value) && r.value.Valid() && r.value.Value() == Flatten(AsWritten, selected, 1).value
  {
    r := ToDataTable(selected, 1);
  }


  // ---------------------------------------------------------------------------
  // ShortenColumnName
  // ---------------------------------------------------------------------------

  /**
   * The name after depth steps, each of which drops everything up to and
   * including the first character of the first occurrence of separator.
   * Substring raises when that occurrence starts at the end of the name
   * (an empty separator on an empty name); assigning the result to the
   * ColumnName of a column in a table raises when the result is empty.
   */
  function Shorten(name: string, depth: int, separator: string): (r: Result<string>)
    decreases depth
  {
    if depth <= 0 then Ok(name)
    else
      var first := IndexOf(name, separator);
      if first < 0 then Shorten(name, depth - 1, separator)
      else if first + 1 > |name| then Err(ArgumentOutOfRange)
      else if name[first + 1..] == "" then Err(ArgumentException)
      else Shorten(name[first + 1..], depth - 1, separator)
  }

  /** The inner loop of ShortenColumnName (lines 46-53), on the name of one column. */
  method ShortenName(columnName: string, depth: int, separator: string) returns (r: Result<string>)
    ensures r == Shorten(columnName, depth, separator)
  {
    var name := columnName;
    var i := 0;
    while i < depth
      invariant 0 <= i && (i <= depth || i == 0)
      invariant Shorten(columnName, depth, separator) == Shorten(name, depth - i, separator)
    {
      var first := IndexOf(name, separator);
      if first >= 0 {
        if first + 1 > |name| {
          return Err(ArgumentOutOfRange);
        }
        if name[first + 1..] == "" {
          return Err(ArgumentException);
        }
        name := name[first + 1..];
      }
      i := i + 1;
    }
    return Ok(name);
  }

  /** ShortenColumnName: renames every column in place; rows are untouched. */
  method ShortenColumnName(table: DataTable, depth: int, separator: string) returns (failed: bool)
    modifies table
    ensures table.rows == old(table.rows)
    ensures |table.columns| == |old(table.columns)|
    ensures failed <==> exists j :: 0 <= j < |old(table.columns)| && Shorten(old(table.columns)[j], depth, separator).Err?
    ensures !failed ==> forall j :: 0 <= j < |table.columns| ==> Shorten(old(table.columns)[j], depth, separator) == Ok(table.columns[j])
  {
    ghost var cols0 := table.columns;
    for j := 0 to |table.columns|
      invariant table.rows == old(table.rows) && |table.columns| == |cols0|
      invariant forall m :: 0 <= m < j ==> Shorten(cols0[m], depth, separator) == Ok(table.columns[m])
      invariant forall m :: j <= m < |cols0| ==> table.columns[m] == cols0[m]
    {
      var name := ShortenName(table.columns[j], depth, separator);
      if name.Err? {
        return true;
      }
      table.columns := table.columns[j := name.value];
    }
    return false;
  }
  /** ShortenColumnName with its default arguments depth = 1 and separator = "-". */
  method ShortenColumnNameDefault(table: DataTable) returns (failed: bool)
    modifies table
    ensures table.rows == old(table.rows)
    ensures |table.columns| == |old(table.columns)|
    ensures failed <==> exists j :: 0 <= j < |old(table.columns)| && Shorten(old(table.columns)[j], 1, "-").Err?
    ensures !failed ==> forall j :: 0 <= j < |table.columns| ==> Shorten(old(table.columns)[j], 1, "-") == Ok(table.columns[j])
  {
    failed := ShortenColumnName(table, 1, "-");
  }

}
