/**
 * DataHelper/JsonDataExtensions.cs: a DataRow becomes a JSON object by asking
 * a validator, column by column, whether to keep the cell, under which key and
 * with which value; a DataTable or an array of rows becomes a JSON array of
 * such objects, one per row, in row order.
 */
module JsonDataExtensions {
  import opened Utils
  import opened DataTables

  // ---------------------------------------------------------------------------
  // JSON objects
  // ---------------------------------------------------------------------------

  /**
   * A JObject: its property names in insertion order and the value of each.
   * V stands for JToken; the default validator produces string tokens.
   */
  datatype JObject<V> = JObject(keys: seq<string>, values: map<string, V>)

  /** Property names are unique and each has a value. */
  ghost predicate WellFormed<V>(o: JObject<V>) {
    Distinct(o.keys) && forall k :: k in o.values <==> k in o.keys
  }

  /**
   * The indexer obj[key] = value: an existing property keeps its position and
   * gets the new value; a new property is added at the end.
   */
  function Put<V>(o: JObject<V>, key: string, value: V): (r: JObject<V>)
    ensures WellFormed(o) ==> WellFormed(r)
    ensures key in r.values && r.values[key] == value
    ensures forall k :: k != key ==> (k in r.values <==> k in o.values)
    ensures forall k :: k != key && k in o.values ==> r.values[k] == o.values[k]
  {
    JObject(if key in o.keys then o.keys else o.keys + [key], o.values[key := value])
  }

  /** The names of s without repetitions, each at the place of its first occurrence. */
  function Dedup(s: seq<string>): (r: seq<string>)
    ensures Distinct(r)
    ensures forall x :: x in r <==> x in s
    decreases |s|
  {
    if s == [] then []
    else
      var d := Dedup(s[..|s| - 1]);
      if s[|s| - 1] in d then d else d + [s[|s| - 1]]
  }

  lemma {:induction false} DedupOfDistinct(s: seq<string>)
    requires Distinct(s)
    ensures Dedup(s) == s
    decreases |s|
  {
    if s != [] {
      var init := s[..|s| - 1];
      DedupOfDistinct(init);
      assert s[|s| - 1] !in init by {
        forall m | 0 <= m < |init| ensures init[m] != s[|s| - 1] {
          assert init[m] == s[m];
        }
      }
    }
  }

  // ---------------------------------------------------------------------------
  // Rows and validators
  // ---------------------------------------------------------------------------

  /** A DataRow as ToJObject sees it: its table's column names and one value per column. */
  datatype RowView = RowView(columns: seq<string>, cells: seq<Cell>)
  type Row = r: RowView | |r.cells| == |r.columns| witness RowView([], [])

  /** Row i of a table. */
  function RowAt(t: TableValue, i: nat): (r: Row)
    requires i < |t.rows| && |t.rows[i]| == |t.columns|
    ensures r.columns == t.columns && r.cells == t.rows[i]
  {
    RowView(t.columns, t.rows[i])
  }

  /** The validator's answer: keep the column?, the key, the value. */
  datatype Verdict<V> = Verdict(keep: bool, key: string, value: V)

  /**
   * JsonDataValidator: called with the object built so far, the column name,
   * the cell value and the whole row.
   */
  type Validator<!V> = (JObject<V>, string, Cell, Row) -> Verdict<V>

  /** DefaultValidator: keep every column under its own name, with the value's ToString(). */
  function DefaultValidator(obj: JObject<string>, column: string, data: Cell, row: Row): (r: Verdict<string>) {
    Verdict(true, column, CellText(data))
  }

  // ---------------------------------------------------------------------------
  // The projection, as a function of the row
  // ---------------------------------------------------------------------------

  /** The object after the first n columns have been offered to the validator. */
  function Project<V>(row: Row, validator: Validator<V>, n: nat): (r: JObject<V>)
    requires n <= |row.columns|
    decreases n
  {
    if n == 0 then JObject([], map[])
    else
      var o := Project(row, validator, n - 1);
      var d := validator(o, row.columns[n - 1], row.cells[n - 1], row);
      if d.keep then Put(o, d.key, d.value) else o
  }

  /** The validator's answer for column j, given the object built from columns 0 .. j-1. */
  function VerdictAt<V>(row: Row, validator: Validator<V>, j: nat): (r: Verdict<V>)
    requires j < |row.columns|
  {
    validator(Project(row, validator, j), row.columns[j], row.cells[j], row)
  }

  /** What ToJObject returns for a row. */
  function ObjectOf<V>(row: Row, validator: Validator<V>): (r: JObject<V>) {
    Project(row, validator, |row.columns|)
  }

  /** The keys of the kept answers among the first n columns, in column order. */
  function KeptKeys<V>(row: Row, validator: Validator<V>, n: nat): (r: seq<string>)
    requires n <= |row.columns|
    decreases n
  {
    if n == 0 then []
    else
      var d := VerdictAt(row, validator, n - 1);
      KeptKeys(row, validator, n - 1) + (if d.keep then [d.key] else [])
  }

  /** The answer for column j is kept and no later kept answer among the first n reuses its key. */
  predicate LastKeptAt<V>(row: Row, validator: Validator<V>, n: nat, j: nat)
    requires j < n <= |row.columns|
  {
    VerdictAt(row, validator, j).keep &&
    forall j' :: j < j' < n && VerdictAt(row, validator, j').keep ==>
      VerdictAt(row, validator, j').key != VerdictAt(row, validator, j).key
  }

  /** The properties are the kept keys, without repetitions, in the order they were first kept. */
  lemma {:induction false} ProjectKeys<V>(row: Row, validator: Validator<V>, n: nat)
    requires n <= |row.columns|
    ensures WellFormed(Project(row, validator, n))
    ensures Project(row, validator, n).keys == Dedup(KeptKeys(row, validator, n))
    decreases n
  {
    if n > 0 {
      var m := n - 1;
      ProjectKeys(row, validator, m);
      var o0, d := Project(row, validator, m), VerdictAt(row, validator, m);
      assert Project(row, validator, n) == if d.keep then Put(o0, d.key, d.value) else o0;
      var kk := KeptKeys(row, validator, n);
      if d.keep {
        assert kk == KeptKeys(row, validator, m) + [d.key];
        assert kk[..|kk| - 1] == KeptKeys(row, validator, m) && kk[|kk| - 1] == d.key;
        var p := Dedup(KeptKeys(row, validator, m));
        assert Dedup(kk) == if d.key in p then p else p + [d.key];
      } else {
        assert kk == KeptKeys(row, validator, m);
      }
    }
  }

  /** A key has a value exactly when some kept answer names it. */
  lemma {:induction false} ProjectDomain<V>(row: Row, validator: Validator<V>, n: nat)
    requires n <= |row.columns|
    ensures forall k :: k in Project(row, validator, n).values <==>
      exists j :: 0 <= j < n && VerdictAt(row, validator, j).keep && VerdictAt(row, validator, j).key == k
    decreases n
  {
    if n > 0 {
      var m := n - 1;
      ProjectDomain(row, validator, m);
      var o0, d := Project(row, validator, m), VerdictAt(row, validator, m);
      assert Project(row, validator, n) == if d.keep then Put(o0, d.key, d.value) else o0;
      forall k | k in Project(row, validator, n).values
        ensures exists j :: 0 <= j < n && VerdictAt(row, validator, j).keep && VerdictAt(row, validator, j).key == k
      {
        if !(d.keep && d.key == k) {
          var j :| 0 <= j < m && VerdictAt(row, validator, j).keep && VerdictAt(row, validator, j).key == k;
        }
      }
    }
  }

  /** Each key holds the value of the last kept answer that names it. */
  lemma {:induction false} ProjectValues<V>(row: Row, validator: Validator<V>, n: nat)
    requires n <= |row.columns|
    ensures forall j :: 0 <= j < n && LastKeptAt(row, validator, n, j) ==>
      VerdictAt(row, validator, j).key in Project(row, validator, n).values &&
      Project(row, validator, n).values[VerdictAt(row, validator, j).key] == VerdictAt(row, validator, j).value
    decreases n
  {
    if n > 0 {
      var m := n - 1;
      ProjectValues(row, validator, m);
      var o0, d := Project(row, validator, m), VerdictAt(row, validator, m);
      assert Project(row, validator, n) == if d.keep then Put(o0, d.key, d.value) else o0;
      forall j | 0 <= j < n && LastKeptAt(row, validator, n, j)
        ensures VerdictAt(row, validator, j).key in Project(row, validator, n).values &&
          Project(row, validator, n).values[VerdictAt(row, validator, j).key] == VerdictAt(row, validator, j).value
      {
        if j < m {
          assert LastKeptAt(row, validator, m, j);
        }
      }
    }
  }

  /**
   * The object holds exactly the keys of kept answers, in the order they were
   * first kept, and each key holds the value of its last kept answer.
   */
  lemma ProjectMeaning<V>(row: Row, validator: Validator<V>, n: nat)
    requires n <= |row.columns|
    ensures var o := Project(row, validator, n);
      WellFormed(o) && o.keys == Dedup(KeptKeys(row, validator, n)) &&
      (forall k :: k in o.values <==>
        exists j :: 0 <= j < n && VerdictAt(row, validator, j).keep && VerdictAt(row, validator, j).key == k) &&
      (forall j :: 0 <= j < n && LastKeptAt(row, validator, n, j) ==>
        o.values[VerdictAt(row, validator, j).key] == VerdictAt(row, validator, j).value)
  {
    ProjectKeys(row, validator, n);
    ProjectDomain(row, validator, n);
    ProjectValues(row, validator, n);
  }

  /** Left out answers leave the object as it was. */
  lemma DroppedAnswerChangesNothing<V>(row: Row, validator: Validator<V>, j: nat)
    requires j < |row.columns| && !VerdictAt(row, validator, j).keep
    ensures Project(row, validator, j + 1) == Project(row, validator, j)
    ensures KeptKeys(row, validator, j + 1) == KeptKeys(row, validator, j)
  {
  }

  /**
   * With the default validator the object has one property per distinct
   * column name, in column order, holding the text of the last cell under that
   * name.
   */
  lemma DefaultObject(row: Row)
    ensures var o := ObjectOf(row, DefaultValidator);
      WellFormed(o) && o.keys == Dedup(row.columns) &&
      (forall k :: k in o.values <==> k in row.columns) &&
      forall j :: 0 <= j < |row.columns| && (forall j' :: j < j' < |row.columns| ==> row.columns[j'] != row.columns[j]) ==>
        o.values[row.columns[j]] == CellText(row.cells[j])
  {
    var n := |row.columns|;
    DefaultKeptKeys(row, n);
    assert row.columns[..n] == row.columns;
    ProjectMeaning(row, DefaultValidator, n);
    var o := ObjectOf(row, DefaultValidator);
    forall k | k in row.columns ensures k in o.values {
      var j :| 0 <= j < n && row.columns[j] == k;
      assert VerdictAt(row, DefaultValidator, j).key == k;
    }
    forall j | 0 <= j < n && (forall j' :: j < j' < n ==> row.columns[j'] != row.columns[j])
      ensures o.values[row.columns[j]] == CellText(row.cells[j])
    {
      assert LastKeptAt(row, DefaultValidator, n, j);
    }
  }

  /**
   * When the column names are distinct, as a DataTable's are, the keys are the
   * columns in table order and each holds its cell's text.
   */
  lemma DefaultObjectOfDistinct(row: Row)
    requires Distinct(row.columns)
    ensures var o := ObjectOf(row, DefaultValidator);
      o.keys == row.columns &&
      forall j :: 0 <= j < |row.columns| ==> row.columns[j] in o.values && o.values[row.columns[j]] == CellText(row.cells[j])
  {
    DefaultObject(row);
    DedupOfDistinct(row.columns);
  }

  /** The default validator keeps every column under its own name. */
  lemma {:induction false} DefaultKeptKeys(row: Row, n: nat)
    requires n <= |row.columns|
    ensures KeptKeys(row, DefaultValidator, n) == row.columns[..n]
    decreases n
  {
    if n > 0 {
      DefaultKeptKeys(row, n - 1);
      assert row.columns[..n] == row.columns[..n - 1] + [row.columns[n - 1]];
    }
  }

  // ---------------------------------------------------------------------------
  // The operations
  // ---------------------------------------------------------------------------

  /**
   * ToJObject(dataRow, validator): every column in table order is offered to
   * the validator together with the object built so far; kept answers are
   * written with the indexer.
   */
  method ToJObject<V>(row: Row, validator: Validator<V>) returns (result: JObject<V>)
    ensures result == ObjectOf(row, validator)
    ensures WellFormed(result) && result.keys == Dedup(KeptKeys(row, validator, |row.columns|))
  {
    result := JObject([], map[]);
    for j := 0 to |row.columns|
      invariant result == Project(row, validator, j)
    {
      var data := validator(result, row.columns[j], row.cells[j], row);
      if data.keep {
        result := Put(result, data.key, data.value);
      }
    }
    ProjectMeaning(row, validator, |row.columns|);
  }

  /** ToJObject(dataRow): the validator overload with DefaultValidator. */
  method ToJObjectDefault(row: Row) returns (result: JObject<string>)
    ensures result == ObjectOf(row, DefaultValidator)
    ensures Distinct(row.columns) ==>
      result.keys == row.columns &&
      forall j :: 0 <= j < |row.columns| ==> row.columns[j] in result.values && result.values[row.columns[j]] == CellText(row.cells[j])
  {
    result := ToJObject(row, DefaultValidator);
    if Distinct(row.columns) {
      DefaultObjectOfDistinct(row);
    }
  }

  /** ToJArray(dataTable, validator): one object per row, in row order. */
  method ToJArray<V>(table: DataTable, validator: Validator<V>) returns (result: seq<JObject<V>>)
    requires table.Valid()
    ensures |result| == |table.rows|
    ensures forall i :: 0 <= i < |table.rows| ==> result[i] == ObjectOf(RowAt(table.Value(), i), validator)
  {
    result := [];
    for i := 0 to |table.rows|
      invariant |result| == i
      invariant forall k :: 0 <= k < i ==> result[k] == ObjectOf(RowAt(table.Value(), k), validator)
    {
      var o := ToJObject(RowAt(table.Value(), i), validator);
      result := result + [o];
    }
  }

  /** ToJArray(dataTable): the validator overload with DefaultValidator. */
  method ToJArrayDefault(table: DataTable) returns (result: seq<JObject<string>>)
    requires table.Valid()
    ensures |result| == |table.rows|
    ensures forall i :: 0 <= i < |table.rows| ==> result[i] == ObjectOf(RowAt(table.Value(), i), DefaultValidator)
  {
    result := ToJArray(table, DefaultValidator);
  }

  /** ToJArray(dataRows, validator): one object per array element, in array order. */
  method RowsToJArray<V>(rows: seq<Row>, validator: Validator<V>) returns (result: seq<JObject<V>>)
    ensures |result| == |rows|
    ensures forall i :: 0 <= i < |rows| ==> result[i] == ObjectOf(rows[i], validator)
  {
    result := [];
    for i := 0 to |rows|
      invariant |result| == i
      invariant forall k :: 0 <= k < i ==> result[k] == ObjectOf(rows[k], validator)
    {
      var o := ToJObject(rows[i], validator);
      result := result + [o];
    }
  }

  /** ToJArray(dataRows): the validator overload with DefaultValidator. */
  method RowsToJArrayDefault(rows: seq<Row>) returns (result: seq<JObject<string>>)
    ensures |result| == |rows|
    ensures forall i :: 0 <= i < |rows| ==> result[i] == ObjectOf(rows[i], DefaultValidator)
  {
    result := RowsToJArray(rows, DefaultValidator);
  }
}
