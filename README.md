# DataHelper: XML flattening and row-to-JSON projection in Dafny

This project models two parts of the DataHelper library and proves properties
of them.

**Tree-to-table flattening** (`DataHelper/XmlNodeExtensions.cs`):
- `ToDataTable` turns each selected XML node into one row of a `DataTable`.
- `AddData` walks each node depth-first. It carries three values: a path prefix, the node's index among same-named siblings, and a remaining depth budget.
  - Every attribute becomes a cell.
  - Every non-empty leaf text becomes a cell.
  - A column is appended the first time a name is written.
- `ShortenColumnName` renames columns by stripping prefixes up to a separator.
- `ToDBValue` maps null and the empty string to DBNull.

**Row-to-object projection** (`DataHelper/JsonDataExtensions.cs`):
- `ToJObject` offers each column of a `DataRow`, in table order, to a validator. Each answer the validator keeps is written into a `JObject`.
- The `ToJArray` overloads map a table's rows, or an array of rows, to a `JArray` of such objects.

Modules:
- `Utils`: `Option`, `Result` with the .NET exceptions the modelled code raises (`FormatException`, the `ArgumentOutOfRangeException` of `Substring`, and the `ArgumentException` of the `ColumnName` setter), `Count`, decimal formatting, and ordinal `IndexOf`.
- `DataTables`: the part of System.Data the code uses.
  - A `DataTable` class with an ordered column list and positional rows. Adding a column pads the existing rows with DBNull.
  - A `DataRow` class holding a detached row's cells by name.
- `XmlNodeExtensions`: the flattening engine.
  - The function `Entries` lists the cell writes a walk performs, in order, or the exception it raises.
  - `ApplyAll` gives the effect of those writes on the columns and the row.
  - `Flatten` is the whole table.
  - The imperative methods `AddData`, `ToDataTable` and `ShortenColumnName` are proved equal to these functions.
- `XmlFlattenProperties`: what the flattening promises, proved about those functions.
- `JsonDataExtensions`: how the object and the array are built.
  - An insertion-ordered `JObject`.
  - The validator as a function parameter.
  - The projection `Project`, a fold over the columns, which the loop methods are proved equal to.
  - Lemmas about what the projection holds.

How the code's behaviour is modelled:
- **Line 76.** With an empty parent, the attribute column name is built by `string.Format` with placeholders 1 and 2 but only two arguments. This raises a `FormatException`.
  - The methods model the code as written: `AddData` and `ToDataTable` report that failure.
  - The functions take an `AttrFormat` argument. `AsWritten` is the code. `Intended` uses placeholders 0 and 1, which gives `name-attr`. Every table lemma holds for both.
  - One could expect a selected node with attributes, at depth 0, to give its attribute columns. The code raises instead, and the model follows the code.
- **Text.** In the DOM a text is a child node named `#text`, and it has no attribute collection. So `<c>txt</c>` has one child, and its text reaches a column only while depth remains.
- **Inputs.** The XPath selection is an input sequence of nodes. The validator is an explicit parameter.

## Model

| member | source | states |
|---|---|---|
| Utils.IndexOf | DataHelper/XmlNodeExtensions.cs:48 | the first position where the separator occurs (ordinal), or a negative value exactly when it occurs nowhere |
| Utils.Count | DataHelper/XmlNodeExtensions.cs:94 | the number of occurrences is at most the length, and zero exactly when the name is absent |
| Utils.DecimalString | DataHelper/XmlNodeExtensions.cs:74 | the decimal digits string.Format writes for an int index: at least one character, all digits; DecimalStringValue proves the digits denote the number, with no leading zero |
| Utils.DecimalStringValue | DataHelper/XmlNodeExtensions.cs:74 | read back by DigitsValue, the written digits give the number itself, and a positive number does not start with 0 |
| Utils.DecimalStringInjective | DataHelper/XmlNodeExtensions.cs:74 | different numbers are written as different strings |
| DataTables.DataTable.constructor | DataHelper/XmlNodeExtensions.cs:26 | a new table has no columns and no rows |
| DataTables.DataTable.Contains | DataHelper/XmlNodeExtensions.cs:77 | no contract; the body is the definition: Columns.Contains by exact name (also line 103); SetCell's contract and ApplyAllColumns use it to append only absent names |
| DataTables.DataTable.NewRow | DataHelper/XmlNodeExtensions.cs:29 | a fresh detached row of this table with no cell set |
| DataTables.DataTable.AddColumn | DataHelper/XmlNodeExtensions.cs:79 | the name is appended to the columns; every existing row gets DBNull in the new column; rows stay rectangular |
| DataTables.DataTable.AddRow | DataHelper/XmlNodeExtensions.cs:31 | the row's values, one per current column (DBNull where unset), become the last row; columns unchanged |
| DataTables.DataRow.Set | DataHelper/XmlNodeExtensions.cs:81 | the cell of that column, and no other, takes the value |
| DataTables.DataRow.constructor | DataHelper/XmlNodeExtensions.cs:29 | a row made by NewRow belongs to that table and has no cell set |
| DataTables.Widen | DataHelper/XmlNodeExtensions.cs:79 | padding for a grown column list: each row keeps its cells and reads DBNull in every new column (also line 105); WidenTwice and WidenToOwnWidth prove it composes and leaves a rectangular table alone |
| DataTables.Materialize | DataHelper/XmlNodeExtensions.cs:31 | the record Rows.Add stores: one cell per column, DBNull where the row never set it; RowFromWrites proves the row a walk fills holds each column's last written value |
| DataTables.CellText | DataHelper/JsonDataExtensions.cs:29 | ToString() of a cell: the string itself, and "" for DBNull |
| XmlNodeExtensions.ToDBValue | DataHelper/XmlNodeExtensions.cs:116-130 | DBNull exactly for null and the empty string; any other string is returned unchanged |
| XmlNodeExtensions.Segment | DataHelper/XmlNodeExtensions.cs:71-75 | the node name is kept exactly when the index is at most 1, and otherwise gets a suffix (`name-index`) |
| XmlNodeExtensions.PathJoin | DataHelper/XmlNodeExtensions.cs:88 | no contract; the body is the definition: the plain node name under an empty prefix, otherwise prefix-name (also the leaf-text column at line 102); EntriesUnderPrefix and IndexOnlyAttributeColumns prove what it implies |
| XmlNodeExtensions.FormatRaises | DataHelper/XmlNodeExtensions.cs:76 | no contract; the body is the definition: the code's format raises exactly under an empty parent; RootRaisesIffAttributes and EntriesOkBelowRoot prove its consequences |
| XmlNodeExtensions.AttrColumnName | DataHelper/XmlNodeExtensions.cs:76 | no contract; the body is the definition: parent-segment-attribute, and the intended segment-attribute under an empty parent; IntendedAgreesWithAsWritten and RootAttributeExample are about it |
| XmlNodeExtensions.AttributesOf | DataHelper/XmlNodeExtensions.cs:67 | no contract; the body is the definition: a node without an attribute collection has no attributes; RootRaisesIffAttributes and TextlessLeafWritesOnlyAttributes depend on it |
| XmlNodeExtensions.AttrWrite | DataHelper/XmlNodeExtensions.cs:71-81 | no contract; the body is the definition: one attribute's column name and its value through ToDBValue |
| XmlNodeExtensions.AttrWritesOf | DataHelper/XmlNodeExtensions.cs:69-82 | no contract; the body is the definition: the attribute writes in attribute order |
| XmlNodeExtensions.AttrWrites | DataHelper/XmlNodeExtensions.cs:67-83 | no contract; the body is the definition: the attribute loop, raising on the first attribute when formatting raises; AddAttributes is proved equal to it, and RootRaisesIffAttributes and IntendedAgreesWithAsWritten are about it |
| XmlNodeExtensions.SiblingIndex | DataHelper/XmlNodeExtensions.cs:89-94 | no contract; the body is the definition: the count of the child's name among the first k + 1 names; SiblingIndexMeaning proves it is 1 plus the earlier same-named siblings |
| XmlNodeExtensions.Entries | DataHelper/XmlNodeExtensions.cs:65-109 | no contract; the body is the definition of one AddData walk as its ordered cell writes, or the exception; its meaning is proved by ApplyAllColumns, ApplyAllCells, EntriesUnderPrefix, EntriesWithinDepth, IndexOnlyAttributeColumns, DepthSpentWritesOnlyAttributes and TextlessLeafWritesOnlyAttributes, and AddData is proved equal to it |
| XmlNodeExtensions.ChildWrites | DataHelper/XmlNodeExtensions.cs:89-96 | no contract; the body is the definition: the writes of the first k children in order, each with its sibling index and depth - 1; AddChildren is proved equal to it and ChildWritesUnderPrefix, ChildWritesWithinDepth are about it |
| XmlNodeExtensions.Apply | DataHelper/XmlNodeExtensions.cs:77-81 | no contract; the body is the definition: one write appends an absent column and sets the cell; ApplyAllColumns and ApplyAllCells prove the effect of a sequence of them |
| XmlNodeExtensions.ApplyAll | DataHelper/XmlNodeExtensions.cs:103-107 | no contract; the body is the definition, a left fold of Apply; ApplyAllColumns, ApplyAllColumnOrder and ApplyAllCells prove its meaning |
| XmlNodeExtensions.AppendRow | DataHelper/XmlNodeExtensions.cs:29-31 | no contract; the body is the definition: a fresh row filled by a walk's writes, materialized over the grown columns; AppendRowCells and RowFromWrites prove its meaning |
| XmlNodeExtensions.Flatten | DataHelper/XmlNodeExtensions.cs:24-34 | no contract; the body is the definition: AppendRow over the selected nodes in order, or the first exception; ToDataTable is proved equal to it and FlattenShape, FlattenColumns, FlattenCells, FlattenRaisesIff prove its meaning |
| XmlNodeExtensions.SetCell | DataHelper/XmlNodeExtensions.cs:77-81 | the column is appended only when absent, then the row's cell takes the value; the old rows are padded, never otherwise changed |
| XmlNodeExtensions.AddAttributes | DataHelper/XmlNodeExtensions.cs:67-83 | raises exactly when an attribute is formatted with an empty parent; otherwise the row ends as the attribute writes, in attribute order, leave it |
| XmlNodeExtensions.AddChildren | DataHelper/XmlNodeExtensions.cs:89-96 | each child is walked with its count among same-named siblings so far; raises exactly when the specified child writes raise, otherwise the row holds their effect |
| XmlNodeExtensions.AddData | DataHelper/XmlNodeExtensions.cs:65-109 | raises exactly when the specified walk raises; otherwise the table's columns and the row's cells are exactly the effect of the walk's writes; the table only grows and stays rectangular |
| XmlNodeExtensions.ToDataTable | DataHelper/XmlNodeExtensions.cs:24-34 | raises exactly when the flattening raises; otherwise returns a fresh rectangular table equal to the flattening of the selection |
| XmlNodeExtensions.ToDataTableDefault | DataHelper/XmlNodeExtensions.cs:24 | ToDataTable with the default depth 1 |
| XmlNodeExtensions.ShortenName | DataHelper/XmlNodeExtensions.cs:46-53 | the loop computes the specified shortening of one name, including its failures: Substring past the end, and assigning "" as a column's name |
| XmlNodeExtensions.Shorten | DataHelper/XmlNodeExtensions.cs:46-53 | no contract; the body is the definition of depth shortening steps on one name, with both failures; ShortenRaisesIff, ShortenSuffix, ShortenCompose and ShortenWithoutSeparator prove its meaning and ShortenName is proved equal to it |
| XmlNodeExtensions.ShortenColumnName | DataHelper/XmlNodeExtensions.cs:42-55 | raises exactly when shortening some column raises; otherwise column j becomes the shortening of old column j; row data and column count and order unchanged |
| XmlNodeExtensions.ShortenColumnNameDefault | DataHelper/XmlNodeExtensions.cs:42 | ShortenColumnName with the defaults depth 1 and separator "-" |
| XmlFlattenProperties.LastValueMeaning | DataHelper/XmlNodeExtensions.cs:81 | a column's final value is that of its last write (last write wins), DBNull when never written |
| XmlFlattenProperties.ApplyAllColumns | DataHelper/XmlNodeExtensions.cs:77-80 | columns only grow by appending; the new names are exactly the written ones not already present; distinct names stay distinct |
| XmlFlattenProperties.ApplyAllColumnOrder | DataHelper/XmlNodeExtensions.cs:77-80 | appended columns come in the order of their first write |
| XmlFlattenProperties.ApplyAllCells | DataHelper/XmlNodeExtensions.cs:103-107 | a written cell holds its last written value; every cell not written keeps its old value |
| XmlFlattenProperties.RowFromWrites | DataHelper/XmlNodeExtensions.cs:29-31 | a new row filled by a walk holds, for every column, the last value written to it or DBNull |
| XmlFlattenProperties.EntriesOkBelowRoot | DataHelper/XmlNodeExtensions.cs:76 | below the root, where the prefix is never empty, the walk never raises |
| XmlFlattenProperties.RootRaisesIffAttributes | DataHelper/XmlNodeExtensions.cs:76 | a selected node with a name raises if and only if it has an attribute |
| XmlFlattenProperties.IntendedNeverRaises | DataHelper/XmlNodeExtensions.cs:76 | with the intended format no walk raises |
| XmlFlattenProperties.IntendedAgreesWithAsWritten | DataHelper/XmlNodeExtensions.cs:76 | wherever the code does not raise, the intended format performs the same writes |
| XmlFlattenProperties.EntriesUnderPrefix | DataHelper/XmlNodeExtensions.cs:76 | every column written below a non-empty prefix starts with that prefix and the separator (the prefix at line 88 only extends) |
| XmlFlattenProperties.TextlessLeafWritesOnlyAttributes | DataHelper/XmlNodeExtensions.cs:99-108 | a childless node with empty text writes only its attribute cells; without attributes it changes nothing, also as a selected root under the format as written |
| XmlFlattenProperties.IndexOnlyAttributeColumns | DataHelper/XmlNodeExtensions.cs:71-102 | the sibling index reaches only the attribute columns: whatever the index, the walk succeeds alike and every write after the attribute writes is the same, because the child prefix and leaf-text column use the plain name |
| XmlFlattenProperties.DepthSpentWritesOnlyAttributes | DataHelper/XmlNodeExtensions.cs:84-86 | a node with children reached with depth <= 0 contributes exactly its attribute writes |
| XmlFlattenProperties.EntriesWithinDepth | DataHelper/XmlNodeExtensions.cs:84-97 | two nodes with the same name, attributes, text and child count write the same cells whenever their children agree down to the depth budget, so a node reached at depth 0 yields the same writes whatever its children hold |
| XmlFlattenProperties.SiblingIndexMeaning | DataHelper/XmlNodeExtensions.cs:89-95 | a child's index is 1 plus the number of earlier same-named siblings, so it is 1 exactly for the first occurrence |
| XmlFlattenProperties.SiblingIndexExample | DataHelper/XmlNodeExtensions.cs:72-75 | children x, y, x get indices 1, 1, 2 and attribute segments x, y, x-2 |
| XmlFlattenProperties.SegmentInjective | DataHelper/XmlNodeExtensions.cs:72-75 | past the first sibling, different indices give different attribute segments, so x-2 and x-3 never share a column |
| XmlFlattenProperties.TextNodeExample | DataHelper/XmlNodeExtensions.cs:84-108 | for `<r><c>txt</c></r>`, depth 1 writes nothing and depth 2 writes column r-c-#text |
| XmlFlattenProperties.FlattenShape | DataHelper/XmlNodeExtensions.cs:24-34 | one row per selected node, every row one cell per column, distinct column names; an empty selection gives no rows and no columns |
| XmlFlattenProperties.FlattenRaisesIff | DataHelper/XmlNodeExtensions.cs:27-32 | the table build raises exactly when the walk of some selected node raises |
| XmlFlattenProperties.FlattenPrefix | DataHelper/XmlNodeExtensions.cs:27-32 | the columns built from the first k nodes are a prefix of the final columns |
| XmlFlattenProperties.FlattenColumns | DataHelper/XmlNodeExtensions.cs:24-34 | a column exists exactly when some selected node's walk writes it |
| XmlFlattenProperties.FlattenCells | DataHelper/XmlNodeExtensions.cs:29-31 | cell (i, j) is the last value node i's own walk wrote to column j, or DBNull; rows are in selection order |
| XmlFlattenProperties.AppendRowCells | DataHelper/XmlNodeExtensions.cs:29-31 | a new row keeps every earlier cell, puts DBNull in the new columns of earlier rows, and appends only names not yet present |
| XmlFlattenProperties.BuiltFromStep | DataHelper/XmlNodeExtensions.cs:29-31 | adding one node's row keeps every earlier cell, fills the new columns of earlier rows with DBNull, and keeps the columns exactly the names some row writes |
| XmlFlattenProperties.RootAttributeRaises | DataHelper/XmlNodeExtensions.cs:76 | as written, any selected node with an attribute makes the table build raise |
| XmlFlattenProperties.RootAttributeExample | DataHelper/XmlNodeExtensions.cs:76 | a root with attribute a="1" at depth 0 raises as written; with the intended format it gives the one column n-a holding "1" |
| XmlFlattenProperties.IntendedFlatten | DataHelper/XmlNodeExtensions.cs:76 | with the intended format the table build never raises, and it equals the code's table wherever the code does not raise |
| XmlFlattenProperties.ShortenSuffix | DataHelper/XmlNodeExtensions.cs:48-51 | a shortened name is a suffix of the original |
| XmlFlattenProperties.ShortenWithoutSeparator | DataHelper/XmlNodeExtensions.cs:48-49 | a name without the separator is unchanged however many steps are asked for, so shortening is idempotent once no separator remains |
| XmlFlattenProperties.ShortenRaisesIff | DataHelper/XmlNodeExtensions.cs:48-51 | shortening raises exactly when: with an empty separator, depth > 0 and the name has at most depth characters; with a one-character separator c, the name ends with c and holds at most depth occurrences of c; never with a longer separator |
| XmlFlattenProperties.ShortenEmptySeparatorRaisesIff | DataHelper/XmlNodeExtensions.cs:48-51 | with an empty separator each step drops one character, and the step that empties the name raises |
| XmlFlattenProperties.ShortenCharRaisesIff | DataHelper/XmlNodeExtensions.cs:48-51 | with a one-character separator c each step drops through the first c, and the step that leaves nothing raises |
| XmlFlattenProperties.ShortenLongSeparatorNeverRaises | DataHelper/XmlNodeExtensions.cs:48-51 | a separator of two or more characters never leaves an empty name, so shortening never raises |
| XmlFlattenProperties.ShortenOutOfRangeOnlyOnEmpty | DataHelper/XmlNodeExtensions.cs:51 | Substring itself raises only for an empty name with an empty separator; every other failure is the ColumnName setter refusing "" |
| XmlFlattenProperties.CountPastFirst | DataHelper/XmlNodeExtensions.cs:48-51 | dropping through the first occurrence of c removes exactly one c |
| XmlFlattenProperties.ShortenCompose | DataHelper/XmlNodeExtensions.cs:46-53 | shortening by d1 + d2 steps equals shortening by d1 and then by d2 |
| XmlFlattenProperties.ShortenExample | DataHelper/XmlNodeExtensions.cs:42-55 | with "-", A-B-C shortens to B-C, then C, and stays C; A- raises because its one step leaves ""; with an empty separator ab shortens to b and then raises |
| JsonDataExtensions.Put | DataHelper/JsonDataExtensions.cs:52 | the key then holds the value, every other key keeps its value, and property names stay unique |
| JsonDataExtensions.ProjectMeaning | DataHelper/JsonDataExtensions.cs:46-54 | the object's keys are the kept keys, unique, in order of first keeping; each key holds the value of its last kept answer; every answer is computed from the object built by the earlier columns |
| JsonDataExtensions.ProjectKeys | DataHelper/JsonDataExtensions.cs:46-54 | the object's property names are the kept keys without repetitions, in order of first keeping |
| JsonDataExtensions.ProjectDomain | DataHelper/JsonDataExtensions.cs:46-54 | a key is present exactly when some kept answer names it |
| JsonDataExtensions.ProjectValues | DataHelper/JsonDataExtensions.cs:52 | each key holds the value of the last kept answer naming it (a later assignment overwrites) |
| JsonDataExtensions.DroppedAnswerChangesNothing | DataHelper/JsonDataExtensions.cs:50-53 | an answer the validator does not keep leaves the object unchanged |
| JsonDataExtensions.DefaultKeptKeys | DataHelper/JsonDataExtensions.cs:27-30 | the default validator keeps every column under its own name |
| JsonDataExtensions.DefaultValidator | DataHelper/JsonDataExtensions.cs:27-30 | no contract; the body is the definition: keep, under the column's own name, the cell's ToString(); DefaultKeptKeys, DefaultObject and DefaultObjectOfDistinct prove what it yields |
| JsonDataExtensions.Project | DataHelper/JsonDataExtensions.cs:46-54 | no contract; the body is the definition: the loop over the first n columns, each answer computed from the object built so far; ProjectKeys, ProjectDomain and ProjectValues prove its meaning |
| JsonDataExtensions.ObjectOf | DataHelper/JsonDataExtensions.cs:44-56 | no contract; the body is the definition, Project over all columns; ToJObject is proved equal to it and ProjectMeaning gives its keys and values |
| JsonDataExtensions.DefaultObject | DataHelper/JsonDataExtensions.cs:27-30 | with the default validator the keys are the distinct column names in column order, each holding the text of its last cell (DBNull as "") |
| JsonDataExtensions.DefaultObjectOfDistinct | DataHelper/JsonDataExtensions.cs:27-30 | with distinct column names the keys are exactly the columns and each holds its own cell's text |
| JsonDataExtensions.ToJObject | DataHelper/JsonDataExtensions.cs:44-56 | the loop returns the projection of the row; the result has unique keys in order of first keeping |
| JsonDataExtensions.ToJObjectDefault | DataHelper/JsonDataExtensions.cs:63-66 | equals the projection with the default validator; with distinct columns, keys are the columns and values the cell texts |
| JsonDataExtensions.ToJArray | DataHelper/JsonDataExtensions.cs:74-82 | one object per table row, in row order; element i is the projection of row i |
| JsonDataExtensions.ToJArrayDefault | DataHelper/JsonDataExtensions.cs:89-92 | the same with the default validator |
| JsonDataExtensions.RowsToJArray | DataHelper/JsonDataExtensions.cs:100-108 | one object per array element, in order; element i is the projection of row i |
| JsonDataExtensions.RowsToJArrayDefault | DataHelper/JsonDataExtensions.cs:115-118 | the same with the default validator |

## Left out

- XPath evaluation (`SelectNodes`, line 27 of XmlNodeExtensions.cs) is a library call. The selected nodes are an input sequence.
- `InnerText` concatenates the text of all descendants. It is read only for childless nodes, where it is the node's own text, so a node carries that text directly.
- DataColumnCollection's case-insensitive `Contains` is not modelled. The model finds columns by exact name.
- The `DuplicateNameException` .NET raises when two columns get equal names is not modelled. `ShortenColumnName` can make two names equal, and the model renames anyway.
- `IndexOf` is culture-sensitive in .NET. The model uses ordinal substring search.
- ToDBValue: only strings and null are modelled. AddData passes nothing else, so the pass-through of other objects is left out.
- JToken typing and JSON serialisation are not modelled. Values have an abstract type `V`. The default validator's value is the string token of the cell's `ToString()`, where DBNull gives "".
- In .NET, `DefaultValidator` is a settable static property. The model uses its initial value, and every parameterless overload passes it explicitly.
- A validator in the model is a pure function. The side effects a .NET validator could have on the object it receives are not modelled.
- Null keys from a validator, null rows in a row array and null separators or names are not modelled. .NET raises on each.
- ToJObject: each cell is read by position. .NET reads it by column name, which gives the same cell because a table's column names are unique.
- AddData: when it raises, the contract states only that the table grew and stayed rectangular. It does not state which cells were already written, and ToDataTable discards that table anyway.
- ToDataTable: when it raises, the contract says nothing about the partly built table. In .NET the exception propagates and the table is lost.
- ShortenColumnName: names and separators are modelled as sequences of Unicode characters, while .NET strings are UTF-16 code units. For a character outside the Basic Multilingual Plane (two code units in .NET), the code's `IndexOf`, `Length` and one-unit `Substring` step can keep a lone surrogate where the model drops the whole character, so the results and the raise condition (`ShortenRaisesIff`, `ShortenEmptySeparatorRaisesIff`) hold only for text inside that plane.
- ShortenColumnName: when shortening a column raises, the contract does not state which columns were already renamed.
- ShortenColumnName: a column of a .NET table never has the name "" (the setter refuses it), so the `Substring` failure on an empty name cannot occur there. The model does not require non-empty names and keeps that failure for such input.
- The projection models only DBNull and string cells. A `DataTable` or `DataRow[]` given to `ToJObject` or `ToJArray` can hold other values (numbers, dates) whose `ToString()` depends on the culture; those values are not modelled.

## Findings

| source | as written | input that shows it | evidently intended | confidence | as-written member | corrected member |
|---|---|---|---|---|---|---|
| DataHelper/XmlNodeExtensions.cs:76 | with an empty parent, the attribute column name is formatted with placeholders 1 and 2 but only two arguments (indices 0 and 1), so string.Format raises a FormatException | a selected node with attribute a="1" and a child, at depth 0: ToDataTable raises | placeholders 0 and 1: the column n-a holding "1" | not executed | XmlFlattenProperties.RootAttributeExample | XmlFlattenProperties.IntendedFlatten |

The methods model the code as written: AddData and ToDataTable report this failure. The table lemmas (`FlattenShape`, `FlattenColumns`, `FlattenCells` and the others) are stated for both formats.
