/**
 * What the flattening engine of DataHelper/XmlNodeExtensions.cs promises,
 * proved about the functions that its methods are verified against.
 */
module XmlFlattenProperties {
  import opened Utils
  import opened DataTables
  import opened XmlNodeExtensions

  // ---------------------------------------------------------------------------
  // Columns and cells after a sequence of writes
  // ---------------------------------------------------------------------------

  predicate WrittenTo(ws: seq<Write>, c: string) {
    exists i :: 0 <= i < |ws| && ws[i].column == c
  }

  /** The value of the last write to column c; DBNull when nothing writes c. */
  function LastValue(ws: seq<Write>, c: string): (r: Cell)
    decreases |ws|
  {
    if ws == [] then DbNull
    else if ws[|ws| - 1].column == c then ws[|ws| - 1].value
    else LastValue(ws[..|ws| - 1], c)
  }

  /** Write i is the last one to its column. */
  predicate LastWriteAt(ws: seq<Write>, i: int)
    requires 0 <= i < |ws|
  {
    forall j :: i < j < |ws| ==> ws[j].column != ws[i].column
  }

  lemma WrittenToSnoc(ws: seq<Write>)
    requires ws != []
    ensures forall c :: WrittenTo(ws, c) <==> WrittenTo(ws[..|ws| - 1], c) || ws[|ws| - 1].column == c
  {
    var init := ws[..|ws| - 1];
    forall c ensures WrittenTo(ws, c) <==> WrittenTo(init, c) || ws[|ws| - 1].column == c {
      if WrittenTo(init, c) {
        var i :| 0 <= i < |init| && init[i].column == c;
        assert ws[i].column == c;
      }
      if WrittenTo(ws, c) {
        var i :| 0 <= i < |ws| && ws[i].column == c;
        if i < |init| {
          assert init[i].column == c;
        }
      }
    }
  }

  /** LastValue is the value of the write to c after which no write to c follows. */
  lemma {:induction false} LastValueMeaning(ws: seq<Write>, c: string)
    ensures !WrittenTo(ws, c) ==> LastValue(ws, c) == DbNull
    ensures forall i :: 0 <= i < |ws| && ws[i].column == c && LastWriteAt(ws, i) ==> LastValue(ws, c) == ws[i].value
    decreases |ws|
  {
    if ws != [] {
      var init := ws[..|ws| - 1];
      LastValueMeaning(init, c);
      WrittenToSnoc(ws);
      forall i | 0 <= i < |ws| && ws[i].column == c && LastWriteAt(ws, i)
        ensures LastValue(ws, c) == ws[i].value
      {
        if i < |ws| - 1 {
          assert ws[|ws| - 1].column != c;
          assert init[i] == ws[i];
          assert LastWriteAt(init, i);
        }
      }
    }
  }

  /**
   * Columns only grow, by appending names that were absent, so distinct
   * names stay distinct; the new names are exactly the written ones.
   */
  lemma {:induction false} ApplyAllColumns(st: RowState, ws: seq<Write>)
    ensures var cs := ApplyAll(st, ws).columns;
      st.columns <= cs &&
      (forall c :: c in cs <==> c in st.columns || WrittenTo(ws, c)) &&
      (forall p, q :: 0 <= p < q < |cs| && |st.columns| <= q ==> cs[p] != cs[q])
    ensures Distinct(st.columns) ==> Distinct(ApplyAll(st, ws).columns)
    decreases |ws|
  {
    if ws != [] {
      ApplyAllColumns(st, ws[..|ws| - 1]);
      WrittenToSnoc(ws);
    }
  }

  /** Index of the first write to c. */
  function FirstWrite(ws: seq<Write>, c: string): (i: nat)
    requires WrittenTo(ws, c)
    ensures i < |ws| && ws[i].column == c
    ensures forall j :: 0 <= j < i ==> ws[j].column != c
    decreases |ws|
  {
    WrittenToSnoc(ws);
    if WrittenTo(ws[..|ws| - 1], c) then FirstWrite(ws[..|ws| - 1], c) else |ws| - 1
  }

  /** The appended column names come in the order of their first write. */
  lemma {:induction false} ApplyAllColumnOrder(st: RowState, ws: seq<Write>)
    ensures var cs := ApplyAll(st, ws).columns;
      forall p, q :: |st.columns| <= p < q < |cs| ==>
        WrittenTo(ws, cs[p]) && WrittenTo(ws, cs[q]) && FirstWrite(ws, cs[p]) < FirstWrite(ws, cs[q])
    decreases |ws|
  {
    ApplyAllColumns(st, ws);
    if ws != [] {
      var init := ws[..|ws| - 1];
      var w := ws[|ws| - 1];
      ApplyAllColumnOrder(st, init);
      ApplyAllColumns(st, init);
      WrittenToSnoc(ws);
      var cs0, cs := ApplyAll(st, init).columns, ApplyAll(st, ws).columns;
      forall p, q | |st.columns| <= p < q < |cs|
        ensures WrittenTo(ws, cs[p]) && WrittenTo(ws, cs[q]) && FirstWrite(ws, cs[p]) < FirstWrite(ws, cs[q])
      {
        assert cs[p] !in st.columns by {
          forall m | 0 <= m < |st.columns| ensures st.columns[m] != cs[p] {
            assert cs[m] == st.columns[m];
          }
        }
        if q < |cs0| {
          assert cs[p] == cs0[p] && cs[q] == cs0[q];
          assert cs0[p] !in st.columns by {
            forall m | 0 <= m < |st.columns| ensures st.columns[m] != cs0[p] {
              assert cs0[m] == st.columns[m];
            }
          }
          assert cs0[q] !in st.columns by {
            forall m | 0 <= m < |st.columns| ensures st.columns[m] != cs0[q] {
              assert cs0[m] == st.columns[m];
            }
          }
          assert cs0[p] in cs0 && cs0[q] in cs0;
        } else {
          assert cs == cs0 + [w.column] && w.column !in cs0;
          assert cs[p] == cs0[p] && cs0[p] in cs0;
          assert cs0[p] !in st.columns;
          assert WrittenTo(init, cs[p]);
          assert !WrittenTo(init, cs[q]);
        }
      }
    }
  }

  /**
   * A cell written by ws ends with the value of its last write (last write
   * wins); every other cell is left as it was.
   */
  lemma {:induction false} ApplyAllCells(st: RowState, ws: seq<Write>)
    ensures forall c :: c in ApplyAll(st, ws).cells <==> c in st.cells || WrittenTo(ws, c)
    ensures forall c :: WrittenTo(ws, c) ==> ApplyAll(st, ws).cells[c] == LastValue(ws, c)
    ensures forall c :: c in st.cells && !WrittenTo(ws, c) ==> ApplyAll(st, ws).cells[c] == st.cells[c]
    decreases |ws|
  {
    if ws != [] {
      ApplyAllCells(st, ws[..|ws| - 1]);
      WrittenToSnoc(ws);
    }
  }

  /** A row filled from no cells holds, for each column, the last value written to it. */
  lemma RowFromWrites(columns: seq<string>, ws: seq<Write>)
    ensures var st := ApplyAll(RowState(columns, map[]), ws);
      forall c :: Lookup(st.cells, c) == LastValue(ws, c)
  {
    ApplyAllCells(RowState(columns, map[]), ws);
    forall c ensures Lookup(ApplyAll(RowState(columns, map[]), ws).cells, c) == LastValue(ws, c) {
      LastValueMeaning(ws, c);
    }
  }

  // ---------------------------------------------------------------------------
  // The walk
  // ---------------------------------------------------------------------------

  /** Below the root the prefix is never empty, so the walk cannot raise there. */
  lemma {:induction false} EntriesOkBelowRoot(fmt: AttrFormat, node: Node, parent: string, index: int, depth: int)
    requires parent != ""
    ensures Entries(fmt, node, parent, index, depth).Ok?
    decreases node, 1
  {
    if |node.children| > 0 && depth > 0 {
      ChildWritesOkBelowRoot(fmt, node, |node.children|, PathJoin(parent, node.name), depth - 1);
    }
  }

  lemma {:induction false} ChildWritesOkBelowRoot(fmt: AttrFormat, node: Node, k: nat, parent: string, depth: int)
    requires k <= |node.children| && parent != ""
    ensures ChildWrites(fmt, node, k, parent, depth).Ok?
    decreases node, 0, k
  {
    if k > 0 {
      ChildWritesOkBelowRoot(fmt, node, k - 1, parent, depth);
      EntriesOkBelowRoot(fmt, node.children[k - 1], parent, SiblingIndex(node.children, k - 1), depth);
    }
  }

  /**
   * As written, flattening a root node with a non-empty name raises exactly
   * when the node has an attribute (line 76).
   */
  lemma RootRaisesIffAttributes(node: Node, index: int, depth: int)
    requires node.name != ""
    ensures Entries(AsWritten, node, "", index, depth).Err? <==> |AttributesOf(node)| > 0
  {
    if |node.children| > 0 && depth > 0 {
      ChildWritesOkBelowRoot(AsWritten, node, |node.children|, node.name, depth - 1);
    }
  }

  /** The intended format never raises. */
  lemma {:induction false} IntendedNeverRaises(node: Node, parent: string, index: int, depth: int)
    ensures Entries(Intended, node, parent, index, depth).Ok?
    decreases node, 1
  {
    if |node.children| > 0 && depth > 0 {
      IntendedChildrenNeverRaise(node, |node.children|, PathJoin(parent, node.name), depth - 1);
    }
  }

  lemma {:induction false} IntendedChildrenNeverRaise(node: Node, k: nat, parent: string, depth: int)
    requires k <= |node.children|
    ensures ChildWrites(Intended, node, k, parent, depth).Ok?
    decreases node, 0, k
  {
    if k > 0 {
      IntendedChildrenNeverRaise(node, k - 1, parent, depth);
      IntendedNeverRaises(node.children[k - 1], parent, SiblingIndex(node.children, k - 1), depth);
    }
  }

  /** Wherever the code as written does not raise, the intended format writes the same cells. */
  lemma {:induction false} IntendedAgreesWithAsWritten(node: Node, parent: string, index: int, depth: int)
    requires Entries(AsWritten, node, parent, index, depth).Ok?
    ensures Entries(Intended, node, parent, index, depth) == Entries(AsWritten, node, parent, index, depth)
    decreases node, 1
  {
    if |node.children| > 0 && depth > 0 {
      IntendedChildrenAgree(node, |node.children|, PathJoin(parent, node.name), depth - 1);
    }
  }

  lemma {:induction false} IntendedChildrenAgree(node: Node, k: nat, parent: string, depth: int)
    requires k <= |node.children|
    requires ChildWrites(AsWritten, node, k, parent, depth).Ok?
    ensures ChildWrites(Intended, node, k, parent, depth) == ChildWrites(AsWritten, node, k, parent, depth)
    decreases node, 0, k
  {
    if k > 0 {
      IntendedChildrenAgree(node, k - 1, parent, depth);
      IntendedAgreesWithAsWritten(node.children[k - 1], parent, SiblingIndex(node.children, k - 1), depth);
    }
  }

  /**
   * Every column a node below the root produces starts with its parent path
   * and the separator: the prefix is only ever extended.
   */
  lemma {:induction false} EntriesUnderPrefix(fmt: AttrFormat, node: Node, parent: string, index: int, depth: int)
    requires parent != ""
    ensures Entries(fmt, node, parent, index, depth).Ok?
    ensures forall w :: w in Entries(fmt, node, parent, index, depth).value ==> parent + "-" <= w.column
    decreases node, 1
  {
    EntriesOkBelowRoot(fmt, node, parent, index, depth);
    var seg := Segment(node.name, index);
    forall a | a in AttributesOf(node) ensures parent + "-" <= AttrWrite(parent, seg, a).column {
      assert AttrWrite(parent, seg, a).column == (parent + "-") + (seg + "-" + a.name);
    }
    if |node.children| > 0 && depth > 0 {
      var p := PathJoin(parent, node.name);
      ChildWritesUnderPrefix(fmt, node, |node.children|, p, depth - 1);
      forall w | w in ChildWrites(fmt, node, |node.children|, p, depth - 1).value ensures parent + "-" <= w.column {
        assert p + "-" == (parent + "-") + (node.name + "-");
        assert p + "-" <= w.column;
      }
    } else if |node.children| == 0 && node.text != "" {
      assert PathJoin(parent, node.name) == (parent + "-") + node.name;
    }
  }

  lemma {:induction false} ChildWritesUnderPrefix(fmt: AttrFormat, node: Node, k: nat, parent: string, depth: int)
    requires k <= |node.children| && parent != ""
    ensures ChildWrites(fmt, node, k, parent, depth).Ok?
    ensures forall w :: w in ChildWrites(fmt, node, k, parent, depth).value ==> parent + "-" <= w.column
    decreases node, 0, k
  {
    ChildWritesOkBelowRoot(fmt, node, k, parent, depth);
    if k > 0 {
      ChildWritesUnderPrefix(fmt, node, k - 1, parent, depth);
      EntriesUnderPrefix(fmt, node.children[k - 1], parent, SiblingIndex(node.children, k - 1), depth);
    }
  }

  /**
   * The sibling index reaches only the attribute columns: the child prefix
   * and the leaf-text column use the plain node name, so every write after
   * the attribute writes is the same whatever the index.
   */
  lemma IndexOnlyAttributeColumns(fmt: AttrFormat, node: Node, parent: string, i1: int, i2: int, depth: int)
    requires Entries(fmt, node, parent, i1, depth).Ok?
    ensures Entries(fmt, node, parent, i2, depth).Ok?
    ensures var v1, v2 := Entries(fmt, node, parent, i1, depth).value, Entries(fmt, node, parent, i2, depth).value;
      |AttributesOf(node)| <= |v1| && |v1| == |v2| && v1[|AttributesOf(node)|..] == v2[|AttributesOf(node)|..]
  {
    var n := |AttributesOf(node)|;
    var a1 := AttrWritesOf(AttributesOf(node), parent, Segment(node.name, i1));
    var a2 := AttrWritesOf(AttributesOf(node), parent, Segment(node.name, i2));
    var v1, v2 := Entries(fmt, node, parent, i1, depth).value, Entries(fmt, node, parent, i2, depth).value;
    assert v1[..n] == a1 && v2[..n] == a2;
    assert v1[n..] == v2[n..];
  }

  /** A node with children reached when the depth budget is spent contributes only its attribute cells. */
  lemma DepthSpentWritesOnlyAttributes(fmt: AttrFormat, node: Node, parent: string, index: int, depth: int)
    requires |node.children| > 0 && depth <= 0
    ensures Entries(fmt, node, parent, index, depth) == AttrWrites(fmt, AttributesOf(node), parent, Segment(node.name, index))
  {
  }

  /** A childless node without text writes only its attribute cells, and nothing at all without attributes. */
  lemma TextlessLeafWritesOnlyAttributes(fmt: AttrFormat, node: Node, parent: string, index: int, depth: int, st: RowState)
    requires node.children == [] && node.text == ""
    requires !FormatRaises(fmt, parent) || AttributesOf(node) == []
    ensures Entries(fmt, node, parent, index, depth) == Ok(AttrWritesOf(AttributesOf(node), parent, Segment(node.name, index)))
    ensures AttributesOf(node) == [] ==> ApplyAll(st, Entries(fmt, node, parent, index, depth).value) == st
  {
  }

  /**
   * a and b agree on everything a walk with this depth budget reads: name,
   * attributes, text, number of children and, while depth remains, the
   * children themselves.
   */
  predicate SameWithin(a: Node, b: Node, depth: int)
    decreases a, 1, 0
  {
    a.name == b.name && a.attributes == b.attributes && a.text == b.text &&
    |a.children| == |b.children| &&
    (depth > 0 ==> ChildrenSameWithin(a, b, depth - 1, |a.children|))
  }

  /** The first k children of a and b agree pairwise within depth. */
  predicate ChildrenSameWithin(a: Node, b: Node, depth: int, k: nat)
    requires k <= |a.children| && k <= |b.children|
    decreases a, 0, k
  {
    k == 0 || (ChildrenSameWithin(a, b, depth, k - 1) && SameWithin(a.children[k - 1], b.children[k - 1], depth))
  }

  lemma {:induction false} NamesAgree(a: Node, b: Node, depth: int, k: nat)
    requires k <= |a.children| && k <= |b.children| && ChildrenSameWithin(a, b, depth, k)
    ensures Names(a.children[..k]) == Names(b.children[..k])
    decreases k
  {
    if k > 0 {
      NamesAgree(a, b, depth, k - 1);
      NamesSnoc(a.children, k - 1);
      NamesSnoc(b.children, k - 1);
    }
  }

  /**
   * Depth bound: the cells of a walk depend only on what lies within the
   * depth budget. A node reached with depth 0 contributes the same cells
   * whatever its children hold.
   */
  lemma {:induction false} EntriesWithinDepth(fmt: AttrFormat, a: Node, b: Node, parent: string, index: int, depth: int)
    requires SameWithin(a, b, depth)
    ensures Entries(fmt, a, parent, index, depth) == Entries(fmt, b, parent, index, depth)
    decreases a, 1
  {
    if |a.children| > 0 && depth > 0 {
      ChildWritesWithinDepth(fmt, a, b, |a.children|, PathJoin(parent, a.name), depth - 1);
    }
    EntriesAgree(fmt, a, b, parent, index, depth);
  }

  /** Entries of two nodes agree when their own parts and, depth permitting, their children's writes do. */
  lemma EntriesAgree(fmt: AttrFormat, a: Node, b: Node, parent: string, index: int, depth: int)
    requires a.name == b.name && a.attributes == b.attributes && a.text == b.text && |a.children| == |b.children|
    requires |a.children| > 0 && depth > 0 ==>
      ChildWrites(fmt, a, |a.children|, PathJoin(parent, a.name), depth - 1) ==
      ChildWrites(fmt, b, |b.children|, PathJoin(parent, b.name), depth - 1)
    ensures Entries(fmt, a, parent, index, depth) == Entries(fmt, b, parent, index, depth)
  {
    assert AttributesOf(a) == AttributesOf(b);
  }

  lemma {:induction false} ChildWritesWithinDepth(fmt: AttrFormat, a: Node, b: Node, k: nat, parent: string, depth: int)
    requires k <= |a.children| && k <= |b.children| && ChildrenSameWithin(a, b, depth, k)
    ensures ChildWrites(fmt, a, k, parent, depth) == ChildWrites(fmt, b, k, parent, depth)
    decreases a, 0, k
  {
    if k > 0 {
      ChildWritesWithinDepth(fmt, a, b, k - 1, parent, depth);
      NamesAgree(a, b, depth, k);
      var index := SiblingIndex(a.children, k - 1);
      assert SiblingIndex(b.children, k - 1) == index;
      EntriesWithinDepth(fmt, a.children[k - 1], b.children[k - 1], parent, index, depth);
      ChildWritesStepAgree(fmt, a, b, k, parent, index, depth);
    }
  }

  /** ChildWrites of two nodes agree on k children when they agree on k - 1 and on child k. */
  lemma ChildWritesStepAgree(fmt: AttrFormat, a: Node, b: Node, k: nat, parent: string, index: nat, depth: int)
    requires 0 < k <= |a.children| && k <= |b.children|
    requires SiblingIndex(a.children, k - 1) == index && SiblingIndex(b.children, k - 1) == index
    requires ChildWrites(fmt, a, k - 1, parent, depth) == ChildWrites(fmt, b, k - 1, parent, depth)
    requires Entries(fmt, a.children[k - 1], parent, index, depth) == Entries(fmt, b.children[k - 1], parent, index, depth)
    ensures ChildWrites(fmt, a, k, parent, depth) == ChildWrites(fmt, b, k, parent, depth)
  {
  }

  // ---------------------------------------------------------------------------
  // Sibling numbering
  // ---------------------------------------------------------------------------

  lemma CountSnoc<T>(s: seq<T>, x: T, y: T)
    ensures Count(s + [y], x) == Count(s, x) + (if y == x then 1 else 0)
  {
    assert (s + [y])[..|s|] == s;
  }

  /**
   * Child k's index is one more than the number of earlier siblings with its
   * name; it is 1 exactly for the first child of that name.
   */
  lemma SiblingIndexMeaning(children: seq<Node>, k: nat)
    requires k < |children|
    ensures SiblingIndex(children, k) == 1 + Count(Names(children[..k]), children[k].name)
    ensures SiblingIndex(children, k) == 1 <==> forall j :: 0 <= j < k ==> children[j].name != children[k].name
  {
    NamesSnoc(children, k);
    CountSnoc(Names(children[..k]), children[k].name, children[k].name);
    var names := Names(children[..k]);
    if exists j :: 0 <= j < k && children[j].name == children[k].name {
      var j :| 0 <= j < k && children[j].name == children[k].name;
      assert names[j] == children[k].name;
    }
  }

  /** Past the first sibling, different indices give different attribute segments (x-2 is not x-3). */
  lemma SegmentInjective(name: string, i: int, j: int)
    requires i > 1 && j > 1 && Segment(name, i) == Segment(name, j)
    ensures i == j
  {
    var p := name + "-";
    assert Segment(name, i)[|p|..] == DecimalString(i);
    assert Segment(name, j)[|p|..] == DecimalString(j);
    DecimalStringInjective(i, j);
  }

  /** Children x, y, x get indices 1, 1, 2, hence attribute segments x, y, x-2. */
  lemma SiblingIndexExample()
    ensures var cs := [Node("x", Some([]), [], ""), Node("y", Some([]), [], ""), Node("x", Some([]), [], "")];
      SiblingIndex(cs, 0) == 1 && SiblingIndex(cs, 1) == 1 && SiblingIndex(cs, 2) == 2 &&
      Segment(cs[0].name, 1) == "x" && Segment(cs[1].name, 1) == "y" && Segment(cs[2].name, 2) == "x-2"
  {
    var cs := [Node("x", Some([]), [], ""), Node("y", Some([]), [], ""), Node("x", Some([]), [], "")];
    var names := ["x", "y", "x"];
    assert Names(cs) == names;
    assert cs[..1] == cs[..3][..1] && cs[..2] == cs[..3][..2] && cs[..3] == cs;
    assert Names(cs[..1]) == names[..1] == ["x"];
    assert Names(cs[..2]) == names[..2] == ["x", "y"];
    assert ["x", "y"][..1] == ["x"] && ["x"][..0] == [] && names[..2] == ["x", "y"];
    assert Count(["x"], "x") == 1 && Count(["x"], "y") == 0;
    assert Count(["x", "y"], "y") == 1;
    assert Count(names, "x") == 2;
    assert Digit(2) == '2';
    assert DecimalString(2) == "2";
  }

  /**
   * In the DOM a text is a child named "#text": <r><c>txt</c></r> yields
   * nothing at depth 1 and the column r-c-#text at depth 2.
   */
  lemma TextNodeExample()
    ensures var r := Node("r", Some([]), [Node("c", Some([]), [Node("#text", None, [], "txt")], "txt")], "txt");
      Entries(AsWritten, r, "", 1, 1) == Ok([]) &&
      Entries(AsWritten, r, "", 1, 2) == Ok([Write("r-c-#text", Str("txt"))])
  {
    var t := Node("#text", None, [], "txt");
    var c := Node("c", Some([]), [t], "txt");
    var r := Node("r", Some([]), [c], "txt");
    assert SiblingIndex([c], 0) == 1 by {
      assert [c][..1] == [c];
      assert Names([c]) == ["c"];
      CountSnoc([], "c", "c");
    }
    assert SiblingIndex([t], 0) == 1 by {
      assert [t][..1] == [t];
      assert Names([t]) == ["#text"];
      CountSnoc([], "#text", "#text");
    }
    assert AttrWritesOf([], "r-c", "#text") == [] && AttrWritesOf([], "r", "c") == [] && AttrWritesOf([], "", "r") == [];
    assert PathJoin("", "r") == "r" && PathJoin("r", "c") == "r-c" && PathJoin("r-c", "#text") == "r-c-#text";
    assert ToDBValue(Some("txt")) == Str("txt");
    assert AttributesOf(t) == [] && Segment("#text", 1) == "#text";
    assert AttrWrites(AsWritten, [], "r-c", "#text") == Ok([]);
    assert [] + [Write("r-c-#text", Str("txt"))] == [Write("r-c-#text", Str("txt"))];
    assert Entries(AsWritten, t, "r-c", 1, 0) == Ok([Write("r-c-#text", Str("txt"))]);
    assert ChildWrites(AsWritten, c, 1, "r-c", 0) == Ok([Write("r-c-#text", Str("txt"))]);
    assert Entries(AsWritten, c, "r", 1, 1) == Ok([Write("r-c-#text", Str("txt"))]);
    assert ChildWrites(AsWritten, r, 1, "r", 1) == Ok([Write("r-c-#text", Str("txt"))]);
    assert [] + [Write("r-c-#text", Str("txt"))] == [Write("r-c-#text", Str("txt"))];
    assert Entries(AsWritten, r, "", 1, 2) == Ok([Write("r-c-#text", Str("txt"))]);
    assert Entries(AsWritten, c, "r", 1, 0) == Ok([]);
    assert ChildWrites(AsWritten, r, 0, "r", 0) == Ok([]);
    assert r.children[0] == c && SiblingIndex(r.children, 0) == 1;
    var empty: seq<Write> := [];
    assert empty + empty == empty;
    assert ChildWrites(AsWritten, r, 1, "r", 0) == Ok([]);
  }

  // ---------------------------------------------------------------------------
  // The whole table
  // ---------------------------------------------------------------------------

  /** The writes of one selected node's row; none when its walk raises. */
  function RowWrites(fmt: AttrFormat, node: Node, depth: int): (r: seq<Write>) {
    match Entries(fmt, node, "", 1, depth)
    case Ok(ws) => ws
    case Err(_) => []
  }

  /**
   * One row per selected node, one cell per column in every row, distinct
   * column names; no selected node gives no rows and no columns.
   */
  lemma {:induction false} FlattenShape(fmt: AttrFormat, nodes: seq<Node>, depth: int)
    requires Flatten(fmt, nodes, depth).Ok?
    ensures var t := Flatten(fmt, nodes, depth).value;
      |t.rows| == |nodes| && Rectangular(|t.columns|, t.rows) && Distinct(t.columns) &&
      (nodes == [] ==> t.columns == [])
    decreases |nodes|
  {
    if nodes != [] {
      var init := nodes[..|nodes| - 1];
      FlattenShape(fmt, init, depth);
      var t := Flatten(fmt, init, depth).value;
      ApplyAllColumns(RowState(t.columns, map[]), Entries(fmt, nodes[|nodes| - 1], "", 1, depth).value);
    }
  }

  /** The walk results of the selected nodes, in selection order. */
  function AllEntries(fmt: AttrFormat, nodes: seq<Node>, depth: int): (r: seq<Result<seq<Write>>>)
    ensures |r| == |nodes|
    ensures forall i :: 0 <= i < |nodes| ==> r[i] == Entries(fmt, nodes[i], "", 1, depth)
  {
    seq(|nodes|, i requires 0 <= i < |nodes| => Entries(fmt, nodes[i], "", 1, depth))
  }

  /** Some result among rs is an exception. */
  predicate SomeRaises(rs: seq<Result<seq<Write>>>)
    decreases |rs|
  {
    rs != [] && (SomeRaises(rs[..|rs| - 1]) || rs[|rs| - 1].Err?)
  }

  lemma {:induction false} SomeRaisesMeaning(rs: seq<Result<seq<Write>>>)
    ensures SomeRaises(rs) <==> exists i :: 0 <= i < |rs| && rs[i].Err?
    decreases |rs|
  {
    if rs != [] {
      var init := rs[..|rs| - 1];
      SomeRaisesMeaning(init);
      if exists i :: 0 <= i < |init| && init[i].Err? {
        var i :| 0 <= i < |init| && init[i].Err?;
        assert rs[i].Err?;
      }
      if exists i :: 0 <= i < |rs| && rs[i].Err? {
        var i :| 0 <= i < |rs| && rs[i].Err?;
        if i < |init| {
          assert init[i].Err?;
        }
      }
    }
  }

  lemma {:induction false} FlattenRaisesByRows(fmt: AttrFormat, nodes: seq<Node>, depth: int)
    ensures Flatten(fmt, nodes, depth).Err? <==> SomeRaises(AllEntries(fmt, nodes, depth))
    decreases |nodes|
  {
    if nodes != [] {
      var init := nodes[..|nodes| - 1];
      FlattenRaisesByRows(fmt, init, depth);
      var rs := AllEntries(fmt, nodes, depth);
      assert rs[..|rs| - 1] == AllEntries(fmt, init, depth);
    }
  }

  /** ToDataTable raises exactly when the walk of some selected node raises. */
  lemma FlattenRaisesIff(fmt: AttrFormat, nodes: seq<Node>, depth: int)
    ensures Flatten(fmt, nodes, depth).Err? <==> exists i :: 0 <= i < |nodes| && Entries(fmt, nodes[i], "", 1, depth).Err?
  {
    FlattenRaisesByRows(fmt, nodes, depth);
    var rs := AllEntries(fmt, nodes, depth);
    SomeRaisesMeaning(rs);
    if exists i :: 0 <= i < |nodes| && Entries(fmt, nodes[i], "", 1, depth).Err? {
      var i :| 0 <= i < |nodes| && Entries(fmt, nodes[i], "", 1, depth).Err?;
      assert rs[i].Err?;
    }
  }

  /**
   * The columns of a prefix of the selection are a prefix of the columns:
   * columns only grow as rows are added.
   */
  lemma {:induction false} FlattenPrefix(fmt: AttrFormat, nodes: seq<Node>, depth: int, k: nat)
    requires k <= |nodes| && Flatten(fmt, nodes, depth).Ok?
    ensures Flatten(fmt, nodes[..k], depth).Ok?
    ensures Flatten(fmt, nodes[..k], depth).value.columns <= Flatten(fmt, nodes, depth).value.columns
    decreases |nodes|
  {
    if k == |nodes| {
      assert nodes[..k] == nodes;
    } else {
      var init := nodes[..|nodes| - 1];
      var t := Flatten(fmt, init, depth).value;
      ApplyAllColumns(RowState(t.columns, map[]), Entries(fmt, nodes[|nodes| - 1], "", 1, depth).value);
      assert init[..k] == nodes[..k];
      FlattenPrefix(fmt, init, depth, k);
    }
  }

  /** The writes of every selected node's row, in selection order. */
  function AllRowWrites(fmt: AttrFormat, nodes: seq<Node>, depth: int): (r: seq<seq<Write>>)
    ensures |r| == |nodes|
    ensures forall i :: 0 <= i < |nodes| ==> r[i] == RowWrites(fmt, nodes[i], depth)
  {
    seq(|nodes|, i requires 0 <= i < |nodes| => RowWrites(fmt, nodes[i], depth))
  }

  /** Some row's writes write column c. */
  predicate WrittenBySome(rws: seq<seq<Write>>, c: string) {
    exists i :: 0 <= i < |rws| && WrittenTo(rws[i], c)
  }

  lemma WrittenBySomeSnoc(rws: seq<seq<Write>>, c: string)
    requires rws != []
    ensures WrittenBySome(rws, c) <==> WrittenBySome(rws[..|rws| - 1], c) || WrittenTo(rws[|rws| - 1], c)
  {
    var init := rws[..|rws| - 1];
    if WrittenBySome(init, c) {
      var i :| 0 <= i < |init| && WrittenTo(init[i], c);
      assert rws[i] == init[i];
    }
  }

  lemma AllRowWritesSnoc(fmt: AttrFormat, nodes: seq<Node>, depth: int)
    requires nodes != []
    ensures AllRowWrites(fmt, nodes, depth)[..|nodes| - 1] == AllRowWrites(fmt, nodes[..|nodes| - 1], depth)
    ensures AllRowWrites(fmt, nodes, depth) ==
      AllRowWrites(fmt, nodes[..|nodes| - 1], depth) + [RowWrites(fmt, nodes[|nodes| - 1], depth)]
  {
  }

  /** One more selected node adds its row to the table of the others. */
  lemma FlattenSnoc(fmt: AttrFormat, nodes: seq<Node>, depth: int)
    requires nodes != [] && Flatten(fmt, nodes, depth).Ok?
    ensures Flatten(fmt, nodes[..|nodes| - 1], depth).Ok?
    ensures Entries(fmt, nodes[|nodes| - 1], "", 1, depth).Ok?
    ensures Flatten(fmt, nodes, depth).value ==
      AppendRow(Flatten(fmt, nodes[..|nodes| - 1], depth).value, RowWrites(fmt, nodes[|nodes| - 1], depth))
  {
  }

  /** The columns are exactly the names some row's walk writes. */
  lemma {:induction false} FlattenColumns(fmt: AttrFormat, nodes: seq<Node>, depth: int)
    requires Flatten(fmt, nodes, depth).Ok?
    ensures forall c :: c in Flatten(fmt, nodes, depth).value.columns <==>
      exists i :: 0 <= i < |nodes| && WrittenTo(RowWrites(fmt, nodes[i], depth), c)
    decreases |nodes|
  {
    FlattenBuiltFrom(fmt, nodes, depth);
    var rws := AllRowWrites(fmt, nodes, depth);
    forall c ensures WrittenBySome(rws, c) <==> exists i :: 0 <= i < |nodes| && WrittenTo(RowWrites(fmt, nodes[i], depth), c) {
      if WrittenBySome(rws, c) {
        var i :| 0 <= i < |rws| && WrittenTo(rws[i], c);
        assert WrittenTo(RowWrites(fmt, nodes[i], depth), c);
      }
      if exists i :: 0 <= i < |nodes| && WrittenTo(RowWrites(fmt, nodes[i], depth), c) {
        var i :| 0 <= i < |nodes| && WrittenTo(RowWrites(fmt, nodes[i], depth), c);
        assert WrittenTo(rws[i], c);
      }
    }
  }

  /**
   * Adding a row: old rows keep their cells and read DBNull in the new
   * columns, which were all absent before; the new row holds the last value
   * written to each column.
   */
  lemma AppendRowCells(t0: TableValue, ws: seq<Write>)
    requires Rectangular(|t0.columns|, t0.rows)
    ensures var t := AppendRow(t0, ws);
      |t.rows| == |t0.rows| + 1 && Rectangular(|t.columns|, t.rows) && t0.columns <= t.columns &&
      (forall i, j :: 0 <= i < |t0.rows| && 0 <= j < |t0.columns| ==> t.rows[i][j] == t0.rows[i][j]) &&
      (forall i, j :: 0 <= i < |t0.rows| && |t0.columns| <= j < |t.columns| ==> t.rows[i][j] == DbNull) &&
      (forall j :: |t0.columns| <= j < |t.columns| ==> t.columns[j] !in t0.columns) &&
      (forall j :: 0 <= j < |t.columns| ==> t.rows[|t0.rows|][j] == LastValue(ws, t.columns[j]))
  {
    var st := ApplyAll(RowState(t0.columns, map[]), ws);
    var t := AppendRow(t0, ws);
    ApplyAllColumns(RowState(t0.columns, map[]), ws);
    RowFromWrites(t0.columns, ws);
    forall i, j | 0 <= i < |t0.rows| && 0 <= j < |t0.columns| ensures t.rows[i][j] == t0.rows[i][j] {
      assert t.rows[i] == Widen(t0.rows, |st.columns|)[i];
      assert t.rows[i][j] == t.rows[i][..|t0.columns|][j];
    }
    forall i, j | 0 <= i < |t0.rows| && |t0.columns| <= j < |t.columns| ensures t.rows[i][j] == DbNull {
      assert t.rows[i] == Widen(t0.rows, |st.columns|)[i];
    }
    forall j | |t0.columns| <= j < |t.columns| ensures t.columns[j] !in t0.columns {
      forall m | 0 <= m < |t0.columns| ensures t0.columns[m] != t.columns[j] {
        assert t0.columns[m] == t.columns[m];
      }
    }
  }

  /**
   * Table t is what the row writes rws build: one row per entry, and cell
   * (i, j) is the last value row i wrote to column j, or DBNull; a column
   * exists exactly when some row writes it.
   */
  ghost predicate BuiltFrom(t: TableValue, rws: seq<seq<Write>>) {
    |t.rows| == |rws| && Rectangular(|t.columns|, t.rows) &&
    (forall c :: c in t.columns <==> WrittenBySome(rws, c)) &&
    forall i, j :: 0 <= i < |rws| && 0 <= j < |t.columns| ==> t.rows[i][j] == LastValue(rws[i], t.columns[j])
  }

  /** Adding one row of writes to a table built from rws0 gives the table built from rws0 + [ws]. */
  lemma BuiltFromStep(t0: TableValue, rws0: seq<seq<Write>>, ws: seq<Write>)
    requires BuiltFrom(t0, rws0)
    ensures BuiltFrom(AppendRow(t0, ws), rws0 + [ws])
  {
    var t, rws := AppendRow(t0, ws), rws0 + [ws];
    AppendRowCells(t0, ws);
    ApplyAllColumns(RowState(t0.columns, map[]), ws);
    assert rws[..|rws| - 1] == rws0;
    forall c ensures c in t.columns <==> WrittenBySome(rws, c) {
      WrittenBySomeSnoc(rws, c);
    }
    forall i, j | 0 <= i < |rws0| && |t0.columns| <= j < |t.columns|
      ensures t.rows[i][j] == LastValue(rws[i], t.columns[j])
    {
      assert rws[i] == rws0[i];
      assert !WrittenTo(rws0[i], t.columns[j]);
      LastValueMeaning(rws0[i], t.columns[j]);
    }
    forall i, j | 0 <= i < |rws0| && 0 <= j < |t0.columns|
      ensures t.rows[i][j] == LastValue(rws[i], t.columns[j])
    {
      assert rws[i] == rws0[i] && t.columns[j] == t0.columns[j];
    }
  }

  lemma {:induction false} FlattenBuiltFrom(fmt: AttrFormat, nodes: seq<Node>, depth: int)
    requires Flatten(fmt, nodes, depth).Ok?
    ensures BuiltFrom(Flatten(fmt, nodes, depth).value, AllRowWrites(fmt, nodes, depth))
    decreases |nodes|
  {
    if nodes != [] {
      var init := nodes[..|nodes| - 1];
      FlattenSnoc(fmt, nodes, depth);
      AllRowWritesSnoc(fmt, nodes, depth);
      FlattenBuiltFrom(fmt, init, depth);
      BuiltFromStep(Flatten(fmt, init, depth).value, AllRowWrites(fmt, init, depth), RowWrites(fmt, nodes[|nodes| - 1], depth));
    } else {
      assert !WrittenBySome(AllRowWrites(fmt, nodes, depth), "");
    }
  }

  /**
   * Cell (i, j) holds the last value row i's own walk wrote to column j, or
   * DBNull: rows are independent, and every sibling count restarts per row.
   */
  lemma FlattenCells(fmt: AttrFormat, nodes: seq<Node>, depth: int)
    requires Flatten(fmt, nodes, depth).Ok?
    ensures var t := Flatten(fmt, nodes, depth).value;
      |t.rows| == |nodes| && Rectangular(|t.columns|, t.rows) &&
      forall i, j :: 0 <= i < |nodes| && 0 <= j < |t.columns| ==>
        t.rows[i][j] == LastValue(RowWrites(fmt, nodes[i], depth), t.columns[j])
  {
    FlattenBuiltFrom(fmt, nodes, depth);
  }

  // ---------------------------------------------------------------------------
  // The root-attribute format error
  // ---------------------------------------------------------------------------

  /** As written, any selected node with an attribute makes ToDataTable raise. */
  lemma RootAttributeRaises(nodes: seq<Node>, depth: int, i: nat)
    requires i < |nodes| && |AttributesOf(nodes[i])| > 0
    ensures Flatten(AsWritten, nodes, depth).Err?
  {
    FlattenRaisesIff(AsWritten, nodes, depth);
  }

  /**
   * The example of a root with attribute a="1" and a child <c>txt</c> at
   * depth 0: the code raises; the intended format gives the single column
   * n-a holding "1" and no column for c.
   */
  lemma RootAttributeExample()
    ensures var n := Node("n", Some([Attr("a", "1")]), [Node("c", Some([]), [Node("#text", None, [], "txt")], "txt")], "");
      Flatten(AsWritten, [n], 0) == Err(FormatException) &&
      Flatten(Intended, [n], 0) == Ok(TableValue(["n-a"], [[Str("1")]]))
  {
    var n := Node("n", Some([Attr("a", "1")]), [Node("c", Some([]), [Node("#text", None, [], "txt")], "txt")], "");
    assert [n][..0] == [];
    assert Segment("n", 1) == "n";
    assert AttrWrite("", "n", Attr("a", "1")) == Write("n-a", Str("1"));
    assert AttrWritesOf([Attr("a", "1")], "", "n") == [Write("n-a", Str("1"))];
    assert Entries(Intended, n, "", 1, 0) == Ok([Write("n-a", Str("1"))]);
    var st := ApplyAll(RowState([], map[]), [Write("n-a", Str("1"))]);
    assert [Write("n-a", Str("1"))][..0] == [];
    assert st == RowState(["n-a"], map["n-a" := Str("1")]);
    assert Widen([], 1) == [];
    var row := Materialize(["n-a"], st.cells);
    assert Lookup(st.cells, "n-a") == Str("1");
    assert |row| == 1 && row[0] == Str("1");
    assert row == [Str("1")];
    assert [] + [row] == [[Str("1")]];
    assert AppendRow(TableValue([], []), [Write("n-a", Str("1"))]) == TableValue(["n-a"], [[Str("1")]]);
  }

  /**
   * With the intended format ToDataTable never raises, and it builds the
   * same table as the code wherever the code does not raise.
   */
  lemma {:induction false} IntendedFlatten(nodes: seq<Node>, depth: int)
    ensures Flatten(Intended, nodes, depth).Ok?
    ensures Flatten(AsWritten, nodes, depth).Ok? ==> Flatten(Intended, nodes, depth) == Flatten(AsWritten, nodes, depth)
    decreases |nodes|
  {
    if nodes != [] {
      var init := nodes[..|nodes| - 1];
      IntendedFlatten(init, depth);
      IntendedNeverRaises(nodes[|nodes| - 1], "", 1, depth);
      if Flatten(AsWritten, nodes, depth).Ok? {
        IntendedAgreesWithAsWritten(nodes[|nodes| - 1], "", 1, depth);
      }
    }
  }

  // ---------------------------------------------------------------------------
  // ShortenColumnName
  // ---------------------------------------------------------------------------

  predicate IsSuffix(r: string, s: string) {
    |r| <= |s| && s[|s| - |r|..] == r
  }

  /** A shortened name is a suffix of the original. */
  lemma {:induction false} ShortenSuffix(name: string, depth: int, separator: string)
    ensures Shorten(name, depth, separator).Ok? ==> IsSuffix(Shorten(name, depth, separator).value, name)
    decreases depth
  {
    if depth > 0 {
      var first := IndexOf(name, separator);
      if first < 0 {
        ShortenSuffix(name, depth - 1, separator);
      } else if first + 1 <= |name| && name[first + 1..] != "" {
        var rest := name[first + 1..];
        ShortenSuffix(rest, depth - 1, separator);
        if Shorten(name, depth, separator).Ok? {
          var r := Shorten(name, depth, separator).value;
          assert name[|name| - |r|..] == rest[|rest| - |r|..];
        }
      }
    }
  }

  /** A name without the separator is left unchanged, however many steps are asked for. */
  lemma {:induction false} ShortenWithoutSeparator(name: string, depth: int, separator: string)
    requires IndexOf(name, separator) < 0
    ensures Shorten(name, depth, separator) == Ok(name)
    decreases depth
  {
    if depth > 0 {
      ShortenWithoutSeparator(name, depth - 1, separator);
    }
  }

  lemma {:induction false} CountConcat<T>(a: seq<T>, b: seq<T>, x: T)
    ensures Count(a + b, x) == Count(a, x) + Count(b, x)
    decreases |b|
  {
    if b != [] {
      var ab, b0 := a + b, b[..|b| - 1];
      assert ab[..|ab| - 1] == a + b0 && ab[|ab| - 1] == b[|b| - 1];
      CountConcat(a, b0, x);
      assert Count(ab, x) == Count(a + b0, x) + (if b[|b| - 1] == x then 1 else 0);
      assert Count(b, x) == Count(b0, x) + (if b[|b| - 1] == x then 1 else 0);
    } else {
      assert a + b == a;
    }
  }

  /** With an empty separator each step drops one character; the step that empties the name raises. */
  lemma {:induction false} ShortenEmptySeparatorRaisesIff(name: string, depth: int)
    ensures Shorten(name, depth, "").Err? <==> 0 < depth && |name| <= depth
    decreases depth
  {
    if depth > 0 {
      assert MatchAt(name, "", 0);
      if |name| > 1 {
        ShortenEmptySeparatorRaisesIff(name[1..], depth - 1);
      }
    }
  }

  /** A separator of two or more characters never ends a name, so no step empties it. */
  lemma {:induction false} ShortenLongSeparatorNeverRaises(name: string, depth: int, separator: string)
    requires |separator| >= 2
    ensures Shorten(name, depth, separator).Ok?
    decreases depth
  {
    if depth > 0 {
      var first := IndexOf(name, separator);
      if first < 0 {
        ShortenLongSeparatorNeverRaises(name, depth - 1, separator);
      } else {
        ShortenLongSeparatorNeverRaises(name[first + 1..], depth - 1, separator);
      }
    }
  }

  lemma MatchAtChar(s: string, c: char, i: int)
    ensures MatchAt(s, [c], i) <==> 0 <= i < |s| && s[i] == c
  {
    if 0 <= i < |s| {
      assert s[i..i + 1] == [s[i]];
    }
  }

  /** Without c in the name, the name does not end with c and holds no c. */
  lemma NoCharFound(name: string, c: char)
    requires IndexOf(name, [c]) < 0
    ensures c !in name
  {
    forall i | 0 <= i < |name| ensures name[i] != c {
      MatchAtChar(name, c, i);
    }
  }

  /** One step removes the first c: what remains holds one c fewer. */
  lemma CharFound(name: string, c: char)
    requires IndexOf(name, [c]) >= 0
    ensures IndexOf(name, [c]) < |name| && name[IndexOf(name, [c])] == c
    ensures Count(name, c) == Count(name[IndexOf(name, [c]) + 1..], c) + 1
  {
    var first := IndexOf(name, [c]);
    MatchAtChar(name, c, first);
    assert c !in name[..first] by {
      forall i | 0 <= i < first ensures name[..first][i] != c {
        MatchAtChar(name, c, i);
      }
    }
    CountPastFirst(name, first, c);
  }

  lemma CountPastFirst(name: string, first: nat, c: char)
    requires first < |name| && name[first] == c && c !in name[..first]
    ensures Count(name, c) == Count(name[first + 1..], c) + 1
  {
    var upto, rest := name[..first + 1], name[first + 1..];
    assert name == upto + rest;
    CountConcat(upto, rest, c);
    assert upto[..first] == name[..first] && upto[first] == c;
    assert Count(upto, c) == Count(name[..first], c) + 1;
  }

  /**
   * A one-character separator c removes one occurrence of c per step, so a
   * step empties the name exactly when the name ends with c and depth
   * reaches the number of c in it.
   */
  lemma {:induction false} ShortenCharRaisesIff(name: string, depth: int, c: char)
    ensures Shorten(name, depth, [c]).Err? <==> name != [] && name[|name| - 1] == c && Count(name, c) <= depth
    decreases depth
  {
    var first := IndexOf(name, [c]);
    if first < 0 {
      NoCharFound(name, c);
      if depth > 0 {
        ShortenCharRaisesIff(name, depth - 1, c);
      }
    } else {
      CharFound(name, c);
      var rest := name[first + 1..];
      if depth > 0 && rest != [] {
        ShortenCharRaisesIff(rest, depth - 1, c);
        assert rest[|rest| - 1] == name[|name| - 1];
      }
    }
  }

  /**
   * When shortening raises: with an empty separator once the name has no
   * character left to drop, with a one-character separator c once the step
   * that removes the last c leaves nothing, and never with a longer separator.
   */
  lemma ShortenRaisesIff(name: string, depth: int, separator: string)
    ensures Shorten(name, depth, separator).Err? <==>
      (separator == "" && 0 < depth && |name| <= depth) ||
      (|separator| == 1 && name != [] && name[|name| - 1] == separator[0] && Count(name, separator[0]) <= depth)
  {
    if separator == "" {
      ShortenEmptySeparatorRaisesIff(name, depth);
    } else if |separator| == 1 {
      assert separator == [separator[0]];
      ShortenCharRaisesIff(name, depth, separator[0]);
    } else {
      ShortenLongSeparatorNeverRaises(name, depth, separator);
    }
  }

  /**
   * Substring itself fails only on an empty name with an empty separator,
   * which a column of a table never has; every other failure is the
   * ColumnName assignment refusing "".
   */
  lemma {:induction false} ShortenOutOfRangeOnlyOnEmpty(name: string, depth: int, separator: string)
    ensures Shorten(name, depth, separator) == Err(ArgumentOutOfRange) <==> name == "" && separator == "" && depth > 0
    decreases depth
  {
    if depth > 0 {
      var first := IndexOf(name, separator);
      if separator == "" {
        assert MatchAt(name, separator, 0);
      }
      if first < 0 {
        ShortenOutOfRangeOnlyOnEmpty(name, depth - 1, separator);
      } else if first + 1 <= |name| && name[first + 1..] != "" {
        ShortenOutOfRangeOnlyOnEmpty(name[first + 1..], depth - 1, separator);
      }
    }
  }

  /** Shortening by d1 + d2 steps is shortening by d1, then by d2. */
  lemma {:induction false} ShortenCompose(name: string, d1: nat, d2: nat, separator: string)
    ensures Shorten(name, d1 + d2, separator) ==
      match Shorten(name, d1, separator)
      case Ok(m) => Shorten(m, d2, separator)
      case Err(f) => Err(f)
    decreases d1
  {
    if d1 > 0 {
      var first := IndexOf(name, separator);
      if first < 0 {
        ShortenCompose(name, d1 - 1, d2, separator);
      } else if first + 1 <= |name| && name[first + 1..] != "" {
        ShortenCompose(name[first + 1..], d1 - 1, d2, separator);
      }
    }
  }

  /** "A-B-C" shortens to "B-C", then "C", then stays "C". */
  lemma ShortenExample()
    ensures Shorten("A-B-C", 1, "-") == Ok("B-C")
    ensures Shorten("B-C", 1, "-") == Ok("C")
    ensures Shorten("C", 1, "-") == Ok("C")
    ensures Shorten("A-B-C", 5, "-") == Ok("C")
    ensures Shorten("A-", 1, "-") == Err(ArgumentException)
    ensures Shorten("ab", 1, "") == Ok("b") && Shorten("ab", 2, "") == Err(ArgumentException)
  {
    assert "A-"[0..1] == "A" && "A-"[1..2] == "-" && "A-"[2..] == "";
    assert MatchAt("A-", "-", 1) && !MatchAt("A-", "-", 0);
    assert MatchAt("ab", "", 0) && "ab"[1..] == "b" && MatchAt("b", "", 0) && "b"[1..] == "";
    assert "A-B-C"[0..1] == "A" && "A-B-C"[1..2] == "-";
    assert "B-C"[0..1] == "B" && "B-C"[1..2] == "-";
    assert MatchAt("A-B-C", "-", 1) && !MatchAt("A-B-C", "-", 0);
    assert MatchAt("B-C", "-", 1) && !MatchAt("B-C", "-", 0);
    assert "A-B-C"[2..] == "B-C" && "B-C"[2..] == "C";
    assert forall i :: 0 <= i <= |"C"| ==> !MatchAt("C", "-", i);
    ShortenCompose("A-B-C", 2, 3, "-");
    ShortenWithoutSeparator("C", 3, "-");
  }
}
