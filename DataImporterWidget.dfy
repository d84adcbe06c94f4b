/**
 * The two pieces of the importer's widget that compute something: finding a
 * child widget by its object name, and turning the rows of the cohort's CSV file
 * into the list of files to import.
 */
module DataImporterWidget {
  import opened Wrappers

  /** A widget of the loaded user interface: its object name and its children, in order. */
  datatype Widget = Widget(objectName: string, children: seq<Widget>)

  /** The widget named `name`: `w` itself, else the first match among its children, searched in turn. */
  function FindWidget(w: Widget, name: string): (r: Option<Widget>)
    ensures r.Some? ==> r.value.objectName == name
    decreases w, 1
  {
    if w.objectName == name then Some(w) else FindInChildren(w.children, name)
  }

  function FindInChildren(ws: seq<Widget>, name: string): (r: Option<Widget>)
    ensures r.Some? ==> r.value.objectName == name
    decreases ws, 0
  {
    if ws == [] then None
    else
      var found := FindWidget(ws[0], name);
      if found.Some? then found else FindInChildren(ws[1..], name)
  }

  /** The nodes of a widget tree in pre-order: the widget, then each child's subtree in turn. */
  function PreOrder(w: Widget): seq<Widget>
    decreases w, 1
  {
    [w] + PreOrderAll(w.children)
  }

  function PreOrderAll(ws: seq<Widget>): seq<Widget>
    decreases ws, 0
  {
    if ws == [] then [] else PreOrder(ws[0]) + PreOrderAll(ws[1..])
  }

  /** Reference search: the first node in a list of nodes that has the name. */
  function FirstNamed(nodes: seq<Widget>, name: string): Option<Widget> {
    if nodes == [] then None
    else if nodes[0].objectName == name then Some(nodes[0])
    else FirstNamed(nodes[1..], name)
  }

  lemma {:induction false} FirstNamedAppend(a: seq<Widget>, b: seq<Widget>, name: string)
    ensures FirstNamed(a + b, name) == if FirstNamed(a, name).Some? then FirstNamed(a, name) else FirstNamed(b, name)
  {
    if a != [] {
      assert (a + b)[1..] == a[1..] + b;
      FirstNamedAppend(a[1..], b, name);
    } else {
      assert a + b == b;
    }
  }

  lemma {:induction false} FirstNamedNone(nodes: seq<Widget>, name: string)
    ensures FirstNamed(nodes, name).None? <==> forall x :: x in nodes ==> x.objectName != name
    ensures FirstNamed(nodes, name).Some? ==> FirstNamed(nodes, name).value in nodes
  {
    if nodes != [] {
      FirstNamedNone(nodes[1..], name);
      assert nodes == [nodes[0]] + nodes[1..];
    }
  }

  /** The search returns the first node of the tree, in pre-order, that has the name. */
  lemma {:induction false} FindWidgetIsFirstInPreOrder(w: Widget, name: string)
    ensures FindWidget(w, name) == FirstNamed(PreOrder(w), name)
    decreases w, 1
  {
    FirstNamedAppend([w], PreOrderAll(w.children), name);
    assert ([w] + PreOrderAll(w.children))[1..] == PreOrderAll(w.children);
    FindInChildrenIsFirstInPreOrder(w.children, name);
  }

  lemma {:induction false} FindInChildrenIsFirstInPreOrder(ws: seq<Widget>, name: string)
    ensures FindInChildren(ws, name) == FirstNamed(PreOrderAll(ws), name)
    decreases ws, 0
  {
    if ws != [] {
      FindWidgetIsFirstInPreOrder(ws[0], name);
      FindInChildrenIsFirstInPreOrder(ws[1..], name);
      FirstNamedAppend(PreOrder(ws[0]), PreOrderAll(ws[1..]), name);
    }
  }

  /** The search finds nothing exactly when no node of the tree has the name; what it finds is a node of the tree. */
  lemma FindWidgetNoneIffAbsent(w: Widget, name: string)
    ensures FindWidget(w, name).None? <==> forall x :: x in PreOrder(w) ==> x.objectName != name
    ensures FindWidget(w, name).Some? ==> FindWidget(w, name).value in PreOrder(w)
  {
    FindWidgetIsFirstInPreOrder(w, name);
    FirstNamedNone(PreOrder(w), name);
  }

  /** The first field of every row that has one, in file order. */
  function FirstFields(rows: seq<seq<string>>): (names: seq<string>)
    ensures |names| <= |rows|
    decreases |rows|
  {
    if rows == [] then []
    else
      var last := rows[|rows| - 1];
      FirstFields(rows[..|rows| - 1]) + (if |last| > 0 then [last[0]] else [])
  }

  /** A name is in the list exactly when some row has it as its first field. */
  lemma {:induction false} FirstFieldsMembers(rows: seq<seq<string>>, x: string)
    ensures x in FirstFields(rows) <==> exists j :: 0 <= j < |rows| && |rows[j]| > 0 && rows[j][0] == x
    decreases |rows|
  {
    if rows != [] {
      var front := rows[..|rows| - 1];
      FirstFieldsMembers(front, x);
      assert forall j :: 0 <= j < |front| ==> front[j] == rows[j];
    }
  }

  /** Reading two parts of a file one after the other gives their lists one after the other. */
  lemma {:induction false} FirstFieldsAppend(a: seq<seq<string>>, b: seq<seq<string>>)
    ensures FirstFields(a + b) == FirstFields(a) + FirstFields(b)
    decreases |b|
  {
    if b == [] {
      assert a + b == a;
    } else {
      var front := b[..|b| - 1];
      assert (a + b)[..|a + b| - 1] == a + front;
      FirstFieldsAppend(a, front);
    }
  }

  /**
   * The list of files to import from the rows of the CSV file: the first row is
   * the header and is skipped; every later row that has a field gives its first.
   */
  method ImportListFromRows(rows: seq<seq<string>>) returns (filenames: seq<string>)
    ensures filenames == FirstFields(if rows == [] then [] else rows[1..])
  {
    filenames := [];
    var i := if rows == [] then 0 else 1;
    while i < |rows|
      invariant 1 <= i <= |rows| || (rows == [] && i == 0)
      invariant filenames == FirstFields(rows[(if rows == [] then 0 else 1)..i])
    {
      var row := rows[i];
      ghost var start := if rows == [] then 0 else 1;
      assert rows[start..i + 1][..i - start] == rows[start..i];
      if |row| > 0 {
        filenames := filenames + [row[0]];
      }
      i := i + 1;
    }
    assert rows != [] ==> rows[1..i] == rows[1..];
  }
}
