/**
 * The element list that `GET /story-graph/:story_line_id` sends to its
 * Cytoscape client: one node element per node row of the storyline and,
 * right after it, one edge element when the row names a next node.
 */
module StoryGraph {
  import opened JsValues

  /** A row of the node query, reduced to the four columns the handler reads:
      `store_node_id`, `title`, `description` and `next_story_node_id`. */
  datatype NodeRow = NodeRow(storeNodeId: Value, title: Value, description: Value, nextStoryNodeId: Value)

  /** The style object every node element carries; it never varies. */
  datatype Style = Style(
    backgroundColor: string, color: string, shape: string, width: string, height: string,
    textWrap: string, textValign: string, textHalign: string, padding: string)

  const NodeStyle: Style :=
    Style("#28a745", "#fff", "roundrectangle", "250px", "auto", "wrap", "center", "center", "10px")

  /** An output element: `{data: {id, label}, style}` (the label as `nodeLabel`) or `{data: {id, source, target}}`. */
  datatype Element =
    | NodeElement(id: string, nodeLabel: string, style: Style)
    | EdgeElement(id: string, source: string, target: string)

  /** `N<store_node_id>`, the id the client knows a node by. */
  function NodeId(v: Value): string
  {
    "N" + Render(v)
  }

  /** The node element pushed for a row. */
  function NodeElementFor(row: NodeRow): Element
  {
    NodeElement(
      NodeId(row.storeNodeId),
      "\U{1F4CC} " + Render(row.storeNodeId) + "\n\U{1F4DD} " + Render(row.title) + "\n" + Render(row.description),
      NodeStyle)
  }

  /** The edge element pushed for a row whose next id is truthy. */
  function EdgeElementFor(row: NodeRow): Element
  {
    EdgeElement(
      "E" + Render(row.storeNodeId) + "-" + Render(row.nextStoryNodeId),
      NodeId(row.storeNodeId),
      NodeId(row.nextStoryNodeId))
  }

  predicate HasNext(row: NodeRow)
  {
    Truthy(row.nextStoryNodeId)
  }

  /** What one iteration of the loop pushes for `row`. */
  function RowElements(row: NodeRow): seq<Element>
  {
    [NodeElementFor(row)] + if HasNext(row) then [EdgeElementFor(row)] else []
  }

  /** The rows that emit an edge, in row order. */
  function RowsWithNext(rows: seq<NodeRow>): (r: seq<NodeRow>)
    decreases |rows|
    ensures |r| <= |rows|
  {
    if rows == [] then []
    else RowsWithNext(rows[..|rows| - 1]) + if HasNext(rows[|rows| - 1]) then [rows[|rows| - 1]] else []
  }

  /** The rows that emit an edge are exactly the rows with a truthy next id. */
  lemma {:induction false} RowsWithNextMembers(rows: seq<NodeRow>)
    ensures forall row :: row in RowsWithNext(rows) <==> row in rows && HasNext(row)
    decreases |rows|
  {
    if rows != [] {
      var init, last := rows[..|rows| - 1], rows[|rows| - 1];
      RowsWithNextMembers(init);
      assert rows == init + [last];
    }
  }

  /** The element list after the loop has visited every row of `rows`. */
  function ElementsOf(rows: seq<NodeRow>): (es: seq<Element>)
    decreases |rows|
    ensures |es| == |rows| + |RowsWithNext(rows)|
  {
    if rows == [] then []
    else ElementsOf(rows[..|rows| - 1]) + RowElements(rows[|rows| - 1])
  }

  /** The loop of the handler (server.js lines 59-89): start from an empty list and, for each
      row in turn, push its node element and, when its next id is truthy, its
      edge element. */
  method BuildElements(rows: seq<NodeRow>) returns (elements: seq<Element>)
    ensures elements == ElementsOf(rows)
    ensures |elements| == |rows| + |RowsWithNext(rows)|
  {
    elements := [];
    var i := 0;
    while i < |rows|
      invariant 0 <= i <= |rows|
      invariant elements == ElementsOf(rows[..i])
    {
      var node := rows[i];
      PushRow(rows, i);
      elements := elements + [NodeElementFor(node)];
      if Truthy(node.nextStoryNodeId) {
        elements := elements + [EdgeElementFor(node)];
      }
      i := i + 1;
    }
    assert rows[..|rows|] == rows;
  }

  /** One more iteration of the loop: after row `i` has been handled, the
      list holds the elements of the rows up to and including row `i`. */
  lemma PushRow(rows: seq<NodeRow>, i: nat)
    requires i < |rows|
    ensures ElementsOf(rows[..i + 1]) == ElementsOf(rows[..i]) + [NodeElementFor(rows[i])]
      + if Truthy(rows[i].nextStoryNodeId) then [EdgeElementFor(rows[i])] else []
  {
    assert rows[..i + 1] == rows[..i] + [rows[i]];
    ElementsOfSnoc(rows[..i], rows[i]);
  }

  /** The position of row `i`'s node element in the output: the elements of
      the rows before it, one or two per row. */
  function NodeIndex(rows: seq<NodeRow>, i: nat): nat
    requires i <= |rows|
  {
    i + |RowsWithNext(rows[..i])|
  }

  /** The node elements of a list, in order. */
  function NodeElements(es: seq<Element>): seq<Element>
    decreases |es|
  {
    if es == [] then []
    else NodeElements(es[..|es| - 1]) + if es[|es| - 1].NodeElement? then [es[|es| - 1]] else []
  }

  /** The edge elements of a list, in order. */
  function EdgeElements(es: seq<Element>): seq<Element>
    decreases |es|
  {
    if es == [] then []
    else EdgeElements(es[..|es| - 1]) + if es[|es| - 1].EdgeElement? then [es[|es| - 1]] else []
  }

  // ---------------------------------------------------------------------
  // The loop treats every row on its own

  /** Adding one row at the end adds that row's elements at the end. */
  lemma ElementsOfSnoc(init: seq<NodeRow>, last: NodeRow)
    ensures ElementsOf(init + [last]) == ElementsOf(init) + RowElements(last)
    ensures RowsWithNext(init + [last]) == RowsWithNext(init) + if HasNext(last) then [last] else []
  {
  }

  lemma {:induction false} RowsWithNextAppend(a: seq<NodeRow>, b: seq<NodeRow>)
    ensures RowsWithNext(a + b) == RowsWithNext(a) + RowsWithNext(b)
    decreases |b|
  {
    if b == [] {
      assert a + b == a;
    } else {
      var b', x := b[..|b| - 1], b[|b| - 1];
      assert b == b' + [x] && a + b == (a + b') + [x];
      RowsWithNextAppend(a, b');
      ElementsOfSnoc(a + b', x);
      ElementsOfSnoc(b', x);
      AppendAssoc(RowsWithNext(a), RowsWithNext(b'), if HasNext(x) then [x] else []);
    }
  }

  lemma AppendAssoc<T>(a: seq<T>, b: seq<T>, c: seq<T>)
    ensures (a + b) + c == a + (b + c)
  {
  }

  /** The elements of two batches of rows are the elements of the first
      followed by those of the second: nothing is merged, deduplicated or
      reordered across rows. */
  lemma {:induction false} ElementsOfAppend(a: seq<NodeRow>, b: seq<NodeRow>)
    ensures ElementsOf(a + b) == ElementsOf(a) + ElementsOf(b)
    decreases |b|
  {
    if b == [] {
      assert a + b == a;
    } else {
      var b', x := b[..|b| - 1], b[|b| - 1];
      assert b == b' + [x] && a + b == (a + b') + [x];
      ElementsOfAppend(a, b');
      ElementsOfSnoc(a + b', x);
      ElementsOfSnoc(b', x);
      AppendAssoc(ElementsOf(a), ElementsOf(b'), RowElements(x));
    }
  }

  lemma {:induction false} NodeElementsAppend(a: seq<Element>, b: seq<Element>)
    ensures NodeElements(a + b) == NodeElements(a) + NodeElements(b)
    decreases |b|
  {
    if b == [] {
      assert a + b == a;
    } else {
      var b' := b[..|b| - 1];
      assert (a + b)[..|a + b| - 1] == a + b';
      assert (a + b)[|a + b| - 1] == b[|b| - 1];
      NodeElementsAppend(a, b');
    }
  }

  lemma {:induction false} EdgeElementsAppend(a: seq<Element>, b: seq<Element>)
    ensures EdgeElements(a + b) == EdgeElements(a) + EdgeElements(b)
    decreases |b|
  {
    if b == [] {
      assert a + b == a;
    } else {
      var b' := b[..|b| - 1];
      assert (a + b)[..|a + b| - 1] == a + b';
      assert (a + b)[|a + b| - 1] == b[|b| - 1];
      EdgeElementsAppend(a, b');
    }
  }

  // ---------------------------------------------------------------------
  // Properties of the element list

  /** The elements one row pushes hold its node element and, when its next
      id is truthy, its edge element. */
  lemma RowElementKinds(row: NodeRow)
    ensures NodeElements(RowElements(row)) == [NodeElementFor(row)]
    ensures EdgeElements(RowElements(row)) == if HasNext(row) then [EdgeElementFor(row)] else []
  {
    var node, edge := NodeElementFor(row), EdgeElementFor(row);
    assert [node][..0] == [];
    assert NodeElements([node]) == [node];
    assert EdgeElements([node]) == [];
    if HasNext(row) {
      assert RowElements(row) == [node, edge];
      assert [node, edge][..1] == [node];
    } else {
      assert RowElements(row) == [node];
    }
  }

  /** `ns` holds the node element of each row of `rows`, in row order. */
  predicate NodesMatchRows(ns: seq<Element>, rows: seq<NodeRow>)
  {
    |ns| == |rows| && forall i :: 0 <= i < |rows| ==> ns[i] == NodeElementFor(rows[i])
  }

  lemma NodesMatchSnoc(ns: seq<Element>, rows: seq<NodeRow>, row: NodeRow)
    requires NodesMatchRows(ns, rows)
    ensures NodesMatchRows(ns + [NodeElementFor(row)], rows + [row])
  {
  }

  /** Exactly one node element per row, in row order. */
  lemma {:induction false} NodesInRowOrder(rows: seq<NodeRow>)
    ensures NodesMatchRows(NodeElements(ElementsOf(rows)), rows)
    decreases |rows|
  {
    if rows != [] {
      var init, last := rows[..|rows| - 1], rows[|rows| - 1];
      assert rows == init + [last];
      NodesInRowOrder(init);
      ElementsOfSnoc(init, last);
      NodeElementsAppend(ElementsOf(init), RowElements(last));
      RowElementKinds(last);
      NodesMatchSnoc(NodeElements(ElementsOf(init)), init, last);
    }
  }

  /** `xs` holds the edge element of each row of `rows`, in row order. */
  predicate EdgesMatchRows(xs: seq<Element>, rows: seq<NodeRow>)
  {
    |xs| == |rows| && forall j :: 0 <= j < |rows| ==> xs[j] == EdgeElementFor(rows[j])
  }

  lemma EdgesMatchSnoc(xs: seq<Element>, rows: seq<NodeRow>, row: NodeRow)
    requires EdgesMatchRows(xs, rows)
    ensures EdgesMatchRows(xs + [EdgeElementFor(row)], rows + [row])
  {
  }

  /** Exactly one edge element per row with a truthy next id, in row order. */
  lemma {:induction false} EdgesInRowOrder(rows: seq<NodeRow>)
    ensures EdgesMatchRows(EdgeElements(ElementsOf(rows)), RowsWithNext(rows))
    decreases |rows|
  {
    if rows != [] {
      var init, last := rows[..|rows| - 1], rows[|rows| - 1];
      assert rows == init + [last];
      EdgesInRowOrder(init);
      ElementsOfSnoc(init, last);
      EdgeElementsAppend(ElementsOf(init), RowElements(last));
      RowElementKinds(last);
      var xs, src := EdgeElements(ElementsOf(init)), RowsWithNext(init);
      if HasNext(last) {
        EdgesMatchSnoc(xs, src, last);
      } else {
        assert xs + [] == xs && src + [] == src;
      }
    }
  }

  /** Row `i` owns the slice of the output from its node index up to the next
      row's: its node element, followed by its edge element exactly when its
      next id is truthy. The first row starts the list and the last row ends it. */
  lemma {:induction false} RowLayout(rows: seq<NodeRow>, i: nat)
    requires i < |rows|
    ensures NodeIndex(rows, 0) == 0 && NodeIndex(rows, |rows|) == |ElementsOf(rows)|
    ensures var es, k := ElementsOf(rows), NodeIndex(rows, i);
      k < NodeIndex(rows, i + 1) <= |es| &&
      es[k..NodeIndex(rows, i + 1)] == RowElements(rows[i]) &&
      es[k] == NodeElement(
        "N" + Render(rows[i].storeNodeId),
        "\U{1F4CC} " + Render(rows[i].storeNodeId) + "\n\U{1F4DD} " + Render(rows[i].title) + "\n" + Render(rows[i].description),
        NodeStyle) &&
      (Truthy(rows[i].nextStoryNodeId) <==> NodeIndex(rows, i + 1) == k + 2) &&
      (!Truthy(rows[i].nextStoryNodeId) <==> NodeIndex(rows, i + 1) == k + 1) &&
      (Truthy(rows[i].nextStoryNodeId) ==> es[k + 1] == EdgeElement(
        "E" + Render(rows[i].storeNodeId) + "-" + Render(rows[i].nextStoryNodeId),
        "N" + Render(rows[i].storeNodeId),
        "N" + Render(rows[i].nextStoryNodeId)))
  {
    var before, after := rows[..i], rows[i + 1..];
    assert rows[..0] == [];
    assert rows[..|rows|] == rows;
    assert rows == before + [rows[i]] + after;
    assert rows[..i + 1] == before + [rows[i]];
    ElementsOfAppend(before + [rows[i]], after);
    ElementsOfAppend(before, [rows[i]]);
    RowsWithNextAppend(before, [rows[i]]);
    assert [rows[i]][..0] == [];
    assert ElementsOf([rows[i]]) == RowElements(rows[i]);
    var es := ElementsOf(rows);
    assert es == ElementsOf(before) + RowElements(rows[i]) + ElementsOf(after);
  }

  /** Every edge element of `es` comes straight after a node element whose
      id is the edge's source. */
  predicate EdgesFollowSources(es: seq<Element>)
  {
    forall k :: 0 <= k < |es| && es[k].EdgeElement? ==>
      0 < k && es[k - 1].NodeElement? && es[k].source == es[k - 1].id
  }

  /** Every edge element comes straight after a node element, and its source
      is that node element's id. */
  lemma {:induction false} EdgeFollowsItsSource(rows: seq<NodeRow>)
    ensures EdgesFollowSources(ElementsOf(rows))
    decreases |rows|
  {
    if rows != [] {
      var init, last := rows[..|rows| - 1], rows[|rows| - 1];
      EdgeFollowsItsSource(init);
      var es, pre := ElementsOf(rows), ElementsOf(init);
      assert EdgesFollowSources(pre);
      var node := NodeElementFor(last);
      assert es == pre + RowElements(last);
      assert es[|pre|] == node;
      forall k | 0 <= k < |es| && es[k].EdgeElement?
        ensures 0 < k && es[k - 1].NodeElement? && es[k].source == es[k - 1].id
      {
        if k < |pre| {
          assert es[k] == pre[k];
          assert pre[k].EdgeElement?;
          assert 0 < k;
          assert es[k - 1] == pre[k - 1];
        } else if k > |pre| {
          assert RowElements(last) == [node, EdgeElementFor(last)];
          assert es[k - 1] == node && es[k] == EdgeElementFor(last);
        }
      }
    }
  }

  /** The first character of an element's id tells its kind: `N` for a node
      element, `E` for an edge element. */
  predicate IdsMarkKinds(es: seq<Element>)
  {
    forall k :: 0 <= k < |es| ==>
      |es[k].id| > 0 && (es[k].id[0] == 'N' <==> es[k].NodeElement?) && (es[k].id[0] == 'E' <==> es[k].EdgeElement?)
  }

  /** Node ids begin with `N` and edge ids with `E`, so no edge element has
      the id of a node element. */
  lemma {:induction false} IdsTellKindsApart(rows: seq<NodeRow>)
    ensures IdsMarkKinds(ElementsOf(rows))
    decreases |rows|
  {
    if rows != [] {
      var init, last := rows[..|rows| - 1], rows[|rows| - 1];
      IdsTellKindsApart(init);
      var es, pre := ElementsOf(rows), ElementsOf(init);
      assert IdsMarkKinds(pre);
      var node, edge := NodeElementFor(last), EdgeElementFor(last);
      assert node.id[0] == 'N' && edge.id[0] == 'E';
      assert es == pre + RowElements(last);
      forall k | 0 <= k < |es|
        ensures |es[k].id| > 0 && (es[k].id[0] == 'N' <==> es[k].NodeElement?) && (es[k].id[0] == 'E' <==> es[k].EdgeElement?)
      {
        if k < |pre| {
          assert es[k] == pre[k];
        } else if k == |pre| {
          assert es[k] == node;
        } else {
          assert RowElements(last) == [node, edge];
          assert es[k] == edge;
        }
      }
    }
  }

  // ---------------------------------------------------------------------
  // What the loop does not do

  /** Two rows that are the same give two identical node elements: no
      element is deduplicated. */
  lemma {:induction false} RepeatedRowRepeatsNode(row: NodeRow)
    ensures var ns := NodeElements(ElementsOf([row, row]));
      |ns| == 2 && ns[0] == ns[1] == NodeElementFor(row)
  {
    NodesInRowOrder([row, row]);
  }

  /** An edge is emitted towards a next id that no row of the storyline has:
      its target names no node element of the output. */
  lemma DanglingEdgeExample()
    ensures var es := ElementsOf([NodeRow(Num(1), Str("Start"), Str("Intro"), Num(2))]);
      |es| == 2 && es[1] == EdgeElement("E1-2", "N1", "N2") &&
      forall k :: 0 <= k < |es| && es[k].NodeElement? ==> es[k].id != es[1].target
  {
    SmallIds();
  }

  /** The loop makes edges from `next_story_node_id` alone: rows 1 -> 2, 2,
      3, 4 give four node elements and one edge, from 1 to 2. */
  lemma OnlyNextEdgesExample()
    ensures var es := ElementsOf([
        NodeRow(Num(1), Str("a"), Str(""), Num(2)),
        NodeRow(Num(2), Str("b"), Str(""), Null),
        NodeRow(Num(3), Str("c"), Str(""), Null),
        NodeRow(Num(4), Str("d"), Str(""), Null)]);
      |es| == 5 &&
      [es[0].id, es[1].id, es[2].id, es[3].id, es[4].id] == ["N1", "E1-2", "N2", "N3", "N4"] &&
      es[1].EdgeElement? && es[1].source == "N1" && es[1].target == "N2"
  {
    var r1, r2 := NodeRow(Num(1), Str("a"), Str(""), Num(2)), NodeRow(Num(2), Str("b"), Str(""), Null);
    var r3, r4 := NodeRow(Num(3), Str("c"), Str(""), Null), NodeRow(Num(4), Str("d"), Str(""), Null);
    SmallIds();
    ElementsOfSnoc([], r1);
    ElementsOfSnoc([r1], r2);
    ElementsOfSnoc([r1, r2], r3);
    ElementsOfSnoc([r1, r2, r3], r4);
    assert [] + [r1] == [r1] && [r1] + [r2] == [r1, r2];
    assert [r1, r2] + [r3] == [r1, r2, r3] && [r1, r2, r3] + [r4] == [r1, r2, r3, r4];
    assert ElementsOf([r1, r2, r3, r4]) ==
      [NodeElementFor(r1), EdgeElementFor(r1), NodeElementFor(r2), NodeElementFor(r3), NodeElementFor(r4)];
    assert EdgeElementFor(r1).id == "E" + "1" + "-" + "2" == "E1-2";
  }

  /** `E<x>-<y>` determines `x` and `y` when `x` is a signed digit string. */
  lemma EdgeTextSplits(x: string, y: string, x': string, y': string)
    requires SignedDigits(x) && SignedDigits(x')
    ensures "E" + x + "-" + y == "E" + x' + "-" + y' ==> x == x' && y == y'
  {
    var s, s' := "E" + x + "-" + y, "E" + x' + "-" + y';
    if s == s' {
      assert s[1..] == x + "-" + y && s'[1..] == x' + "-" + y';
      DashJoinSplits(x, y, x', y');
    }
  }

  /** For integer ids the edge id `E<id>-<next>` names its endpoints: two
      rows with integer ids get the same edge id only when they have the same
      id and the same next id. */
  lemma EdgeIdsIdentifyIntegerEnds(a: int, b: int, c: int, d: int, t: Value, u: Value, t': Value, u': Value)
    ensures EdgeElementFor(NodeRow(Num(a), t, u, Num(b))).id == EdgeElementFor(NodeRow(Num(c), t', u', Num(d))).id
      ==> a == c && b == d
  {
    RenderedNumShape(a);
    RenderedNumShape(c);
    EdgeTextSplits(Render(Num(a)), Render(Num(b)), Render(Num(c)), Render(Num(d)));
    RenderNumInjective(a, c);
    RenderNumInjective(b, d);
  }

  /** For text ids the edge id is ambiguous: the rows `a-b` -> `c` and
      `a` -> `b-c` are different edges with the same id `Ea-b-c`. */
  lemma EdgeIdsCanCollide()
    ensures var e1 := EdgeElementFor(NodeRow(Str("a-b"), Null, Null, Str("c")));
      var e2 := EdgeElementFor(NodeRow(Str("a"), Null, Null, Str("b-c")));
      e1.id == e2.id == "Ea-b-c" && e1.source != e2.source && e1.target != e2.target
  {
    assert "E" + "a-b" + "-" + "c" == "Ea-b-c";
    assert "E" + "a" + "-" + "b-c" == "Ea-b-c";
    assert "N" + "a-b" != "N" + "a" by { assert |"N" + "a-b"| != |"N" + "a"|; }
    assert "N" + "c" != "N" + "b-c" by { assert |"N" + "c"| != |"N" + "b-c"|; }
  }

  lemma SmallIds()
    ensures NodeId(Num(1)) == "N1" && NodeId(Num(2)) == "N2" && NodeId(Num(3)) == "N3" && NodeId(Num(4)) == "N4"
    ensures Render(Num(1)) == "1" && Render(Num(2)) == "2"
  {
    assert NatToDecimal(1) == "1" && NatToDecimal(2) == "2" && NatToDecimal(3) == "3" && NatToDecimal(4) == "4";
  }

}
