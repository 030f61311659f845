/**
 * `_dfsTraverseNode` of src/lighditor.js: a depth-first, pre-order walk of the
 * editor tree with an explicit stack, tracking the row and column of every
 * node it visits.
 *
 * The walk is a cursor: `Next` pops one node, enters its row when it is a row
 * element, reports the visit, then moves the column past a text leaf and
 * pushes the children last-to-first.  A caller runs its visitor on each visit
 * and stops calling `Next` the first time the visitor says so; the `break`
 * of src/lighditor.js comes before the column update and the pushes, which
 * therefore have no observable effect once the walk has stopped.
 */
module Walk {
  import opened Dom
  import Rows

  /** The row and column the walk is at. */
  datatype WalkState = WalkState(row: int, column: nat)

  /** One call of the visitor: the node and the row and column passed with it. */
  datatype Visit = Visit(at: Located, row: int, column: nat)

  const Start := WalkState(0, 0)

  /** Entering a row element sets the row to its index and resets the column. */
  function Enter(x: Located, s: WalkState): WalkState
  {
    if Rows.IsRowElement(x.path) then WalkState(x.path[0], 0) else s
  }

  /** After the visitor, a text leaf moves the column past its characters. */
  function Leave(x: Located, s: WalkState): WalkState
  {
    if x.node.Text? then WalkState(s.row, s.column + |x.node.text|) else s
  }

  function Step(x: Located, s: WalkState): WalkState
  {
    Leave(x, Enter(x, s))
  }

  /** The visit the walk makes of `x` when it is at `s` before reaching it. */
  function VisitAt(x: Located, s: WalkState): Visit
  {
    var e := Enter(x, s);
    Visit(x, e.row, e.column)
  }

  /** Where the walk is after the nodes `xs`, starting at `s`. */
  function Track(xs: seq<Located>, s: WalkState): WalkState
  {
    if xs == [] then s else Step(xs[|xs| - 1], Track(xs[..|xs| - 1], s))
  }

  /** The visits made of the nodes `xs`, starting at `s`. */
  function Annotate(xs: seq<Located>, s: WalkState): seq<Visit>
  {
    if xs == [] then [] else Annotate(xs[..|xs| - 1], s) + [VisitAt(xs[|xs| - 1], Track(xs[..|xs| - 1], s))]
  }

  /** Every visit of a complete walk of the editor whose rows are `rows`. */
  function Visits(rows: seq<Node>): seq<Visit>
  {
    Annotate(PreOrder(Elem(rows), []), Start)
  }

  /** The nodes still to be walked for a stack whose top is its last element. */
  function Pending(stack: seq<Located>): seq<Located>
  {
    if stack == [] then [] else PreOrder(stack[|stack| - 1].node, stack[|stack| - 1].path) + Pending(stack[..|stack| - 1])
  }

  lemma TrackSnoc(xs: seq<Located>, x: Located, s: WalkState)
    ensures Track(xs + [x], s) == Step(x, Track(xs, s))
    ensures Annotate(xs + [x], s) == Annotate(xs, s) + [VisitAt(x, Track(xs, s))]
  {
    assert (xs + [x])[..|xs|] == xs;
  }

  lemma {:induction false} AnnotateLength(xs: seq<Located>, s: WalkState)
    ensures |Annotate(xs, s)| == |xs|
    ensures forall k :: 0 <= k < |xs| ==> Annotate(xs, s)[k].at == xs[k]
    decreases |xs|
  {
    if xs != [] {
      AnnotateLength(xs[..|xs| - 1], s);
    }
  }

  lemma {:induction false} TrackAppend(xs: seq<Located>, ys: seq<Located>, s: WalkState)
    ensures Track(xs + ys, s) == Track(ys, Track(xs, s))
    ensures Annotate(xs + ys, s) == Annotate(xs, s) + Annotate(ys, Track(xs, s))
    decreases |ys|
  {
    if ys == [] {
      assert xs + ys == xs;
    } else {
      var y := ys[|ys| - 1];
      var ys' := ys[..|ys| - 1];
      assert xs + ys == (xs + ys') + [y];
      TrackAppend(xs, ys', s);
      TrackSnoc(xs + ys', y, s);
    }
  }

  /** The visits of a concatenation: those of the first part, then those of the second from where the first ends. */
  lemma AnnotateSplit(xs: seq<Located>, ys: seq<Located>, s: WalkState, k: nat)
    requires k < |xs| + |ys|
    ensures |Annotate(xs + ys, s)| == |xs + ys| && |Annotate(xs, s)| == |xs|
    ensures k < |xs| ==> (xs + ys)[k] == xs[k] && Annotate(xs + ys, s)[k] == Annotate(xs, s)[k]
    ensures |Annotate(ys, Track(xs, s))| == |ys|
    ensures k >= |xs| ==> (xs + ys)[k] == ys[k - |xs|] && Annotate(xs + ys, s)[k] == Annotate(ys, Track(xs, s))[k - |xs|]
  {
    TrackAppend(xs, ys, s);
    AnnotateLength(xs + ys, s);
    AnnotateLength(xs, s);
    AnnotateLength(ys, Track(xs, s));
  }

  /** The walk of a subtree starts with the visit of its root. */
  lemma WalkRoot(n: Node, p: seq<nat>, s: WalkState)
    ensures PreOrder(n, p) == [At(n, p)] + ForestFrom(n, p, 0)
    ensures Track([At(n, p)], s) == Step(At(n, p), s)
    ensures Annotate([At(n, p)], s) == [VisitAt(At(n, p), s)]
  {
    TrackSnoc([], At(n, p), s);
    assert [] + [At(n, p)] == [At(n, p)];
  }

  /** The children from index `i` on: child `i`'s subtree, then the later children. */
  lemma ForestSplit(n: Node, p: seq<nat>, i: nat)
    requires i < |Children(n)|
    ensures ForestFrom(n, p, i) == PreOrder(n.children[i], p + [i]) + ForestFrom(n, p, i + 1)
    ensures SumLength(n, i + 1) == SumLength(n, i) + TextLength(n.children[i])
  {
  }

  /**
   * Walking a subtree that sits inside a row (its path is not empty) keeps
   * the row it was entered with and moves the column past all its text.
   */
  lemma {:induction false} TrackTree(n: Node, p: seq<nat>, s: WalkState)
    requires |p| >= 1
    ensures Track(PreOrder(n, p), s) == WalkState(Enter(At(n, p), s).row, Enter(At(n, p), s).column + TextLength(n))
    decreases n, 1
  {
    var x := At(n, p);
    var e := Enter(x, s);
    WalkRoot(n, p, s);
    TrackAppend([x], ForestFrom(n, p, 0), s);
    if n.Elem? {
      TrackForest(n, p, 0, e);
    }
  }

  lemma {:induction false} TrackForest(n: Node, p: seq<nat>, i: nat, t: WalkState)
    requires |p| >= 1 && i <= |Children(n)|
    ensures Track(ForestFrom(n, p, i), t).row == t.row
    ensures Track(ForestFrom(n, p, i), t).column + SumLength(n, i) == t.column + SumLength(n, |Children(n)|)
    decreases n, 0, |Children(n)| - i
  {
    if i < |Children(n)| {
      var c := n.children[i];
      var head := PreOrder(c, p + [i]);
      ForestSplit(n, p, i);
      TrackAppend(head, ForestFrom(n, p, i + 1), t);
      TrackTree(c, p + [i], t);
      TrackForest(n, p, i + 1, Track(head, t));
    }
  }

  /**
   * Inside a row, the visit of a node reports the row the subtree was
   * entered with, and a column that is the entry column plus the text that
   * comes before the node within the subtree.
   */
  lemma {:induction false} AnnotateTree(n: Node, p: seq<nat>, s: WalkState, k: nat)
    requires |p| >= 1 && k < |PreOrder(n, p)|
    ensures |Annotate(PreOrder(n, p), s)| == |PreOrder(n, p)|
    ensures |PreOrder(n, p)[k].path| >= |p| && PreOrder(n, p)[k].path[..|p|] == p
    ensures Annotate(PreOrder(n, p), s)[k]
         == Visit(PreOrder(n, p)[k], Enter(At(n, p), s).row,
                  Enter(At(n, p), s).column + TextBefore(n, PreOrder(n, p)[k].path[|p|..]))
    decreases n, 1
  {
    var x := At(n, p);
    var e := Enter(x, s);
    WalkRoot(n, p, s);
    AnnotateSplit([x], ForestFrom(n, p, 0), s, k);
    if k == 0 {
      assert x.path[|p|..] == [];
    } else {
      var f := ForestFrom(n, p, 0);
      assert n.Elem? && Step(x, s) == e;
      assert PreOrder(n, p)[k] == f[k - 1];
      assert Annotate(PreOrder(n, p), s)[k] == Annotate(f, e)[k - 1];
      AnnotateForest(n, p, 0, e, e.column, k - 1);
    }
  }

  lemma {:induction false} AnnotateForest(n: Node, p: seq<nat>, i: nat, t: WalkState, c0: nat, k: nat)
    requires |p| >= 1 && i <= |Children(n)| && k < |ForestFrom(n, p, i)|
    requires t.column == c0 + SumLength(n, i)
    ensures |Annotate(ForestFrom(n, p, i), t)| == |ForestFrom(n, p, i)|
    ensures |ForestFrom(n, p, i)[k].path| > |p| && ForestFrom(n, p, i)[k].path[..|p|] == p
    ensures Annotate(ForestFrom(n, p, i), t)[k]
         == Visit(ForestFrom(n, p, i)[k], t.row, c0 + TextBefore(n, ForestFrom(n, p, i)[k].path[|p|..]))
    decreases n, 0, |Children(n)| - i, 1
  {
    if k < |PreOrder(n.children[i], p + [i])| {
      ChildVisit(n, p, i, t, c0, k);
    } else {
      LaterChildVisit(n, p, i, t, c0, k);
    }
  }

  /** The case of `AnnotateForest` where the node lies in the subtree of child `i`. */
  lemma {:induction false} ChildVisit(n: Node, p: seq<nat>, i: nat, t: WalkState, c0: nat, k: nat)
    requires |p| >= 1 && i < |Children(n)| && k < |PreOrder(n.children[i], p + [i])|
    requires t.column == c0 + SumLength(n, i)
    ensures |Annotate(ForestFrom(n, p, i), t)| == |ForestFrom(n, p, i)| && k < |ForestFrom(n, p, i)|
    ensures |ForestFrom(n, p, i)[k].path| > |p| && ForestFrom(n, p, i)[k].path[..|p|] == p
    ensures Annotate(ForestFrom(n, p, i), t)[k]
         == Visit(ForestFrom(n, p, i)[k], t.row, c0 + TextBefore(n, ForestFrom(n, p, i)[k].path[|p|..]))
    decreases n, 0, |Children(n)| - i, 0
  {
    var c := n.children[i];
    var q := p + [i];
    var head := PreOrder(c, q);
    ForestSplit(n, p, i);
    AnnotateSplit(head, ForestFrom(n, p, i + 1), t, k);
    AnnotateTree(c, q, t, k);
    var y := head[k];
    PathSplit(y.path, p, i);
    var rest := y.path[|q|..];
    assert ([i] + rest)[0] == i && ([i] + rest)[1..] == rest;
    assert TextBefore(n, y.path[|p|..]) == SumLength(n, i) + TextBefore(c, rest);
  }

  /** A path below child `i` of the node at `p`, split at `p`. */
  lemma PathSplit(path: seq<nat>, p: seq<nat>, i: nat)
    requires |path| >= |p| + 1 && path[..|p| + 1] == p + [i]
    ensures path[..|p|] == p && path[|p|..] == [i] + path[|p| + 1..]
  {
    assert path[..|p|] == path[..|p| + 1][..|p|];
    assert path[|p|..][0] == path[..|p| + 1][|p|];
  }

  /** The case of `AnnotateForest` where the node lies after the subtree of child `i`. */
  lemma {:induction false} LaterChildVisit(n: Node, p: seq<nat>, i: nat, t: WalkState, c0: nat, k: nat)
    requires |p| >= 1 && i < |Children(n)| && |PreOrder(n.children[i], p + [i])| <= k < |ForestFrom(n, p, i)|
    requires t.column == c0 + SumLength(n, i)
    ensures |Annotate(ForestFrom(n, p, i), t)| == |ForestFrom(n, p, i)|
    ensures |ForestFrom(n, p, i)[k].path| > |p| && ForestFrom(n, p, i)[k].path[..|p|] == p
    ensures Annotate(ForestFrom(n, p, i), t)[k]
         == Visit(ForestFrom(n, p, i)[k], t.row, c0 + TextBefore(n, ForestFrom(n, p, i)[k].path[|p|..]))
    decreases n, 0, |Children(n)| - i, 0
  {
    var c := n.children[i];
    var head := PreOrder(c, p + [i]);
    ForestSplit(n, p, i);
    AnnotateSplit(head, ForestFrom(n, p, i + 1), t, k);
    TrackTree(c, p + [i], t);
    AnnotateForest(n, p, i + 1, Track(head, t), c0, k - |head|);
  }

  /**
   * The walk's whole report: the root first at row 0 and column 0, then every
   * other node at the row it belongs to and at a column equal to the length
   * of the text before it within that row.
   */
  lemma VisitColumns(rows: seq<Node>, k: nat)
    requires k < |Visits(rows)|
    ensures |Visits(rows)| == |PreOrder(Elem(rows), [])|
    ensures Visits(rows)[k].at == PreOrder(Elem(rows), [])[k]
    ensures k == 0 ==> Visits(rows)[k] == Visit(At(Elem(rows), []), 0, 0)
    ensures k > 0 ==> var v := Visits(rows)[k];
      && |v.at.path| >= 1 && v.at.path[0] < |rows|
      && v.row == v.at.path[0]
      && v.column == TextBefore(rows[v.at.path[0]], v.at.path[1..])
  {
    var root := At(Elem(rows), []);
    AnnotateLength(PreOrder(Elem(rows), []), Start);
    WalkRoot(Elem(rows), [], Start);
    AnnotateSplit([root], ForestFrom(Elem(rows), [], 0), Start, k);
    if k > 0 {
      RowsForest(rows, 0, Start, k - 1);
    }
  }

  /** The rows of the editor, each entered at its own index with the column reset. */
  lemma {:induction false} RowsForest(rows: seq<Node>, i: nat, t: WalkState, k: nat)
    requires i <= |rows| && k < |ForestFrom(Elem(rows), [], i)|
    ensures |Annotate(ForestFrom(Elem(rows), [], i), t)| == |ForestFrom(Elem(rows), [], i)|
    ensures var y := ForestFrom(Elem(rows), [], i)[k];
      && |y.path| >= 1 && y.path[0] < |rows|
      && Annotate(ForestFrom(Elem(rows), [], i), t)[k] == Visit(y, y.path[0], TextBefore(rows[y.path[0]], y.path[1..]))
    decreases |rows| - i
  {
    assert Children(Elem(rows)) == rows && [] + [i] == [i];
    var head := PreOrder(rows[i], [i]);
    ForestSplit(Elem(rows), [], i);
    AnnotateSplit(head, ForestFrom(Elem(rows), [], i + 1), t, k);
    if k < |head| {
      AnnotateTree(rows[i], [i], t, k);
      var y := head[k];
      assert y.path[0] == y.path[..1][0] == i;
      assert Enter(At(rows[i], [i]), t) == WalkState(i, 0);
    } else {
      RowsForest(rows, i + 1, Track(head, t), k - |head|);
    }
  }

  /** Every stacked node really is in the tree at its path. */
  ghost predicate InTree(rows: seq<Node>, stack: seq<Located>)
  {
    forall i :: 0 <= i < |stack| ==> NodeAt(Elem(rows), stack[i].path) == Some(stack[i].node)
  }

  lemma Regroup(visited: seq<Located>, x: Located, f: seq<Located>, rest: seq<Located>)
    ensures (visited + [x]) + (f + rest) == visited + (([x] + f) + rest)
  {
  }

  /** Moving the popped node from the stack to the visited nodes keeps the cover of the order. */
  lemma CoverStep(order: seq<Located>, below: seq<Located>, x: Located, stack': seq<Located>, visited: seq<Located>)
    requires visited + Pending(below + [x]) == order
    requires Pending(stack') == ForestFrom(x.node, x.path, 0) + Pending(below)
    ensures (visited + [x]) + Pending(stack') == order
  {
    var f := ForestFrom(x.node, x.path, 0);
    var rest := Pending(below);
    assert (below + [x])[..|below|] == below;
    assert Pending(below + [x]) == PreOrder(x.node, x.path) + rest;
    assert PreOrder(x.node, x.path) == [x] + f;
    Regroup(visited, x, f, rest);
  }

  /** The visits of a whole walk: those made so far, then those of the nodes still stacked. */
  lemma VisitsSplit(rows: seq<Node>, visited: seq<Located>, stack: seq<Located>)
    requires visited + Pending(stack) == PreOrder(Elem(rows), [])
    ensures Visits(rows) == Annotate(visited, Start) + Annotate(Pending(stack), Track(visited, Start))
  {
    TrackAppend(visited, Pending(stack), Start);
  }

  /** The walk's invariant, over the values of its fields. */
  ghost predicate WalkInv(rows: seq<Node>, order: seq<Located>, stack: seq<Located>, visited: seq<Located>, s: WalkState)
  {
    && visited + Pending(stack) == order
    && s == Track(visited, Start)
    && InTree(rows, stack)
  }

  /** One pop-visit-push turn keeps the invariant and shortens what is left. */
  lemma NextStep(rows: seq<Node>, order: seq<Located>, stack: seq<Located>, below: seq<Located>, x: Located,
                 pushed: seq<Located>, visited: seq<Located>, s: WalkState,
                 stack': seq<Located>, visited': seq<Located>, s': WalkState)
    requires WalkInv(rows, order, stack, visited, s) && stack == below + [x]
    requires InTree(rows, pushed)
    requires stack' == below + pushed && visited' == visited + [x] && s' == Step(x, s)
    requires Pending(stack') == ForestFrom(x.node, x.path, 0) + Pending(below)
    ensures WalkInv(rows, order, stack', visited', s')
    ensures |Pending(stack')| < |Pending(stack)|
  {
    assert stack[..|below|] == below;
    assert Pending(stack) == PreOrder(x.node, x.path) + Pending(below);
    CoverStep(order, below, x, stack', visited);
    TrackSnoc(visited, x, Start);
    forall i | 0 <= i < |stack'| ensures NodeAt(Elem(rows), stack'[i].path) == Some(stack'[i].node) {
      if i < |below| { assert stack'[i] == stack[i]; } else { assert stack'[i] == pushed[i - |below|]; }
    }
  }

  /** Pushing a node onto the stack puts its subtree in front of what was pending. */
  lemma PendingPush(stack: seq<Located>, y: Located)
    ensures Pending(stack + [y]) == PreOrder(y.node, y.path) + Pending(stack)
  {
    assert (stack + [y])[..|stack|] == stack;
  }

  lemma Assoc(a: seq<Located>, b: seq<Located>, c: seq<Located>)
    ensures a + (b + c) == (a + b) + c
  {
  }

  /** Pushing child `i` of `x` extends the pending order by that child's subtree, in front. */
  lemma PushStep(x: Located, i: nat, stack: seq<Located>, pushed: seq<Located>)
    requires i < |Children(x.node)|
    requires Pending(stack + pushed) == ForestFrom(x.node, x.path, i + 1) + Pending(stack)
    ensures Pending(stack + (pushed + [At(x.node.children[i], x.path + [i])])) == ForestFrom(x.node, x.path, i) + Pending(stack)
  {
    var child := At(x.node.children[i], x.path + [i]);
    var head := PreOrder(child.node, child.path);
    var later := ForestFrom(x.node, x.path, i + 1);
    Assoc(stack, pushed, [child]);
    PendingPush(stack + pushed, child);
    Assoc(head, later, Pending(stack));
    assert ForestFrom(x.node, x.path, i) == head + later;
  }

  /** The node on top of the stack is in the tree. */
  lemma VisitFacts(rows: seq<Node>, stack: seq<Located>, below: seq<Located>, x: Located, visited: seq<Located>)
    requires InTree(rows, stack)
    requires stack != [] && x == stack[|stack| - 1] && below == stack[..|stack| - 1]
    ensures stack == below + [x]
    ensures NodeAt(Elem(rows), x.path) == Some(x.node)
  {
    assert stack == below + [x];
  }

  /**
   * The walk's stack, the row and column it is at, and (as ghost state) the
   * nodes it has visited so far and the document order it follows.
   */
  class DfsWalk {
    const rows: seq<Node>
    /** The document order of the whole editor tree. */
    ghost const order: seq<Located>
    var nodeStack: seq<Located>
    var row: int
    var column: nat
    /** The nodes visited so far, in order. */
    ghost var visited: seq<Located>

    ghost predicate Valid()
      reads this
    {
      && order == PreOrder(Elem(rows), [])
      && WalkInv(rows, order, nodeStack, visited, WalkState(row, column))
    }

    /** A walk that has not started: only the editor root is on the stack. */
    constructor (rows: seq<Node>)
      ensures Valid() && this.rows == rows
      ensures visited == [] && nodeStack == [At(Elem(rows), [])]
    {
      this.rows := rows;
      order := PreOrder(Elem(rows), []);
      nodeStack := [At(Elem(rows), [])];
      row, column := 0, 0;
      visited := [];
    }

    /** How many nodes the walk has left. */
    ghost function Remaining(): nat
      reads this
    {
      |Pending(nodeStack)|
    }

    /** One turn of the `while (node = nodeStack.pop())` loop of `_dfsTraverseNode`. */
    method Next() returns (v: Visit)
      requires Valid() && nodeStack != []
      modifies this
      ensures Valid() && Remaining() < old(Remaining())
      ensures visited == old(visited) + [v.at]
      ensures Annotate(visited, Start) == Annotate(old(visited), Start) + [v]
      ensures v == VisitAt(v.at, old(WalkState(row, column)))
      ensures WalkState(row, column) == Leave(v.at, WalkState(v.row, v.column))
      ensures NodeAt(Elem(rows), v.at.path) == Some(v.at.node)
    {
      var x := nodeStack[|nodeStack| - 1];
      var below := nodeStack[..|nodeStack| - 1];
      ghost var s, stack := WalkState(row, column), nodeStack;
      VisitFacts(rows, nodeStack, below, x, visited);
      TrackSnoc(visited, x, Start);
      nodeStack := below;
      v := Arrive(x);
      ghost var pushed := PushChildren(x);
      NextStep(rows, order, stack, below, x, pushed, visited, s, nodeStack, visited + [x], WalkState(row, column));
      visited := visited + [x];
    }

    /**
     * The row and column bookkeeping around one visit: a row element sets the
     * row to its resolved index and the column to 0; after the visit, a text
     * leaf moves the column past its characters.
     */
    method Arrive(x: Located) returns (v: Visit)
      requires NodeAt(Elem(rows), x.path) == Some(x.node)
      modifies this`row, this`column
      ensures v == VisitAt(x, old(WalkState(row, column)))
      ensures WalkState(row, column) == Step(x, old(WalkState(row, column)))
    {
      if Rows.IsRowElement(x.path) {
        row := Rows.GetRowIndex(rows, InEditor(x.path));
        column := 0;
      }
      v := Visit(x, row, column);
      if x.node.Text? {
        column := column + |x.node.text|;
      }
    }

    /** The `while (childIndex--) nodeStack.push(childNodes[childIndex])`. */
    method PushChildren(x: Located) returns (ghost pushed: seq<Located>)
      requires NodeAt(Elem(rows), x.path) == Some(x.node)
      modifies this`nodeStack
      ensures nodeStack == old(nodeStack) + pushed
      ensures Pending(nodeStack) == ForestFrom(x.node, x.path, 0) + Pending(old(nodeStack))
      ensures InTree(rows, pushed)
    {
      var children := Children(x.node);
      var childIndex := |children|;
      var stack := nodeStack;
      pushed := [];
      assert stack + pushed == stack;
      while childIndex > 0
        invariant 0 <= childIndex <= |children|
        invariant nodeStack == stack + pushed
        invariant Pending(stack + pushed) == ForestFrom(x.node, x.path, childIndex) + Pending(stack)
        invariant InTree(rows, pushed)
      {
        childIndex := childIndex - 1;
        NodeAtChild(Elem(rows), x.path, x.node, childIndex);
        var child := At(children[childIndex], x.path + [childIndex]);
        PushStep(x, childIndex, stack, pushed);
        nodeStack := nodeStack + [child];
        pushed := pushed + [child];
      }
    }
  }
}
