/**
 * `_getInputText` of src/lighditor.js: the walk of the editor tree compiled
 * back into text.  Every row element starts a fresh row of characters; every
 * text leaf is written into its row at the column the walk reports, after
 * padding a gap before that column with spaces; a leaf whose column lies
 * inside what the row already holds stops the walk.  The rows are then
 * joined with '\n'.
 *
 * The copy of a leaf's characters runs while `i < nodeText.length` with `i`
 * starting at the column, so a leaf at column c contributes only its first
 * `length - c` characters.  The flag `fullCopy` selects the bound
 * `column + nodeText.length` instead; src/lighditor.js as written is
 * `fullCopy == false`.
 */
module Compiler {
  import opened Dom
  import Rows
  import opened Walk

  /** The rows of characters built so far, and whether the visitor asked the walk to stop. */
  datatype Progress = Progress(contents: seq<string>, halted: bool)

  const Begin := Progress([], false)

  function Spaces(n: nat): (r: string)
    ensures |r| == n && forall i :: 0 <= i < n ==> r[i] == ' '
  {
    if n == 0 then [] else Spaces(n - 1) + [' ']
  }

  /**
   * `contents[row] = []` on the row arrays: the row becomes empty; rows
   * below it that did not exist yet are holes, which the final join reads
   * as empty rows.
   */
  function ResetRow(contents: seq<string>, row: nat): (r: seq<string>)
    ensures |r| == if row < |contents| then |contents| else row + 1
    ensures r[row] == []
    ensures forall i :: 0 <= i < |r| && i != row ==> r[i] == if i < |contents| then contents[i] else []
  {
    if row < |contents| then contents[row := []]
    else contents + seq(row - |contents|, _ => []) + [[]]
  }

  /** The back-fill: a row shorter than a positive column is padded with spaces up to it. */
  function Pad(rc: string, column: nat): string
  {
    if column > 0 && |rc| < column then rc + Spaces(column - |rc|) else rc
  }

  /** What the copy loop appends for a leaf placed at `column`. */
  function Copied(text: string, column: nat, fullCopy: bool): string
  {
    if fullCopy then text
    else if |text| > column then text[..|text| - column]
    else []
  }

  /** The row the visit writes to, after a row element has reset its own row. */
  function Entered(contents: seq<string>, v: Visit): seq<string>
  {
    if Rows.IsRowElement(v.at.path) && v.row >= 0 then ResetRow(contents, v.row) else contents
  }

  /**
   * The visitor of `_getInputText` applied to one visit.  A text leaf whose
   * row does not exist (src/lighditor.js would fail on `undefined`) or whose
   * back-fill would never reach a filled slot (a positive column on an empty
   * row) also stops the walk here; `CompileLines` shows neither happens.
   */
  function CompileStep(contents: seq<string>, v: Visit, fullCopy: bool): (r: Progress)
    ensures !v.at.node.Text? ==> r == Progress(Entered(contents, v), false)
    ensures |r.contents| == |Entered(contents, v)|
    ensures forall i :: 0 <= i < |r.contents| && i != v.row ==> r.contents[i] == Entered(contents, v)[i]
    ensures v.at.node.Text? && 0 <= v.row < |Entered(contents, v)| && |Entered(contents, v)[v.row]| > v.column
      ==> r == Progress(Entered(contents, v), true)
    ensures v.at.node.Text? && !r.halted
      ==> 0 <= v.row < |r.contents| && Entered(contents, v)[v.row] <= r.contents[v.row] && |r.contents[v.row]| >= v.column
  {
    var c := Entered(contents, v);
    if !v.at.node.Text? then Progress(c, false)
    else if !(0 <= v.row < |c|) then Progress(c, true)
    else if v.column > 0 && |c[v.row]| == 0 then Progress(c, true)
    else
      var filled := Pad(c[v.row], v.column);
      if |filled| > v.column then Progress(c[v.row := filled], true)
      else Progress(c[v.row := filled + Copied(v.at.node.text, v.column, fullCopy)], false)
  }

  /** The visitor applied to the visits `vs` in order, from `p`, skipping everything once halted. */
  function CompileFrom(p: Progress, vs: seq<Visit>, fullCopy: bool): Progress
  {
    if vs == [] then p
    else
      var q := CompileFrom(p, vs[..|vs| - 1], fullCopy);
      if q.halted then q else CompileStep(q.contents, vs[|vs| - 1], fullCopy)
  }

  /** `contents.map(row => row.join('')).join('\n')`. */
  function JoinLines(lines: seq<string>): (r: string)
    ensures lines != [] ==> lines[0] <= r
    ensures |lines| > 1 ==> |r| > |lines[0]| && r[|lines[0]|] == '\n'
  {
    if lines == [] then []
    else if |lines| == 1 then lines[0]
    else lines[0] + ['\n'] + JoinLines(lines[1..])
  }

  /** The text `_getInputText` returns for the editor whose rows are `rows`. */
  function Compile(rows: seq<Node>, fullCopy: bool): string
  {
    JoinLines(CompileFrom(Begin, Visits(rows), fullCopy).contents)
  }

  // ---------------------------------------------------------------------
  // A reference definition by recursion over the tree.

  /** The row after the leaf `text` is placed at `column`. */
  function PlaceText(rc: string, column: nat, text: string, fullCopy: bool): (r: string)
    requires |rc| <= column && (column > 0 ==> |rc| > 0)
    ensures |r| <= column + |text| && (column + |text| > 0 ==> |r| > 0)
    ensures fullCopy ==> r == Pad(rc, column) + text && |r| == column + |text|
  {
    Pad(rc, column) + Copied(text, column, fullCopy)
  }

  /**
   * The row after the leaves of `n` are placed one after the other, the
   * first at `column` and each next one where the previous one's text ends.
   */
  function FillTree(rc: string, column: nat, n: Node, fullCopy: bool): (r: string)
    requires |rc| <= column && (column > 0 ==> |rc| > 0)
    ensures |r| <= column + TextLength(n) && (column + TextLength(n) > 0 ==> |r| > 0)
    decreases n, 1
  {
    match n
    case Text(s) => PlaceText(rc, column, s, fullCopy)
    case Elem(_) => FillForest(rc, column, n, 0, fullCopy)
  }

  function FillForest(rc: string, column: nat, n: Node, i: nat, fullCopy: bool): (r: string)
    requires i <= |Children(n)|
    requires |rc| <= column && (column > 0 ==> |rc| > 0)
    ensures |r| <= column + SumLength(n, |Children(n)|) - SumLength(n, i)
    ensures column + SumLength(n, |Children(n)|) - SumLength(n, i) > 0 ==> |r| > 0
    decreases n, 0, |Children(n)| - i
  {
    if i == |Children(n)| then rc
    else
      var c := n.children[i];
      FillForest(FillTree(rc, column, c, fullCopy), column + TextLength(c), n, i + 1, fullCopy)
  }

  /** The leaves of child `i` fill `rc` into `row`; the later children continue from `column'`. */
  lemma FillForestStep(rc: string, column: nat, n: Node, i: nat, fullCopy: bool, row: string, column': nat)
    requires i < |Children(n)| && |rc| <= column && (column > 0 ==> |rc| > 0)
    requires row == FillTree(rc, column, n.children[i], fullCopy) && column' == column + TextLength(n.children[i])
    ensures |row| <= column' && (column' > 0 ==> |row| > 0)
    ensures FillForest(rc, column, n, i, fullCopy) == FillForest(row, column', n, i + 1, fullCopy)
  {
  }

  /** Each row compiled on its own, from an empty row at column 0. */
  function Lines(rows: seq<Node>, fullCopy: bool): (r: seq<string>)
    ensures |r| == |rows|
  {
    seq(|rows|, i requires 0 <= i < |rows| => FillTree([], 0, rows[i], fullCopy))
  }

  // ---------------------------------------------------------------------
  // The fold over visits agrees with the reference definition.

  lemma {:induction false} CompileAppend(p: Progress, xs: seq<Visit>, ys: seq<Visit>, fullCopy: bool)
    ensures CompileFrom(p, xs + ys, fullCopy) == CompileFrom(CompileFrom(p, xs, fullCopy), ys, fullCopy)
    decreases |ys|
  {
    if ys == [] {
      assert xs + ys == xs;
    } else {
      assert (xs + ys)[..|xs + ys| - 1] == xs + ys[..|ys| - 1];
      CompileAppend(p, xs, ys[..|ys| - 1], fullCopy);
    }
  }

  /** Once the visitor has asked to stop, nothing changes any more: later visits are not made. */
  lemma {:induction false} CompileHalted(p: Progress, vs: seq<Visit>, fullCopy: bool)
    ensures p.halted ==> CompileFrom(p, vs, fullCopy) == p
    decreases |vs|
  {
    if vs != [] {
      CompileHalted(p, vs[..|vs| - 1], fullCopy);
    }
  }

  /** One more visit: the visitor runs on it unless the walk has already stopped. */
  lemma CompileSnoc(p: Progress, vs: seq<Visit>, v: Visit, fullCopy: bool)
    ensures CompileFrom(p, vs + [v], fullCopy)
         == var q := CompileFrom(p, vs, fullCopy); if q.halted then q else CompileStep(q.contents, v, fullCopy)
  {
    assert (vs + [v])[..|vs|] == vs;
  }

  lemma CompileOne(p: Progress, v: Visit, fullCopy: bool)
    ensures CompileFrom(p, [v], fullCopy) == if p.halted then p else CompileStep(p.contents, v, fullCopy)
  {
    assert [v][..0] == [];
  }

  /** The visits of a subtree: its root's visit first, then those of its children. */
  lemma TreeVisits(n: Node, p: seq<nat>, t: WalkState)
    ensures Annotate(PreOrder(n, p), t)
         == [VisitAt(At(n, p), t)] + Annotate(ForestFrom(n, p, 0), Step(At(n, p), t))
  {
    WalkRoot(n, p, t);
    TrackAppend([At(n, p)], ForestFrom(n, p, 0), t);
  }

  /** The visits of the children from `i` on: child `i`'s subtree, then the later ones. */
  lemma ForestVisits(n: Node, p: seq<nat>, i: nat, t: WalkState)
    requires i < |Children(n)|
    ensures Annotate(ForestFrom(n, p, i), t)
         == Annotate(PreOrder(n.children[i], p + [i]), t)
          + Annotate(ForestFrom(n, p, i + 1), Track(PreOrder(n.children[i], p + [i]), t))
  {
    ForestSplit(n, p, i);
    TrackAppend(PreOrder(n.children[i], p + [i]), ForestFrom(n, p, i + 1), t);
  }

  /** The condition under which a row can take more leaves: no overlap, and slot 0 filled once the column is positive. */
  ghost predicate Open(contents: seq<string>, t: WalkState)
  {
    0 <= t.row < |contents| && |contents[t.row]| <= t.column && (t.column > 0 ==> |contents[t.row]| > 0)
  }

  /** Compiling a subtree below a row element writes exactly `FillTree` into the current row. */
  lemma {:induction false} DeepTree(c: seq<string>, n: Node, p: seq<nat>, t: WalkState, fullCopy: bool)
    requires |p| >= 2 && Open(c, t)
    ensures CompileFrom(Progress(c, false), Annotate(PreOrder(n, p), t), fullCopy)
         == Progress(c[t.row := FillTree(c[t.row], t.column, n, fullCopy)], false)
    decreases n, 1
  {
    var x := At(n, p);
    TreeVisits(n, p, t);
    CompileAppend(Progress(c, false), [VisitAt(x, t)], Annotate(ForestFrom(n, p, 0), Step(x, t)), fullCopy);
    CompileOne(Progress(c, false), VisitAt(x, t), fullCopy);
    assert VisitAt(x, t) == Visit(x, t.row, t.column);
    if n.Text? {
      assert ForestFrom(n, p, 0) == [];
    } else {
      assert Step(x, t) == t;
      DeepForest(c, n, p, 0, t, fullCopy);
    }
  }

  lemma {:induction false} DeepForest(c: seq<string>, n: Node, p: seq<nat>, i: nat, t: WalkState, fullCopy: bool)
    requires |p| >= 1 && i <= |Children(n)| && Open(c, t)
    ensures CompileFrom(Progress(c, false), Annotate(ForestFrom(n, p, i), t), fullCopy)
         == Progress(c[t.row := FillForest(c[t.row], t.column, n, i, fullCopy)], false)
    decreases n, 0, |Children(n)| - i, 1
  {
    if i == |Children(n)| {
      assert c[t.row := c[t.row]] == c;
    } else {
      DeepChild(c, n, p, i, t, fullCopy);
    }
  }

  /** The case of `DeepForest` with a child left: that child's subtree, then the later children. */
  lemma {:induction false} DeepChild(c: seq<string>, n: Node, p: seq<nat>, i: nat, t: WalkState, fullCopy: bool)
    requires |p| >= 1 && i < |Children(n)| && Open(c, t)
    ensures CompileFrom(Progress(c, false), Annotate(ForestFrom(n, p, i), t), fullCopy)
         == Progress(c[t.row := FillForest(c[t.row], t.column, n, i, fullCopy)], false)
    decreases n, 0, |Children(n)| - i, 0
  {
    var child := n.children[i];
    var next := WalkState(t.row, t.column + TextLength(child));
    var row := FillTree(c[t.row], t.column, child, fullCopy);
    DeepTree(c, child, p + [i], t, fullCopy);
    DeepForest(c[t.row := row], n, p, i + 1, next, fullCopy);
    ChildThenSiblings(c, n, p, i, t, row, next, fullCopy);
  }

  /**
   * Compiling child `i`'s subtree writes `FillTree` of it into the row, and
   * compiling the later children from there writes their `FillForest`; the
   * two together write the `FillForest` of the children from `i` on.
   */
  lemma ChildThenSiblings(c: seq<string>, n: Node, p: seq<nat>, i: nat, t: WalkState, row: string, next: WalkState, fullCopy: bool)
    requires |p| >= 1 && i < |Children(n)| && Open(c, t)
    requires row == FillTree(c[t.row], t.column, n.children[i], fullCopy)
    requires next == WalkState(t.row, t.column + TextLength(n.children[i]))
    requires CompileFrom(Progress(c, false), Annotate(PreOrder(n.children[i], p + [i]), t), fullCopy) == Progress(c[t.row := row], false)
    requires Open(c[t.row := row], next)
    requires CompileFrom(Progress(c[t.row := row], false), Annotate(ForestFrom(n, p, i + 1), next), fullCopy)
          == Progress(c[t.row := row][next.row := FillForest(c[t.row := row][next.row], next.column, n, i + 1, fullCopy)], false)
    ensures CompileFrom(Progress(c, false), Annotate(ForestFrom(n, p, i), t), fullCopy)
         == Progress(c[t.row := FillForest(c[t.row], t.column, n, i, fullCopy)], false)
  {
    FillForestStep(c[t.row], t.column, n, i, fullCopy, row, next.column);
    var whole := FillForest(row, next.column, n, i + 1, fullCopy);
    assert c[t.row := row][next.row] == row;
    ChildSplit(n, p, i, t);
    Chain(Progress(c, false), Annotate(PreOrder(n.children[i], p + [i]), t), Annotate(ForestFrom(n, p, i + 1), next),
          Annotate(ForestFrom(n, p, i), t), c, t.row, row, whole, fullCopy);
  }

  /** The visits of the children from `i` on: child `i`'s subtree, then the later children from the column after it. */
  lemma ChildSplit(n: Node, p: seq<nat>, i: nat, t: WalkState)
    requires |p| >= 1 && i < |Children(n)|
    ensures Annotate(ForestFrom(n, p, i), t)
         == Annotate(PreOrder(n.children[i], p + [i]), t)
          + Annotate(ForestFrom(n, p, i + 1), WalkState(t.row, t.column + TextLength(n.children[i])))
  {
    TrackTree(n.children[i], p + [i], t);
    ForestVisits(n, p, i, t);
  }

  /**
   * Two stretches of visits compiled one after the other, the first writing
   * `row` into row `r` and the second then writing `whole` there.
   */
  lemma Chain(start: Progress, xs: seq<Visit>, ys: seq<Visit>, all: seq<Visit>, c: seq<string>, r: nat, row: string, whole: string, fullCopy: bool)
    requires all == xs + ys && r < |c|
    requires CompileFrom(start, xs, fullCopy) == Progress(c[r := row], false)
    requires CompileFrom(Progress(c[r := row], false), ys, fullCopy) == Progress(c[r := row][r := whole], false)
    ensures CompileFrom(start, all, fullCopy) == Progress(c[r := whole], false)
  {
    CompileAppend(start, xs, ys, fullCopy);
    UpdateTwice(c, r, row, whole);
  }

  lemma UpdateTwice(c: seq<string>, r: nat, a: string, b: string)
    requires r < |c|
    ensures c[r := a][r := b] == c[r := b]
  {
  }

  /** Compiling row `i` when the rows before it are done appends that row's `FillTree`. */
  lemma RowTree(c: seq<string>, rows: seq<Node>, i: nat, t: WalkState, fullCopy: bool)
    requires i < |rows| && |c| == i
    ensures CompileFrom(Progress(c, false), Annotate(PreOrder(rows[i], [i]), t), fullCopy)
         == Progress(c + [FillTree([], 0, rows[i], fullCopy)], false)
  {
    var x := At(rows[i], [i]);
    var e := WalkState(i, 0);
    TreeVisits(rows[i], [i], t);
    assert VisitAt(x, t) == Visit(x, i, 0);
    CompileAppend(Progress(c, false), [VisitAt(x, t)], Annotate(ForestFrom(rows[i], [i], 0), Step(x, t)), fullCopy);
    CompileOne(Progress(c, false), VisitAt(x, t), fullCopy);
    assert Entered(c, Visit(x, i, 0)) == c + [[]];
    if rows[i].Text? {
      assert ForestFrom(rows[i], [i], 0) == [];
    } else {
      assert Step(x, t) == e;
      DeepForest(c + [[]], rows[i], [i], 0, e, fullCopy);
      assert (c + [[]])[i := FillForest([], 0, rows[i], 0, fullCopy)] == c + [FillTree([], 0, rows[i], fullCopy)];
    }
  }

  lemma {:induction false} RowsCompile(c: seq<string>, rows: seq<Node>, i: nat, t: WalkState, fullCopy: bool)
    requires i <= |rows| && c == Lines(rows, fullCopy)[..i]
    ensures CompileFrom(Progress(c, false), Annotate(ForestFrom(Elem(rows), [], i), t), fullCopy)
         == Progress(Lines(rows, fullCopy), false)
    decreases |rows| - i, 1
  {
    if i == |rows| {
      assert Children(Elem(rows)) == rows;
      assert c == Lines(rows, fullCopy);
    } else {
      NextRow(c, rows, i, t, fullCopy);
    }
  }

  /** The case of `RowsCompile` with a row left: that row, then the later rows. */
  lemma {:induction false} NextRow(c: seq<string>, rows: seq<Node>, i: nat, t: WalkState, fullCopy: bool)
    requires i < |rows| && c == Lines(rows, fullCopy)[..i]
    ensures CompileFrom(Progress(c, false), Annotate(ForestFrom(Elem(rows), [], i), t), fullCopy)
         == Progress(Lines(rows, fullCopy), false)
    decreases |rows| - i, 0
  {
    assert Children(Elem(rows)) == rows && [] + [i] == [i];
    var head := PreOrder(rows[i], [i]);
    var t' := Track(head, t);
    ForestVisits(Elem(rows), [], i, t);
    CompileAppend(Progress(c, false), Annotate(head, t), Annotate(ForestFrom(Elem(rows), [], i + 1), t'), fullCopy);
    RowTree(c, rows, i, t, fullCopy);
    var c' := c + [FillTree([], 0, rows[i], fullCopy)];
    LinesPrefix(rows, i, fullCopy);
    RowsCompile(c', rows, i + 1, t', fullCopy);
  }

  lemma LinesPrefix(rows: seq<Node>, i: nat, fullCopy: bool)
    requires i < |rows|
    ensures Lines(rows, fullCopy)[..i + 1] == Lines(rows, fullCopy)[..i] + [FillTree([], 0, rows[i], fullCopy)]
  {
    var l := Lines(rows, fullCopy);
    assert l[..i + 1] == l[..i] + [l[i]];
  }

  /**
   * The compile of the whole walk never stops early and yields, for every
   * row, that row compiled on its own: the overlap branch of the visitor is
   * never taken, every text leaf finds its row, and the back-fill always
   * reaches a filled slot.
   */
  lemma CompileLines(rows: seq<Node>, fullCopy: bool)
    ensures CompileFrom(Begin, Visits(rows), fullCopy) == Progress(Lines(rows, fullCopy), false)
    ensures Compile(rows, fullCopy) == JoinLines(Lines(rows, fullCopy))
  {
    var root := At(Elem(rows), []);
    TreeVisits(Elem(rows), [], Start);
    assert VisitAt(root, Start) == Visit(root, 0, 0) && Step(root, Start) == Start;
    CompileAppend(Begin, [VisitAt(root, Start)], Annotate(ForestFrom(Elem(rows), [], 0), Start), fullCopy);
    CompileOne(Begin, VisitAt(root, Start), fullCopy);
    RowsCompile([], rows, 0, Start, fullCopy);
  }

  /**
   * On a tree that does not change during the walk the visitor never asks
   * to stop: the overlap branch and a back-fill that never ends are
   * unreachable at every point of the walk, whatever the tree.
   */
  lemma NeverHalts(rows: seq<Node>, m: nat, fullCopy: bool)
    requires m <= |Visits(rows)|
    ensures !CompileFrom(Begin, Visits(rows)[..m], fullCopy).halted
  {
    var vs := Visits(rows);
    assert vs == vs[..m] + vs[m..];
    CompileAppend(Begin, vs[..m], vs[m..], fullCopy);
    CompileHalted(CompileFrom(Begin, vs[..m], fullCopy), vs[m..], fullCopy);
    CompileLines(rows, fullCopy);
  }

  /**
   * A text leaf whose column lies inside what its row already holds stops
   * the walk: the rows stay as they were, and no later visit changes them.
   * By `NeverHalts` no walk of a fixed tree reaches this state; it is what
   * the compiler does when the tree is changed under it.
   */
  lemma OverlapStops(p: Progress, vs: seq<Visit>, v: Visit, later: seq<Visit>, contents: seq<string>, fullCopy: bool)
    requires CompileFrom(p, vs, fullCopy) == Progress(contents, false)
    requires v.at.node.Text? && 0 <= v.row < |Entered(contents, v)| && |Entered(contents, v)[v.row]| > v.column
    ensures CompileFrom(p, vs + [v] + later, fullCopy) == Progress(Entered(contents, v), true)
  {
    var c := Entered(contents, v);
    CompileAppend(p, vs + [v], later, fullCopy);
    CompileSnoc(p, vs, v, fullCopy);
    assert c[v.row := c[v.row]] == c;
    CompileHalted(Progress(c, true), later, fullCopy);
  }

  // ---------------------------------------------------------------------
  // The copy bound.

  /** The characters of the text leaves of `n`, in document order. */
  function Flatten(n: Node): (r: string)
    ensures |r| == TextLength(n)
    decreases n, 1
  {
    match n
    case Text(s) => s
    case Elem(_) => FlattenFrom(n, 0)
  }

  function FlattenFrom(n: Node, i: nat): (r: string)
    requires i <= |Children(n)|
    ensures |r| == SumLength(n, |Children(n)|) - SumLength(n, i)
    decreases n, 0, |Children(n)| - i
  {
    if i == |Children(n)| then []
    else
      assert SumLength(n, i + 1) == SumLength(n, i) + TextLength(n.children[i]);
      Flatten(n.children[i]) + FlattenFrom(n, i + 1)
  }

  /** With the copy bound `column + nodeText.length`, a subtree placed at the end of a row appends its text. */
  lemma {:induction false} FullTree(rc: string, n: Node)
    ensures FillTree(rc, |rc|, n, true) == rc + Flatten(n)
    decreases n, 1
  {
    if n.Elem? {
      FullForest(rc, n, 0);
    }
  }

  lemma {:induction false} FullForest(rc: string, n: Node, i: nat)
    requires i <= |Children(n)|
    ensures FillForest(rc, |rc|, n, i, true) == rc + FlattenFrom(n, i)
    decreases n, 0, |Children(n)| - i
  {
    if i < |Children(n)| {
      var c := n.children[i];
      var row := rc + Flatten(c);
      FullTree(rc, c);
      FillForestStep(rc, |rc|, n, i, true, row, |row|);
      FullForest(row, n, i + 1);
    }
  }

  /**
   * With the corrected copy bound, the compiled text is every row's text
   * leaves concatenated, the rows joined with '\n'.
   */
  lemma CompileFlatten(rows: seq<Node>)
    ensures Compile(rows, true) == JoinLines(seq(|rows|, i requires 0 <= i < |rows| => Flatten(rows[i])))
  {
    CompileLines(rows, true);
    forall i | 0 <= i < |rows|
      ensures Lines(rows, true)[i] == Flatten(rows[i])
    {
      FullTree([], rows[i]);
    }
    assert Lines(rows, true) == seq(|rows|, i requires 0 <= i < |rows| => Flatten(rows[i]));
  }

  /** The copy bound as written drops the second leaf of a row holding "ab" then "cd". */
  lemma SecondLeafDropped()
    ensures Compile([Elem([Text("ab"), Text("cd")])], false) == "ab"
  {
    var n := Elem([Text("ab"), Text("cd")]);
    CompileLines([n], false);
    DroppedRow();
    assert Lines([n], false) == ["ab"];
  }

  /** The row itself: the second leaf starts at column 2, past its own length. */
  lemma DroppedRow()
    ensures FillTree([], 0, Elem([Text("ab"), Text("cd")]), false) == "ab"
  {
    var n := Elem([Text("ab"), Text("cd")]);
    assert FillTree([], 0, Text("ab"), false) == "ab";
    assert FillTree("ab", 2, Text("cd"), false) == "ab";
    FillForestStep([], 0, n, 0, false, "ab", 2);
    FillForestStep("ab", 2, n, 1, false, "ab", 4);
  }

  /** The corrected copy bound keeps both leaves of the same row. */
  lemma SecondLeafKept()
    ensures Compile([Elem([Text("ab"), Text("cd")])], true) == "abcd"
  {
    var n := Elem([Text("ab"), Text("cd")]);
    CompileFlatten([n]);
    assert FlattenFrom(n, 1) == "cd";
    assert Flatten(n) == "abcd";
  }

  /**
   * During the walk of `_getInputText`, a text leaf always finds its row,
   * and when its column is positive that row already holds something for
   * the back-fill to stop at.
   */
  lemma NoStuck(rows: seq<Node>, vs: seq<Visit>, v: Visit, later: seq<Visit>, contents: seq<string>, fullCopy: bool)
    requires vs + [v] + later == Visits(rows) && CompileFrom(Begin, vs, fullCopy) == Progress(contents, false)
    requires v.at.node.Text?
    ensures 0 <= v.row < |Entered(contents, v)|
    ensures v.column > 0 ==> |Entered(contents, v)[v.row]| > 0
  {
    CompileLines(rows, fullCopy);
    CompileAppend(Begin, vs + [v], later, fullCopy);
    CompileSnoc(Begin, vs, v, fullCopy);
    var q := CompileStep(contents, v, fullCopy);
    CompileHalted(q, later, fullCopy);
    assert !q.halted;
  }

  /**
   * The back-fill of the visitor: while the slot before `col` is a hole,
   * write a space there and move left.  The row is kept as its filled
   * prefix `rowContent` followed by the spaces written so far.
   */
  method BackFill(rowContent: string, column: nat) returns (r: string)
    requires column > 0 ==> |rowContent| > 0
    ensures r == Pad(rowContent, column)
    ensures |r| == if |rowContent| < column then column else |rowContent|
  {
    r := rowContent;
    if column > 0 && column - 1 >= |rowContent| {
      var col: int := column;
      var tail: string := [];
      while col - 1 < 0 || col - 1 >= |rowContent|
        invariant |rowContent| <= col <= column
        invariant tail == Spaces(column - col)
        decreases col
      {
        tail := [' '] + tail;
        col := col - 1;
      }
      r := rowContent + tail;
    }
  }

  /**
   * The copy loop of the visitor: `rowContent[i] = nodeText[i - column]` for
   * `column <= i < nodeText.length` (or `column + nodeText.length` with
   * `fullCopy`).  The row holds exactly `column` slots when the loop starts,
   * so each write appends.
   */
  method CopyText(rowContent: string, column: nat, nodeText: string, fullCopy: bool) returns (r: string)
    requires |rowContent| == column
    ensures r == rowContent + Copied(nodeText, column, fullCopy)
  {
    r := rowContent;
    var bound := if fullCopy then column + |nodeText| else |nodeText|;
    var i: nat := column;
    while i < bound
      invariant column <= i <= if bound > column then bound else column
      invariant |r| == i && r == rowContent + nodeText[..i - column]
    {
      r := r + [nodeText[i - column]];
      i := i + 1;
    }
    assert nodeText[..0] == [] && nodeText[..|nodeText|] == nodeText;
  }

  /**
   * The visitor of `_getInputText` on one visit; `stop` is what it returns
   * to the walk.  The caller guarantees what src/lighditor.js silently relies on:
   * a text leaf's row exists, and it is not empty when the column is
   * positive.
   */
  method Visitor(contents: seq<string>, v: Visit, fullCopy: bool) returns (contents': seq<string>, stop: bool)
    requires v.at.node.Text? ==> 0 <= v.row < |Entered(contents, v)|
    requires v.at.node.Text? && v.column > 0 ==> |Entered(contents, v)[v.row]| > 0
    ensures Progress(contents', stop) == CompileStep(contents, v, fullCopy)
  {
    contents', stop := contents, false;
    if Rows.IsRowElement(v.at.path) && v.row >= 0 {
      contents' := ResetRow(contents', v.row);
    }
    if v.at.node.Text? {
      var rowContent := BackFill(contents'[v.row], v.column);
      if |rowContent| > v.column {
        contents' := contents'[v.row := rowContent];
        stop := true;
      } else {
        rowContent := CopyText(rowContent, v.column, v.at.node.text, fullCopy);
        contents' := contents'[v.row := rowContent];
      }
    }
  }

  /**
   * `_getInputText`: walk the editor, run the visitor on every visit until
   * it asks to stop, and join the rows.
   */
  method GetInputText(rows: seq<Node>, fullCopy: bool) returns (text: string)
    ensures text == Compile(rows, fullCopy)
  {
    var walk := new DfsWalk(rows);
    var contents: seq<string> := [];
    var halted := false;
    while walk.nodeStack != [] && !halted
      invariant walk.Valid() && walk.rows == rows
      invariant CompileFrom(Begin, Annotate(walk.visited, Start), fullCopy) == Progress(contents, halted)
      decreases walk.Remaining()
    {
      ghost var vs := Annotate(walk.visited, Start);
      var v := walk.Next();
      VisitsSplit(rows, walk.visited, walk.nodeStack);
      CompileSnoc(Begin, vs, v, fullCopy);
      if v.at.node.Text? {
        NoStuck(rows, vs, v, Annotate(Pending(walk.nodeStack), Track(walk.visited, Start)), contents, fullCopy);
      }
      contents, halted := Visitor(contents, v, fullCopy);
    }
    ghost var visited := walk.visited;
    ghost var later := Annotate(Pending(walk.nodeStack), Track(visited, Start));
    VisitsSplit(rows, visited, walk.nodeStack);
    CompileAppend(Begin, Annotate(visited, Start), later, fullCopy);
    CompileHalted(Progress(contents, halted), later, fullCopy);
    text := JoinLines(contents);
  }
}
