/**
 * Selection mapping of src/lighditor.js.
 *
 * Capture (`_getSelectionNodePosition`, `updateSelection`): a node of the
 * platform selection is turned into a row and a column, the column being the
 * length of the text that comes before the node within its row; the offsets
 * of the selection's range are then added.
 *
 * Restore (`restoreSelection`): a DOM range is built from a stored selection
 * by walking the editor tree and placing its boundary points in the text
 * leaves of the start row whose span contains the stored columns.  The range
 * operations follow the DOM Standard: boundary points are compared in tree
 * order (section 5.2, "position of a boundary point"), and setting one end of
 * a range past the other collapses the range there (section 5.5, "set the
 * start or end").
 */
module Selections {
  import opened Dom
  import Rows
  import opened Walk

  /** `START` reads the anchor node of the platform selection, `END` its focus node. */
  datatype PositionType = START | END

  /**
   * What the platform reports about the current selection: its anchor and
   * focus nodes, if any, and the offsets of its first range.  The range's
   * ends are in document order, so for a backward selection `startOffset`
   * is the focus's offset and `endOffset` the anchor's; the model leaves the
   * two offsets unconstrained, independent of the anchor and focus nodes.
   */
  datatype PlatformSelection = PlatformSelection(anchor: Option<NodeRef>, focus: Option<NodeRef>, startOffset: nat, endOffset: nat)

  /** A DOM boundary point: a node (by its path) and an offset into it. */
  datatype Boundary = Boundary(path: seq<nat>, offset: nat)

  datatype Range = Range(start: Boundary, end: Boundary)

  datatype Ordering = Before | Equal | After

  // ---------------------------------------------------------------------
  // Capture.

  /** Every node reference the platform hands over names a node of the tree. */
  ghost predicate Refers(rows: seq<Node>, node: Option<NodeRef>)
  {
    node.Some? && node.value.InEditor? ==> NodeAt(Elem(rows), node.value.path).Some?
  }

  /** The row and column of the boundary point (node, 0) of a node inside a row. */
  function PositionOf(rows: seq<Node>, node: NodeRef): (r: Option<Position>)
    ensures r.Some? <==> node.InEditor? && |node.path| >= 1 && node.path[0] < |rows|
  {
    if node.InEditor? && |node.path| >= 1 && node.path[0] < |rows| then
      Some(Position(node.path[0], TextBefore(rows[node.path[0]], node.path[1..])))
    else None
  }

  /**
   * `_getSelectionNodePosition`: no position without a node or without a row
   * to put it in; otherwise the row index and the length of a range from the
   * start of the row's contents to (node, 0).
   */
  method GetSelectionNodePosition(rows: seq<Node>, sel: PlatformSelection, positionType: PositionType) returns (pos: Option<Position>)
    requires Refers(rows, sel.anchor) && Refers(rows, sel.focus)
    ensures var node := if positionType == START then sel.anchor else sel.focus;
      && (pos.Some? <==> node.Some? && node.value.InEditor? && |node.value.path| >= 1)
      && (pos.Some? ==> pos == PositionOf(rows, node.value))
  {
    var node := match positionType
      case START => sel.anchor
      case END => sel.focus;
    if node.None? {
      return None;
    }
    var rowInfo := Rows.GetParentRowNode(rows, node.value);
    if rowInfo.None? {
      return None;
    }
    var row := rowInfo.value.row;
    var column := TextBefore(rows[row], node.value.path[1..]);
    return Some(Position(row, column));
  }

  /** The node a capture of the walk's `k`-th visit starts from reports the row and column the walk had there. */
  lemma CaptureWalk(rows: seq<Node>, k: nat)
    requires 0 < k < |Visits(rows)|
    ensures PositionOf(rows, InEditor(Visits(rows)[k].at.path)) == Some(Position(Visits(rows)[k].row, Visits(rows)[k].column))
  {
    VisitColumns(rows, k);
  }

  /**
   * The selection `updateSelection` commits: the anchor's position plus the
   * range's start offset, and the focus's position plus its end offset, in
   * that order whatever the direction of the selection; nothing without a
   * focus node or without both positions.
   */
  function SelectionUpdate(rows: seq<Node>, sel: PlatformSelection): (r: Option<Selection>)
    ensures r.Some? <==> sel.anchor.Some? && sel.focus.Some? && PositionOf(rows, sel.anchor.value).Some? && PositionOf(rows, sel.focus.value).Some?
    ensures r.Some? ==> r.value.start.row == sel.anchor.value.path[0] && r.value.end.row == sel.focus.value.path[0]
    ensures r.Some? ==> r.value.start.column == PositionOf(rows, sel.anchor.value).value.column + sel.startOffset
    ensures r.Some? ==> r.value.end.column == PositionOf(rows, sel.focus.value).value.column + sel.endOffset
  {
    if sel.focus.None? || sel.anchor.None? then None
    else
      var s := PositionOf(rows, sel.anchor.value);
      var e := PositionOf(rows, sel.focus.value);
      if s.None? || e.None? then None
      else Some(Selection(Position(s.value.row, s.value.column + sel.startOffset), Position(e.value.row, e.value.column + sel.endOffset)))
  }

  // ---------------------------------------------------------------------
  // Boundary points and ranges.

  /** Tree order of two paths neither of which is a prefix of the other. */
  predicate PathBefore(a: seq<nat>, b: seq<nat>)
  {
    a != [] && b != [] && (a[0] < b[0] || (a[0] == b[0] && PathBefore(a[1..], b[1..])))
  }

  /** The position of boundary point `a` relative to boundary point `b`. */
  function Compare(a: Boundary, b: Boundary): (r: Ordering)
    ensures r == Equal <==> a == b
  {
    if a.path == b.path then
      if a.offset < b.offset then Before else if a.offset == b.offset then Equal else After
    else if a.path < b.path then
      // `a`'s node is an ancestor of `b`'s: compare the child holding `b` with `a`'s offset.
      if b.path[|a.path|] < a.offset then After else Before
    else if b.path < a.path then
      if a.path[|b.path|] < b.offset then Before else After
    else if PathBefore(a.path, b.path) then Before
    else After
  }

  function Flip(o: Ordering): Ordering
  {
    match o
    case Before => After
    case Equal => Equal
    case After => Before
  }

  /** A common first step changes neither prefixes nor equality. */
  lemma ConsPath(x: nat, a: seq<nat>, b: seq<nat>)
    ensures ([x] + a < [x] + b) == (a < b)
    ensures ([x] + a == [x] + b) == (a == b)
  {
    assert ([x] + a)[1..] == a && ([x] + b)[1..] == b;
  }

  /** Of two different paths neither a prefix of the other, exactly one comes first. */
  lemma {:induction false} PathOrder(a: seq<nat>, b: seq<nat>)
    requires a != b && !(a < b) && !(b < a)
    ensures PathBefore(a, b) != PathBefore(b, a)
  {
    assert a != [] && b != [];
    if a[0] == b[0] {
      assert a == [a[0]] + a[1..] && b == [a[0]] + b[1..];
      ConsPath(a[0], a[1..], b[1..]);
      ConsPath(a[0], b[1..], a[1..]);
      PathOrder(a[1..], b[1..]);
    }
  }

  /** Comparing the other way round gives the opposite answer. */
  lemma CompareFlip(a: Boundary, b: Boundary)
    ensures Compare(b, a) == Flip(Compare(a, b))
  {
    if a.path != b.path && !(a.path < b.path) && !(b.path < a.path) {
      PathOrder(a.path, b.path);
    }
  }

  /** A range whose start is not after its end, as every DOM range is. */
  predicate Ordered(r: Range)
  {
    Compare(r.start, r.end) != After
  }

  /** `range.setStart(node, offset)`: a start after the end drags the end along. */
  function SetStart(r: Range, bp: Boundary): (r': Range)
    ensures r'.start == bp && Ordered(r')
    ensures r'.end == r.end || r'.end == bp
  {
    if Compare(bp, r.end) == After then Range(bp, bp) else Range(bp, r.end)
  }

  /** `range.setEnd(node, offset)`: an end before the start drags the start along. */
  function SetEnd(r: Range, bp: Boundary): (r': Range)
    ensures r'.end == bp && Ordered(r')
    ensures r'.start == r.start || r'.start == bp
  {
    CompareFlip(bp, r.start);
    if Compare(bp, r.start) == Before then Range(bp, bp) else Range(r.start, bp)
  }

  /** `range.setStart(row element, 0)` then `range.collapse(true)`. */
  function Collapsed(row: nat): Range
  {
    Range(Boundary([row], 0), Boundary([row], 0))
  }

  // ---------------------------------------------------------------------
  // Restore.

  /** The range being built and whether its start has been placed. */
  datatype Restoring = Restoring(range: Range, foundStart: bool)

  /** A text leaf on the start row whose span contains `column`. */
  predicate Holds(v: Visit, sel: Selection, column: int)
  {
    v.at.node.Text? && v.row == sel.start.row && v.column <= column <= v.column + |v.at.node.text|
  }

  /** The visitor of `restoreSelection` applied to one visit. */
  function RestoreStep(st: Restoring, v: Visit, sel: Selection): (r: Restoring)
    ensures st.foundStart ==> r.foundStart
  {
    var st1 :=
      if !st.foundStart && Holds(v, sel, sel.start.column) then
        Restoring(SetStart(st.range, Boundary(v.at.path, sel.start.column - v.column)), true)
      else st;
    if st1.foundStart && Holds(v, sel, sel.end.column) then
      Restoring(SetEnd(st1.range, Boundary(v.at.path, sel.end.column - v.column)), true)
    else st1
  }

  /** The visitor applied to the visits `vs` in order. */
  function RestoreFrom(st: Restoring, vs: seq<Visit>, sel: Selection): Restoring
  {
    if vs == [] then st else RestoreStep(RestoreFrom(st, vs[..|vs| - 1], sel), vs[|vs| - 1], sel)
  }

  /**
   * The range `restoreSelection` hands to the platform selection, or nothing
   * (the platform selection stays as it was) when the start or end row does
   * not exist.
   */
  function Restore(rows: seq<Node>, sel: Selection): (r: Option<Range>)
    ensures r.Some? <==> 0 <= sel.start.row < |rows| && 0 <= sel.end.row < |rows|
    ensures r.Some? ==> Ordered(r.value)
  {
    RestoreOrdered(Collapsed(if sel.start.row >= 0 then sel.start.row else 0), Visits(rows), sel);
    if Rows.GetRowElementByIndex(rows, sel.start.row).None? || Rows.GetRowElementByIndex(rows, sel.end.row).None? then None
    else Some(RestoreFrom(Restoring(Collapsed(sel.start.row), false), Visits(rows), sel).range)
  }

  /** Whatever the visits, the range the restore builds never has its start after its end. */
  lemma {:induction false} RestoreOrdered(r: Range, vs: seq<Visit>, sel: Selection)
    requires Ordered(r)
    ensures Ordered(RestoreFrom(Restoring(r, false), vs, sel).range)
  {
    if vs != [] {
      RestoreOrdered(r, vs[..|vs| - 1], sel);
    }
  }

  /**
   * The start is found exactly when some visit holds the start column, and
   * until then the range stays collapsed at the start of the start row.
   */
  lemma {:induction false} RestoreFound(row: nat, vs: seq<Visit>, sel: Selection)
    ensures RestoreFrom(Restoring(Collapsed(row), false), vs, sel).foundStart
        <==> exists k :: 0 <= k < |vs| && Holds(vs[k], sel, sel.start.column)
    ensures !RestoreFrom(Restoring(Collapsed(row), false), vs, sel).foundStart
        ==> RestoreFrom(Restoring(Collapsed(row), false), vs, sel).range == Collapsed(row)
  {
    if vs != [] {
      var init := vs[..|vs| - 1];
      RestoreFound(row, init, sel);
      assert forall k :: 0 <= k < |init| ==> init[k] == vs[k];
      if Holds(vs[|vs| - 1], sel, sel.start.column) {
        assert RestoreFrom(Restoring(Collapsed(row), false), vs, sel).foundStart;
      }
    }
  }

  /**
   * At the first leaf holding the start column the range collapses there;
   * when the same leaf also holds the end column the end moves to it, and
   * an end column before the start column drags the start back with it.
   */
  lemma StartAtFirstHolder(rows: seq<Node>, sel: Selection, k: nat)
    requires k < |Visits(rows)| && sel.start.row >= 0
    requires Holds(Visits(rows)[k], sel, sel.start.column)
    requires forall j :: 0 <= j < k ==> !Holds(Visits(rows)[j], sel, sel.start.column)
    ensures var v := Visits(rows)[k];
      RestoreFrom(Restoring(Collapsed(sel.start.row), false), Visits(rows)[..k + 1], sel) == FirstHolderRange(v, sel)
  {
    var vs := Visits(rows);
    var v := vs[k];
    VisitColumns(rows, k);
    assert forall j :: 0 <= j < k ==> vs[..k][j] == vs[j];
    RestoreFound(sel.start.row, vs[..k], sel);
    assert vs[..k + 1][..k] == vs[..k] && vs[..k + 1][k] == v;
    FirstStep(v, sel);
  }

  /** What the range is right after the first leaf holding the start column, `v`. */
  function FirstHolderRange(v: Visit, sel: Selection): Restoring
    requires Holds(v, sel, sel.start.column)
  {
    var bs := Boundary(v.at.path, sel.start.column - v.column);
    if !Holds(v, sel, sel.end.column) then Restoring(Range(bs, bs), true)
    else
      var be := Boundary(v.at.path, sel.end.column - v.column);
      Restoring(if sel.end.column < sel.start.column then Range(be, be) else Range(bs, be), true)
  }

  lemma FirstStep(v: Visit, sel: Selection)
    requires Holds(v, sel, sel.start.column) && sel.start.row >= 0
    requires |v.at.path| >= 1 && v.at.path[0] == v.row
    ensures RestoreStep(Restoring(Collapsed(sel.start.row), false), v, sel) == FirstHolderRange(v, sel)
  {
    var bs := Boundary(v.at.path, sel.start.column - v.column);
    assert v.at.path == [v.at.path[0]] + v.at.path[1..];
    assert SetStart(Collapsed(sel.start.row), bs) == Range(bs, bs);
  }

  /** A boundary point that maps back to one of the stored columns on the start row, or the start of that row. */
  ghost predicate MapsBack(rows: seq<Node>, b: Boundary, sel: Selection)
  {
    || (sel.start.row >= 0 && b == Boundary([sel.start.row], 0))
    || (var p := PositionOf(rows, InEditor(b.path));
        && p.Some? && p.value.row == sel.start.row
        && (p.value.column + b.offset == sel.start.column || p.value.column + b.offset == sel.end.column))
  }

  /** One visit of a text leaf at its own row and column keeps both boundary points mapping back. */
  lemma StepMapsBack(rows: seq<Node>, st: Restoring, v: Visit, sel: Selection)
    requires MapsBack(rows, st.range.start, sel) && MapsBack(rows, st.range.end, sel)
    requires |v.at.path| >= 1 && v.at.path[0] < |rows| && v.row == v.at.path[0]
    requires v.column == TextBefore(rows[v.at.path[0]], v.at.path[1..])
    ensures MapsBack(rows, RestoreStep(st, v, sel).range.start, sel) && MapsBack(rows, RestoreStep(st, v, sel).range.end, sel)
  {
    assert PositionOf(rows, InEditor(v.at.path)) == Some(Position(v.row, v.column));
  }

  /**
   * Every boundary point the restore places maps back, through the capture
   * of `updateSelection`, to the stored start or end column on the start
   * row; only an unplaced boundary stays at the start of the row.
   */
  lemma {:induction false} RestoreMapsBack(rows: seq<Node>, m: nat, sel: Selection)
    requires m <= |Visits(rows)| && sel.start.row >= 0
    ensures var r := RestoreFrom(Restoring(Collapsed(sel.start.row), false), Visits(rows)[..m], sel).range;
      MapsBack(rows, r.start, sel) && MapsBack(rows, r.end, sel)
  {
    if m > 0 {
      var vs := Visits(rows)[..m];
      RestoreMapsBack(rows, m - 1, sel);
      assert vs[..m - 1] == Visits(rows)[..m - 1];
      var v := Visits(rows)[m - 1];
      assert vs[m - 1] == v;
      VisitColumns(rows, m - 1);
      var st := RestoreFrom(Restoring(Collapsed(sel.start.row), false), Visits(rows)[..m - 1], sel);
      if m - 1 == 0 {
        assert RestoreStep(st, v, sel) == st;
      } else {
        StepMapsBack(rows, st, v, sel);
      }
    }
  }

  /** Folding the visitor over two stretches of visits is folding it over the first and continuing over the second. */
  lemma {:induction false} RestoreAppend(st: Restoring, a: seq<Visit>, b: seq<Visit>, sel: Selection)
    ensures RestoreFrom(st, a + b, sel) == RestoreFrom(RestoreFrom(st, a, sel), b, sel)
  {
    if b == [] {
      assert a + b == a;
    } else {
      assert (a + b)[..|a + b| - 1] == a + b[..|b| - 1];
      assert (a + b)[|a + b| - 1] == b[|b| - 1];
      RestoreAppend(st, a, b[..|b| - 1], sel);
    }
  }

  /** Once found, the start stays found over any visits. */
  lemma {:induction false} FoundStays(st: Restoring, vs: seq<Visit>, sel: Selection)
    requires st.foundStart
    ensures RestoreFrom(st, vs, sel).foundStart
  {
    if vs != [] {
      FoundStays(st, vs[..|vs| - 1], sel);
    }
  }

  /** The leaves of `vs` after index `j` (excluded) on the start row do not hold the end column. */
  predicate NoEndHolderAfter(vs: seq<Visit>, j: int, sel: Selection)
  {
    forall i :: 0 <= i < |vs| && j < i ==> !Holds(vs[i], sel, sel.end.column)
  }

  /**
   * Once the start is found, every later leaf on the start row holding the
   * end column moves the end there, so the end is at the last such leaf.
   */
  lemma {:induction false} EndAtLastHolder(st: Restoring, vs: seq<Visit>, j: nat, sel: Selection)
    requires st.foundStart && j < |vs|
    requires Holds(vs[j], sel, sel.end.column) && NoEndHolderAfter(vs, j, sel)
    ensures RestoreFrom(st, vs, sel).range.end == Boundary(vs[j].at.path, sel.end.column - vs[j].column)
  {
    var init := vs[..|vs| - 1];
    FoundStays(st, init, sel);
    if j < |vs| - 1 {
      assert !Holds(vs[|vs| - 1], sel, sel.end.column);
      assert init[j] == vs[j];
      assert NoEndHolderAfter(init, j, sel) by {
        forall i | j < i < |init| ensures !Holds(init[i], sel, sel.end.column) {
          assert init[i] == vs[i];
        }
      }
      EndAtLastHolder(st, init, j, sel);
    }
  }

  /** Once the start is found, visits holding no end column change nothing. */
  lemma {:induction false} NoEndHolder(st: Restoring, vs: seq<Visit>, sel: Selection)
    requires st.foundStart && NoEndHolderAfter(vs, -1, sel)
    ensures RestoreFrom(st, vs, sel) == st
  {
    if vs != [] {
      var init := vs[..|vs| - 1];
      assert !Holds(vs[|vs| - 1], sel, sel.end.column);
      assert NoEndHolderAfter(init, -1, sel) by {
        forall i | -1 < i < |init| ensures !Holds(init[i], sel, sel.end.column) {
          assert init[i] == vs[i];
        }
      }
      NoEndHolder(st, init, sel);
    }
  }

  /** After the first leaf holding the start column, the restore continues from `FirstHolderRange`. */
  lemma RestoreAfterFirst(rows: seq<Node>, sel: Selection, k: nat)
    requires k < |Visits(rows)| && sel.start.row >= 0
    requires Holds(Visits(rows)[k], sel, sel.start.column)
    requires forall j :: 0 <= j < k ==> !Holds(Visits(rows)[j], sel, sel.start.column)
    ensures RestoreFrom(Restoring(Collapsed(sel.start.row), false), Visits(rows), sel)
      == RestoreFrom(FirstHolderRange(Visits(rows)[k], sel), Visits(rows)[k + 1..], sel)
  {
    var vs := Visits(rows);
    StartAtFirstHolder(rows, sel, k);
    assert vs == vs[..k + 1] + vs[k + 1..];
    RestoreAppend(Restoring(Collapsed(sel.start.row), false), vs[..k + 1], vs[k + 1..], sel);
  }

  /**
   * The end of the range the restore builds: with the start found at the
   * first holder `k`, the end is at the last leaf from `k` on holding the end
   * column (a later one overwrites an earlier one); with none, the range
   * stays collapsed at the start.
   */
  lemma RestoreEnd(rows: seq<Node>, sel: Selection, k: nat)
    requires k < |Visits(rows)| && sel.start.row >= 0
    requires Holds(Visits(rows)[k], sel, sel.start.column)
    requires forall j :: 0 <= j < k ==> !Holds(Visits(rows)[j], sel, sel.start.column)
    ensures var vs := Visits(rows);
      forall j :: (k <= j < |vs| && Holds(vs[j], sel, sel.end.column) && (forall i :: j < i < |vs| ==> !Holds(vs[i], sel, sel.end.column))
        ==> Restore(rows, sel).Some? ==> Restore(rows, sel).value.end == Boundary(vs[j].at.path, sel.end.column - vs[j].column))
    ensures var vs := Visits(rows);
      var bs := Boundary(vs[k].at.path, sel.start.column - vs[k].column);
      (forall i :: k <= i < |vs| ==> !Holds(vs[i], sel, sel.end.column))
        ==> Restore(rows, sel).Some? ==> Restore(rows, sel).value == Range(bs, bs)
  {
    var vs := Visits(rows);
    var first := FirstHolderRange(vs[k], sel);
    var rest := vs[k + 1..];
    RestoreAfterFirst(rows, sel, k);
    forall j | k < j < |vs| && Holds(vs[j], sel, sel.end.column) && (forall i :: j < i < |vs| ==> !Holds(vs[i], sel, sel.end.column))
      ensures RestoreFrom(first, rest, sel).range.end == Boundary(vs[j].at.path, sel.end.column - vs[j].column)
    {
      assert rest[j - (k + 1)] == vs[j];
      assert NoEndHolderAfter(rest, j - (k + 1), sel) by {
        forall i | j - (k + 1) < i < |rest| ensures !Holds(rest[i], sel, sel.end.column) {
          assert rest[i] == vs[k + 1 + i];
        }
      }
      EndAtLastHolder(first, rest, j - (k + 1), sel);
    }
    if forall i :: k < i < |vs| ==> !Holds(vs[i], sel, sel.end.column) {
      assert NoEndHolderAfter(rest, -1, sel) by {
        forall i | -1 < i < |rest| ensures !Holds(rest[i], sel, sel.end.column) {
          assert rest[i] == vs[k + 1 + i];
        }
      }
      NoEndHolder(first, rest, sel);
    }
  }

  // ---------------------------------------------------------------------
  // The imperative restore.

  /** The visitor of `restoreSelection` on one visit. */
  method RestoreVisitor(range: Range, foundStart: bool, v: Visit, sel: Selection) returns (range': Range, foundStart': bool)
    ensures Restoring(range', foundStart') == RestoreStep(Restoring(range, foundStart), v, sel)
  {
    range', foundStart' := range, foundStart;
    if v.at.node.Text? && v.row == sel.start.row {
      var endTextNodeColumn := v.column + |v.at.node.text|;
      var startColumn := sel.start.column;
      var endColumn := sel.end.column;
      if !foundStart' && startColumn >= v.column && startColumn <= endTextNodeColumn {
        range' := SetStart(range', Boundary(v.at.path, startColumn - v.column));
        foundStart' := true;
      }
      if foundStart' && endColumn >= v.column && endColumn <= endTextNodeColumn {
        range' := SetEnd(range', Boundary(v.at.path, endColumn - v.column));
      }
    }
  }

  /**
   * `restoreSelection`: look up the start and end rows, start a range
   * collapsed at the start row, walk the tree letting the visitor move the
   * range's boundary points, and hand the range over.
   */
  method RestoreRange(rows: seq<Node>, sel: Selection) returns (r: Option<Range>)
    ensures r == Restore(rows, sel)
  {
    var startRowElement := Rows.GetRowElementByIndex(rows, sel.start.row);
    var endRowElement := Rows.GetRowElementByIndex(rows, sel.end.row);
    if startRowElement.None? || endRowElement.None? {
      return None;
    }
    var range := Collapsed(sel.start.row);
    var foundStart := false;
    var walk := new DfsWalk(rows);
    while walk.nodeStack != []
      invariant walk.Valid() && walk.rows == rows
      invariant Restoring(range, foundStart) == RestoreFrom(Restoring(Collapsed(sel.start.row), false), Annotate(walk.visited, Start), sel)
      decreases walk.Remaining()
    {
      ghost var vs := Annotate(walk.visited, Start);
      var v := walk.Next();
      assert (vs + [v])[..|vs|] == vs;
      range, foundStart := RestoreVisitor(range, foundStart, v, sel);
    }
    VisitsSplit(rows, walk.visited, walk.nodeStack);
    assert Annotate(walk.visited, Start) == Visits(rows);
    return Some(range);
  }
}
