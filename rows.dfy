/**
 * The row resolver of src/lighditor.js: the rows are the children of the
 * editor root, and a node's row is found by climbing to the ancestor-or-self
 * whose parent is the root and counting that node's previous siblings.
 */
module Rows {
  import opened Dom

  /** What the resolver finds: the row element (as a path) and its row index. */
  datatype RowInfo = RowInfo(element: seq<nat>, row: int)

  /** `isRowElement`: the node's parent element is the editor root. */
  function IsRowElement(path: seq<nat>): (r: bool)
    ensures r <==> path != [] && path[..|path| - 1] == []
  {
    |path| == 1
  }

  /**
   * `getRowElementByIndex`: the root's child at index `row`, or nothing when
   * the index does not name a child.
   */
  function GetRowElementByIndex(rows: seq<Node>, row: int): (r: Option<seq<nat>>)
    ensures r.Some? <==> 0 <= row < |rows|
    ensures r.Some? ==> IsRowElement(r.value) && r.value[0] == row
    ensures r.Some? ==> NodeAt(Elem(rows), r.value) == Some(rows[row])
  {
    if 0 <= row < |rows| then
      assert [row as nat][1..] == [];
      Some([row as nat])
    else None
  }

  /**
   * `_getParentRowNode`: climb from `node` towards the root until the current
   * node's parent is the root, then count its previous siblings.  The editor
   * root itself, and nodes elsewhere in the document, have no row.
   */
  method GetParentRowNode(rows: seq<Node>, node: NodeRef) returns (info: Option<RowInfo>)
    requires node.InEditor? ==> NodeAt(Elem(rows), node.path).Some?
    ensures info.Some? <==> node.InEditor? && |node.path| >= 1
    ensures info.Some? ==> IsRowElement(info.value.element) && info.value.element == node.path[..1]
    ensures info.Some? ==> info.value.row == node.path[0] && info.value.row < |rows|
    ensures info.Some? ==> GetRowElementByIndex(rows, info.value.row) == Some(info.value.element)
  {
    if node.Elsewhere? {
      // Its ancestors end at the document without meeting the editor root.
      return None;
    }
    var running := node.path;
    while running != []
      invariant |running| <= |node.path| && running == node.path[..|running|]
      invariant |node.path| >= 1 ==> |running| >= 1
      decreases |running|
    {
      if IsRowElement(running) {
        var rowCount := 0;
        var n := running[0];
        // Walk the previous siblings, one per step, until there is none.
        while n > 0
          invariant 0 <= n <= running[0] && rowCount + n == running[0]
        {
          n := n - 1;
          rowCount := rowCount + 1;
        }
        assert node.path[0] == running[0] < |rows| by {
          assert NodeAt(Elem(rows), node.path).Some?;
        }
        assert running == [rowCount as nat];
        return Some(RowInfo(running, rowCount));
      }
      running := running[..|running| - 1];
    }
    return None;
  }

  /** `getRowIndex`: the resolved row, or -1 when the resolver finds none. */
  method GetRowIndex(rows: seq<Node>, node: NodeRef) returns (row: int)
    requires node.InEditor? ==> NodeAt(Elem(rows), node.path).Some?
    ensures row == -1 <==> !(node.InEditor? && |node.path| >= 1)
    ensures row != -1 ==> row == node.path[0] && row < |rows|
  {
    var rowNode := GetParentRowNode(rows, node);
    if rowNode.None? {
      return -1;
    } else {
      return rowNode.value.row;
    }
  }
}
