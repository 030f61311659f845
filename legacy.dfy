/**
 * The older editor object of src/index.js.  Its setters replace the state
 * and report to the hooks without asking for a render, and its row resolver
 * never climbs: the loop guard compares a boolean with a string under `===`.
 *
 * The resolver reads node properties the tree of the other modules does not
 * carry (whether the node is an element, its `data-lighditor-type` and
 * `data-row` attributes), so a node here is the record of those properties.
 */
module Legacy {
  import opened Dom

  /** The values the guard's `===` compares. */
  datatype JsValue = JsBool(b: bool) | JsString(s: string)

  /** `===`: same type and same value. */
  predicate StrictEquals(a: JsValue, b: JsValue)
  {
    a == b
  }

  /**
   * A node as the platform selection hands it over: whether it is an
   * element, whether it is the editor element, its `data-lighditor-type`
   * attribute ("" when absent) and its `data-row` attribute as a number.
   */
  datatype LegacyNode = LegacyNode(isElement: bool, isEditorElement: bool, lighditorType: string, dataRow: int)

  /** A call that returned a value, or one that failed reading a property of `undefined`. */
  datatype Outcome<T> = Returned(value: T) | TypeError

  datatype LegacySelection = LegacySelection(anchor: Option<LegacyNode>, focus: Option<LegacyNode>, startOffset: nat, endOffset: nat)

  /**
   * The guard of the climbing loop of `_getParentRowNode` on the current
   * node.  A node that is not an element has no `dataset`, so reading an
   * attribute through it fails.
   */
  function ClimbGuard(running: Option<LegacyNode>): (r: Outcome<bool>)
    ensures r == TypeError <==> running.Some? && !running.value.isEditorElement && !running.value.isElement
  {
    if running.None? || running.value.isEditorElement then Returned(false)
    else if !running.value.isElement then TypeError
    else Returned(StrictEquals(JsBool(running.value.lighditorType == ""), JsString("row")))
  }

  /** The guard never holds: the loop body never runs. */
  lemma GuardNeverHolds(running: Option<LegacyNode>)
    ensures ClimbGuard(running) != Returned(true)
  {
  }

  /**
   * `_getParentRowNode`: the node itself when it is an element, no node
   * otherwise; any non-element other than the editor element (a text node
   * inside a row as much as one outside the editor) makes the guard fail.
   */
  method GetParentRowNode(node: Option<LegacyNode>) returns (r: Outcome<Option<LegacyNode>>)
    ensures r == TypeError <==> node.Some? && !node.value.isEditorElement && !node.value.isElement
    ensures r.Returned? ==> r.value == if node.Some? && node.value.isElement then node else None
  {
    var runningNode := node;
    var guard := ClimbGuard(runningNode);
    if guard.TypeError? {
      return TypeError;
    }
    GuardNeverHolds(runningNode);
    // The guard is false, so the loop is left before its first turn.
    if runningNode.Some? && runningNode.value.isElement {
      return Returned(runningNode);
    }
    return Returned(None);
  }

  /**
   * `_getSelectionNodePosition`: the row is the row node's `data-row`; the
   * column is the length of a range from the start of the row node's
   * contents to (node, 0), and the row node is the node itself, so the
   * range is empty.
   */
  method GetSelectionNodePosition(sel: LegacySelection, startSide: bool) returns (pos: Outcome<Option<Position>>)
    ensures pos == Capture(if startSide then sel.anchor else sel.focus)
    ensures var node := if startSide then sel.anchor else sel.focus;
      && (pos == TypeError <==> node.Some? && !node.value.isEditorElement && !node.value.isElement)
      && (pos.Returned? ==> pos.value == if node.Some? && node.value.isElement then Some(Position(node.value.dataRow, 0)) else None)
  {
    var node := if startSide then sel.anchor else sel.focus;
    if node.None? {
      return Returned(None);
    }
    var rowNode := GetParentRowNode(node);
    if rowNode.TypeError? {
      return TypeError;
    }
    if rowNode.value.None? {
      return Returned(None);
    }
    return Returned(Some(Position(rowNode.value.value.dataRow, 0)));
  }

  /** The capture of one end of the selection: a position, none, or a failure. */
  function Capture(node: Option<LegacyNode>): (r: Outcome<Option<Position>>)
    ensures r == TypeError <==> ClimbGuard(node) == TypeError
    ensures r.Returned? && r.value.Some? ==> node.Some? && node.value.isElement && r.value.value == Position(node.value.dataRow, 0)
  {
    if node.None? then Returned(None)
    else if !node.value.isEditorElement && !node.value.isElement then TypeError
    else if node.value.isElement then Returned(Some(Position(node.value.dataRow, 0)))
    else Returned(None)
  }

  /**
   * The selection `updateSelection` commits, if any: with a focus node and
   * both ends captured, each end is its row node's `data-row` and, as its
   * column, the range's offset.
   */
  function LegacyUpdate(sel: LegacySelection): (r: Option<Selection>)
    ensures r.Some? <==> sel.focus.Some? && sel.anchor.Some? && sel.anchor.value.isElement && sel.focus.value.isElement
    ensures r.Some? ==> r.value == Selection(Position(sel.anchor.value.dataRow, sel.startOffset), Position(sel.focus.value.dataRow, sel.endOffset))
  {
    if sel.focus.None? then None
    else
      var s := Capture(sel.anchor);
      var e := Capture(sel.focus);
      if s.Returned? && e.Returned? && s.value.Some? && e.value.Some? then
        Some(Selection(Position(s.value.value.row, s.value.value.column + sel.startOffset), Position(e.value.value.row, e.value.value.column + sel.endOffset)))
      else None
  }

  class LegacyLighditor {
    var editorState: EditorState
    /** The calls made to `onTextContentChange`, oldest first. */
    var textChanges: seq<TextChange>
    /** The calls made to `onSelectionChange`, oldest first. */
    var selectionChanges: seq<SelectionChange>

    constructor ()
      ensures editorState == ResetState && textChanges == [] && selectionChanges == []
    {
      editorState := ResetState;
      textChanges := [];
      selectionChanges := [];
    }

    /** `getSelection`. */
    function GetSelection(): (s: Selection)
      reads this
      ensures s == editorState.selection
    {
      editorState.selection
    }

    /** `getCursorPosition`: row 0, column 0, whatever the state. */
    function GetCursorPosition(): (p: Position)
      ensures p.row == 0 && p.column == 0
    {
      Position(0, 0)
    }

    /** `setEditorState`: a copy of the given record becomes the state; nothing is rendered. */
    method SetEditorState(editorState: EditorState)
      modifies this
      ensures this.editorState == editorState
      ensures textChanges == old(textChanges) && selectionChanges == old(selectionChanges)
    {
      this.editorState := editorState;
    }

    /** `resetRender`: empty text, cursor and selection at row 0, column 0. */
    method ResetRender()
      modifies this
      ensures editorState.textContent == [] && editorState.cursorPosition == Origin
      ensures GetSelection() == Selection(Origin, Origin)
      ensures textChanges == old(textChanges) && selectionChanges == old(selectionChanges)
    {
      SetEditorState(EditorState([], Position(0, 0), Selection(Position(0, 0), Position(0, 0))));
    }

    /** `setTextContent`: only the text changes, and the hook hears the new and the previous text. */
    method SetTextContent(textContent: string)
      modifies this
      ensures editorState == old(editorState).(textContent := textContent)
      ensures textChanges == old(textChanges) + [TextChange(textContent, old(editorState.textContent))]
      ensures selectionChanges == old(selectionChanges)
    {
      var oldTextContent := editorState.textContent;
      SetEditorState(editorState.(textContent := textContent));
      textChanges := textChanges + [TextChange(textContent, oldTextContent)];
    }

    /** `setSelection`: only the selection changes, and the hook hears the new and the previous selection. */
    method SetSelection(selection: Selection)
      modifies this
      ensures editorState == old(editorState).(selection := selection) && GetSelection() == selection
      ensures selectionChanges == old(selectionChanges) + [SelectionChange(selection, old(editorState.selection))]
      ensures textChanges == old(textChanges)
    {
      var oldSelection := editorState.selection;
      SetEditorState(editorState.(selection := selection));
      selectionChanges := selectionChanges + [SelectionChange(selection, oldSelection)];
    }

    /**
     * `updateSelection`: nothing without a focus node; otherwise both ends
     * are captured and the selection is set when both have a position.  A
     * failing capture leaves the state as it was.
     */
    method UpdateSelection(current: LegacySelection) returns (failed: bool)
      modifies this
      ensures failed <==> current.focus.Some? && (Capture(current.anchor) == TypeError || Capture(current.focus) == TypeError)
      ensures var u := LegacyUpdate(current);
        if u.Some? && !failed then
          editorState == old(editorState).(selection := u.value)
          && selectionChanges == old(selectionChanges) + [SelectionChange(u.value, old(editorState.selection))]
        else
          editorState == old(editorState) && selectionChanges == old(selectionChanges)
      ensures textChanges == old(textChanges)
    {
      if current.focus.None? {
        return false;
      }
      var selectionStartPosition := GetSelectionNodePosition(current, true);
      if selectionStartPosition.TypeError? {
        return true;
      }
      var selectionEndPosition := GetSelectionNodePosition(current, false);
      if selectionEndPosition.TypeError? {
        return true;
      }
      if selectionStartPosition.value.Some? && selectionEndPosition.value.Some? {
        var s := selectionStartPosition.value.value;
        var e := selectionEndPosition.value.value;
        SetSelection(Selection(Position(s.row, s.column + current.startOffset), Position(e.row, e.column + current.endOffset)));
      }
      return false;
    }
  }
}
