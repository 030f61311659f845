/**
 * The editor object of src/lighditor.js: its state record, the setters that
 * replace it and report changes to the hooks, the render that rebuilds the
 * rows from the text and puts the selection back, and the capture of the
 * platform selection into the state.
 *
 * The render the setters ask for runs later, from the host's timer queue:
 * the object counts the renders that are queued, and `RunQueuedRender` is
 * the host running one.  The platform selection is host state: the capture
 * reads it as a parameter, and the restore returns the range it hands over.
 */
module Editor {
  import opened Dom
  import opened Walk
  import opened Compiler
  import opened Render
  import opened Selections

  class Lighditor {
    /** The rows of the editor element. */
    var editorRows: seq<Node>
    var editorState: EditorState
    /** How many deferred renders the setters have queued and the host has not run yet. */
    var queuedRenders: nat
    /** The calls made to `onTextContentChange`, oldest first. */
    var textChanges: seq<TextChange>
    /** The calls made to `onSelectionChange`, oldest first. */
    var selectionChanges: seq<SelectionChange>

    /** An editor with no rows yet, in the reset state. */
    constructor ()
      ensures editorRows == [] && editorState == ResetState && queuedRenders == 0
      ensures textChanges == [] && selectionChanges == []
    {
      editorRows := [];
      editorState := ResetState;
      queuedRenders := 0;
      textChanges := [];
      selectionChanges := [];
    }

    /** `getSelection`. */
    function GetSelection(): (s: Selection)
      reads this
      ensures s == editorState.selection
    {
      editorState.selection
    }

    /** `getCursorPosition`: row 0, column 0, whatever the state. */
    function GetCursorPosition(): (p: Position)
      ensures p.row == 0 && p.column == 0
    {
      Position(0, 0)
    }

    /** `setEditorState`: a copy of the given record becomes the state, and a render is queued. */
    method SetEditorState(editorState: EditorState)
      modifies this
      ensures this.editorState == editorState && queuedRenders == old(queuedRenders) + 1
      ensures editorRows == old(editorRows) && textChanges == old(textChanges) && selectionChanges == old(selectionChanges)
    {
      this.editorState := editorState;
      queuedRenders := queuedRenders + 1;
    }

    /** `resetRender`: empty text, cursor and selection at row 0, column 0. */
    method ResetRender()
      modifies this
      ensures editorState.textContent == [] && editorState.cursorPosition == Origin
      ensures GetSelection() == Selection(Origin, Origin)
      ensures queuedRenders == old(queuedRenders) + 1
      ensures editorRows == old(editorRows) && textChanges == old(textChanges) && selectionChanges == old(selectionChanges)
    {
      SetEditorState(EditorState([], Position(0, 0), Selection(Position(0, 0), Position(0, 0))));
    }

    /**
     * `setTextContent`: only the text changes, a render is queued, and the
     * hook hears the new and the previous text.
     */
    method SetTextContent(textContent: string)
      modifies this
      ensures editorState == old(editorState).(textContent := textContent)
      ensures textChanges == old(textChanges) + [TextChange(textContent, old(editorState.textContent))]
      ensures queuedRenders == old(queuedRenders) + 1
      ensures editorRows == old(editorRows) && selectionChanges == old(selectionChanges)
    {
      var oldTextContent := editorState.textContent;
      SetEditorState(editorState.(textContent := textContent));
      textChanges := textChanges + [TextChange(textContent, oldTextContent)];
    }

    /**
     * `setSelection`: only the selection changes, a render is queued, and
     * the hook hears the new and the previous selection.
     */
    method SetSelection(selection: Selection)
      modifies this
      ensures editorState == old(editorState).(selection := selection) && GetSelection() == selection
      ensures selectionChanges == old(selectionChanges) + [SelectionChange(selection, old(editorState.selection))]
      ensures queuedRenders == old(queuedRenders) + 1
      ensures editorRows == old(editorRows) && textChanges == old(textChanges)
    {
      var oldSelection := editorState.selection;
      SetEditorState(editorState.(selection := selection));
      selectionChanges := selectionChanges + [SelectionChange(selection, oldSelection)];
    }

    /**
     * `restoreSelection`: the range to hand to the platform selection, or
     * nothing when the stored start or end row does not exist.
     */
    method RestoreSelection() returns (applied: Option<Range>)
      ensures applied == Restore(editorRows, editorState.selection)
      ensures applied.Some? ==> Ordered(applied.value)
    {
      applied := RestoreRange(editorRows, editorState.selection);
      if applied.Some? {
        assert Ordered(applied.value) by {
          var sel := editorState.selection;
          RestoreOrdered(Collapsed(sel.start.row), Visits(editorRows), sel);
        }
      }
    }

    /**
     * `render`: one row element per line of the text content, then the
     * selection is restored.  Compiling the new rows gives the text content
     * back.
     */
    method Render() returns (applied: Option<Range>)
      modifies this`editorRows
      ensures editorRows == Rendered(editorState.textContent)
      ensures |editorRows| == Count(editorState.textContent, '\n') + 1
      ensures Compile(editorRows, false) == editorState.textContent
      ensures applied == Restore(editorRows, editorState.selection)
    {
      var textContent := editorState.textContent;
      editorRows := RenderRows(textContent);
      RenderRoundTrip(textContent, false);
      applied := RestoreSelection();
    }

    /** The host runs one of the renders the setters queued. */
    method RunQueuedRender() returns (applied: Option<Range>)
      requires queuedRenders > 0
      modifies this
      ensures queuedRenders == old(queuedRenders) - 1
      ensures editorRows == Rendered(editorState.textContent) && Compile(editorRows, false) == editorState.textContent
      ensures applied == Restore(editorRows, editorState.selection)
      ensures editorState == old(editorState) && textChanges == old(textChanges) && selectionChanges == old(selectionChanges)
    {
      queuedRenders := queuedRenders - 1;
      applied := Render();
    }

    /**
     * `updateSelection`: without a focus node nothing happens; otherwise both
     * ends are captured and, when both have a position, the selection
     * becomes the anchor's position plus the range's start offset and the
     * focus's position plus its end offset.
     */
    method UpdateSelection(current: PlatformSelection)
      requires Refers(editorRows, current.anchor) && Refers(editorRows, current.focus)
      modifies this
      ensures var u := SelectionUpdate(editorRows, current);
        if u.Some? then
          && editorState == old(editorState).(selection := u.value)
          && selectionChanges == old(selectionChanges) + [SelectionChange(u.value, old(editorState.selection))]
          && queuedRenders == old(queuedRenders) + 1
        else
          editorState == old(editorState) && selectionChanges == old(selectionChanges) && queuedRenders == old(queuedRenders)
      ensures editorRows == old(editorRows) && textChanges == old(textChanges)
    {
      if current.focus.None? {
        return;
      }
      var selectionStartPosition := GetSelectionNodePosition(editorRows, current, START);
      var selectionEndPosition := GetSelectionNodePosition(editorRows, current, END);
      if selectionStartPosition.Some? && selectionEndPosition.Some? {
        SetSelection(Selection(
          Position(selectionStartPosition.value.row, selectionStartPosition.value.column + current.startOffset),
          Position(selectionEndPosition.value.row, selectionEndPosition.value.column + current.endOffset)));
      }
    }
  }
}
