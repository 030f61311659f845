# Lighditor, modelled in Dafny

Lighditor is a small browser text editor. It keeps the text as a
row/column model: a text content string, a cursor position, and a
selection made of a start and an end position. It shows that text in an
editable element that has one child element per row. Two directions keep
the two in step:

- `render` splits the text at `'\n'` and writes one row element per line.
- `_getInputText` walks the element's tree and compiles it back into text.

The selection crosses between the two as well. `updateSelection` captures
the platform selection into rows and columns. `restoreSelection` turns the
stored rows and columns back into a DOM range.

This project models the core of `src/lighditor.js` and of its older variant
`src/index.js`. Under the DOM calls that core is tree and sequence logic.

- **The tree** (`dom.dfy`, module `Dom`).
  - A node is `Text(text)` or `Elem(children)`, and the editor element is `Elem(rows)`.
  - A node is named by its path of child indices from the editor element, so its row is the first index of the path.
  - The DOM's "text before this point" is `TextBefore`.
  - The state record and the arguments passed to the change hooks are datatypes.
- **Row resolver** (`rows.dfy`, module `Rows`). This covers `isRowElement`, `getRowElementByIndex`, `_getParentRowNode` and `getRowIndex`.
  - `_getParentRowNode` keeps its two loops: the climb to the ancestor whose parent is the editor element, then the count of that ancestor's previous siblings.
- **The walk** (`walk.dfy`, module `Walk`). This is `_dfsTraverseNode`.
  - `DfsWalk` is the walk as a cursor class. It holds the explicit node stack and the `row` and `column` variables.
  - Each call to `Next` pops one node and updates `row` and `column` the way `_dfsTraverseNode` does. It then pushes the node's children, last child first.
  - The callers run the walk in their own `while` loop, with the callback's body inline, and leave the loop when the callback returns true.
  - The order is specified by `PreOrder` and the row and column of each visit by `Visits`.
- **The compiler** (`compile.dfy`, module `Compiler`). This is `_getInputText`.
  - `GetInputText` drives the walk. Its visitor back-fills gaps with spaces (`BackFill`), stops at an overlap, and copies the leaf text (`CopyText`).
  - `Compile` is the same computation as a fold over `Visits`. `Lines` is an independent reference that fills each row from its own tree, and `CompileLines` proves the two agree.
  - The copy bound is a parameter: `fullCopy = false` is the loop as written, and `fullCopy = true` is the corrected bound (see Findings).
- **The render** (`render.dfy`, module `Render`). This is the row split of `render`.
  - `Split` is JavaScript's `split('\n')`, and `RenderRows` is the `forEach` over the lines.
  - Compiling the rendered rows gives the text back (`RenderRoundTrip`).
- **Selection mapping** (`selection.dfy`, module `Selections`).
  - Capture: `_getSelectionNodePosition` and `updateSelection`.
  - Restore: `restoreSelection`.
  - The DOM range that the restore builds follows the DOM Standard.
    - Boundary points are compared as in section 5.2 ("position of a boundary point").
    - Setting one end past the other collapses the range, as in section 5.5 ("set the start or end").
- **The editor object** (`editor.dfy`, class `Editor.Lighditor`).
  - It covers the state setters, `getSelection`, `getCursorPosition`, `render`, `restoreSelection` and `updateSelection`.
  - The render that `setEditorState` defers with `setTimeout` is a counter of queued renders, and `RunQueuedRender` is the host running one.
- **The older variant** (`legacy.dfy`, module `Legacy`). This is `src/index.js`.
  - Its setters never ask for a render.
  - Its row resolver never climbs.
  - Any node that is neither an element nor the editor element makes the resolver's guard read a property of `undefined`. A text node inside a row, where the caret usually is, throws as much as one outside the editor.

The platform selection is host state. The capture takes it as a parameter
(`PlatformSelection`), and the restore returns the range it would hand to
`addRange`.

## Model

| member | source | states |
|---|---|---|
| Dom.NodeAtChild | src/lighditor.js:273-279 | the i-th child of the node at path p is the node at path p + [i], so the children a walk pushes are named by their paths |
| Rows.IsRowElement | src/lighditor.js:354-356 | a node is a row element exactly when its parent is the editor element: its path is one step below the root |
| Rows.GetRowElementByIndex | src/lighditor.js:345-352 | a row element exists exactly for an index within the root's children; it is a child of the root (`isRowElement`) at that index and is the row node itself |
| Rows.GetParentRowNode | src/lighditor.js:366-397 | no row for the editor element or a node outside it; otherwise the ancestor-or-self whose parent is the root, with row = its count of previous siblings = path[0] < row count, and `getRowElementByIndex(row)` gives that same element back |
| Rows.GetRowIndex | src/lighditor.js:336-343 | -1 exactly when the resolver gives no row, and otherwise the row index path[0] |
| Walk.DfsWalk.constructor | src/lighditor.js:245-248 | the stack holds only the editor element and nothing has been visited |
| Walk.DfsWalk.Next | src/lighditor.js:250-280 | pops one node; the visit it reports carries the row and column `_dfsTraverseNode` passes to the callback (a row element resets the column to 0 and sets the row to its index); after it the column has grown by the leaf's length; the visited nodes plus the stack's pre-order remain the editor tree's pre-order, and the remaining work strictly decreases |
| Walk.DfsWalk.Arrive | src/lighditor.js:251-254 | entering a row element sets the row to its index and resets the column; the visit is the state at the callback |
| Walk.DfsWalk.PushChildren | src/lighditor.js:273-280 | pushing the children last-first puts them on the stack so that they are popped in document order, first child first |
| Walk.VisitColumns | src/lighditor.js:244-282 | visit k of the walk is the k-th node in pre-order; the first is the editor element at row 0, column 0; every later one is inside row path[0], has row = path[0] and column = the length of the text before the node within its row |
| Walk.VisitsSplit | src/lighditor.js:250-281 | at any point of the walk, the visits made so far followed by the visits of what is on the stack are exactly all visits of the tree |
| Walk.TrackTree | src/lighditor.js:269-271 | walking a whole subtree below a row leaves the row unchanged and moves the column by the subtree's text length |
| Walk.TrackForest | src/lighditor.js:269-280 | walking the later siblings leaves the row unchanged and moves the column by their total text length |
| Walk.AnnotateTree | src/lighditor.js:250-280 | every visit inside a subtree entered at column c has the subtree's row and column c plus the text before the node inside that subtree |
| Walk.AnnotateForest | src/lighditor.js:250-280 | the same for the sequence of later siblings |
| Walk.ChildVisit | src/lighditor.js:273-280 | a visit within the i-th child subtree is at the row and at the column of the text before it, counting the earlier siblings' text |
| Walk.LaterChildVisit | src/lighditor.js:273-280 | a visit after the i-th child subtree is at the column counting that child's text too |
| Walk.RowsForest | src/lighditor.js:251-254 | every visit inside a row is at row path[0] and at the column of the text before it within that row, the column restarting at each row element |
| Walk.TrackAppend | src/lighditor.js:250-281 | walking two stretches one after the other tracks the same row and column as walking them together |
| Walk.NextStep | src/lighditor.js:250-280 | one pop-and-push keeps the walk's invariant (visited + pending = pre-order, state = tracked state, stack inside the tree) and shrinks what is pending |
| Walk.PushStep | src/lighditor.js:277-279 | pushing child i on top of the later children (already pushed) puts the forest from i onwards in pre-order on the stack |
| Compiler.Spaces | src/lighditor.js:311-314 | n spaces |
| Compiler.ResetRow | src/lighditor.js:292-301 | entering a row element makes that row empty, extends the rows with empty ones up to it, and keeps every other row |
| Compiler.BackFill | src/lighditor.js:306-317 | the gap before the column is filled with spaces from the column back to the last filled slot; the row becomes as long as the column when it was shorter and is unchanged otherwise |
| Compiler.CopyText | src/lighditor.js:325-329 | the copy appends the leaf text after the column: all of it with the corrected bound, and only its first `len - column` characters (none when the column is at least the length) with the bound as written |
| Compiler.Visitor | src/lighditor.js:291-331 | the callback on one visit gives the next rows and whether to stop, as `CompileStep`: a row reset, a back-fill and a copy, or a stop on an overlap |
| Compiler.CompileStep | src/lighditor.js:291-331 | the callback on one visit: a non-leaf only resets its own row and never stops the walk; only the leaf's row can change; a leaf whose row already reaches past its column stops the walk with the rows as they were; a leaf that does not stop keeps its row's previous content as a prefix and fills the row up to its column |
| Compiler.JoinLines | src/lighditor.js:333 | the joined text begins with the first row and, when there is more than one row, a line break follows it; `Render.JoinSplit` and `Render.SplitJoin` prove it is the inverse of the split in `render` |
| Compiler.GetInputText | src/lighditor.js:287-334 | the text the walk-and-callback loop produces equals `Compile(rows)`, the fold of the callback over all visits joined with `'\n'` |
| Compiler.PlaceText | src/lighditor.js:303-329 | the row after placing a leaf at a column past its end is at most column + length long and never empty once the column or the text is positive; with the corrected bound it is the padded row followed by the whole text |
| Compiler.FillTree | src/lighditor.js:303-329 | the reference fill of a subtree never grows the row past the column plus the subtree's text length |
| Compiler.FillForest | src/lighditor.js:303-329 | the same for a sequence of siblings |
| Compiler.FillForestStep | src/lighditor.js:273-280 | filling the siblings from i is filling child i and then the siblings from i + 1, at the column moved by child i's text |
| Compiler.Lines | src/lighditor.js:333 | the reference gives one line per row element |
| Compiler.CompileAppend | src/lighditor.js:291-331 | the callback fold over two stretches of visits is the fold over the first, continued over the second |
| Compiler.CompileHalted | src/lighditor.js:265-267 | once the callback has returned true nothing later changes the rows |
| Compiler.DeepTree | src/lighditor.js:303-329 | compiling a subtree below a row places exactly what the reference fill of that subtree places |
| Compiler.DeepForest | src/lighditor.js:303-329 | the same for a sequence of siblings |
| Compiler.DeepChild | src/lighditor.js:303-329 | the same for child i followed by its later siblings |
| Compiler.ChildThenSiblings | src/lighditor.js:273-280 | compiling child i's subtree and then the later children writes the row the child leaves and then the row the later children leave |
| Compiler.RowTree | src/lighditor.js:292-329 | compiling one row element appends that row's reference line |
| Compiler.RowsCompile | src/lighditor.js:291-331 | compiling the rows from i onwards completes the lines of all rows |
| Compiler.NextRow | src/lighditor.js:291-331 | compiling row i and the rows after it completes the lines of all rows |
| Compiler.CompileLines | src/lighditor.js:287-334 | for every tree the walk's callbacks never stop it, and the output is the reference lines joined with `'\n'` |
| Compiler.NeverHalts | src/lighditor.js:303-323 | at no point of a walk over a tree that does not change during it does the callback stop the walk: the overlap branch and an endless back-fill are unreachable, whatever the tree |
| Compiler.OverlapStops | src/lighditor.js:319-323 | when a leaf's row is already longer than its column, the walk stops there; the current row keeps what it had, rows after it never appear, and no later visit changes anything (a state only a tree changed during the walk can reach, by `NeverHalts`) |
| Compiler.NoStuck | src/lighditor.js:303-317 | a leaf is always inside a row that exists, and when its column is positive that row is not empty, so the back-fill `while` reaches a filled slot |
| Compiler.Flatten | src/lighditor.js:325-329 | the concatenated text of a subtree has its text length |
| Compiler.FlattenFrom | src/lighditor.js:325-329 | the concatenated text of the later siblings has their total text length |
| Compiler.FullTree | src/lighditor.js:325-329 | with the corrected bound, a subtree filled at the end of a row appends its whole text |
| Compiler.FullForest | src/lighditor.js:325-329 | the same for a sequence of siblings |
| Compiler.CompileFlatten | src/lighditor.js:325-333 | with the corrected bound, the compiled text is the rows' concatenated texts joined with `'\n'` |
| Compiler.SecondLeafDropped | src/lighditor.js:327 | with the bound as written, the row `[Text("ab"), Text("cd")]` compiles to "ab": the second leaf starts at column 2, which is its own length, so nothing of it is copied |
| Compiler.DroppedRow | src/lighditor.js:325-329 | the reference fill of that row with the bound as written is "ab" |
| Compiler.SecondLeafKept | src/lighditor.js:325-333 | with the corrected bound the same row compiles to "abcd" |
| Render.Split | src/lighditor.js:159 | the split always has at least one piece |
| Render.SplitLines | src/lighditor.js:159 | there is one more piece than there are line breaks, and no piece holds a line break |
| Render.SplitJoin | src/lighditor.js:159 | joining the pieces with `'\n'` gives the text back |
| Render.JoinSplit | src/lighditor.js:159 | splitting a `'\n'`-join of break-free lines gives the lines back |
| Render.RenderRows | src/lighditor.js:156-166 | one row element per line of the text, in order, holding that line (none for an empty line); the row count is the number of line breaks plus one |
| Render.RowCompiles | src/lighditor.js:162-164 | a rendered row compiles back to its line |
| Render.RenderRoundTrip | src/lighditor.js:156-166 | compiling the rows a render produces gives the text content back, with either copy bound |
| Selections.PositionOf | src/lighditor.js:427-438 | a node has a position exactly when it is inside a row; the row is its row index and the column is the text before it in that row |
| Selections.GetSelectionNodePosition | src/lighditor.js:399-445 | no position without a node, for the editor element, or for a node outside it; otherwise the resolver's row and the length of the text before the node in that row |
| Selections.CaptureWalk | src/lighditor.js:427-438 | the capture of any node the walk visits gives back the row and column the walk passes to its callback for that node |
| Selections.SelectionUpdate | src/lighditor.js:464-487 | a selection is committed exactly when there is a focus node and both ends have a position; start = anchor position + start offset and end = focus position + end offset, with no reordering |
| Selections.Compare | src/lighditor.js:566-575 | two boundary points compare equal exactly when they are the same point |
| Selections.CompareFlip | src/lighditor.js:566-575 | comparing b with a is the reverse of comparing a with b |
| Selections.PathOrder | src/lighditor.js:566-575 | of two distinct paths, neither an ancestor of the other, exactly one comes first in tree order |
| Selections.SetStart | src/lighditor.js:568 | after `setStart` the start is the given point, the range is ordered, and the end is the old end or, when the old end came first, the given point |
| Selections.SetEnd | src/lighditor.js:574 | after `setEnd` the end is the given point, the range is ordered, and the start is the old start or, when the old start came after, the given point |
| Selections.RestoreStep | src/lighditor.js:558-575 | once the start is found it stays found |
| Selections.RestoreOrdered | src/lighditor.js:549-580 | whatever the tree, the range the restore builds never has its start after its end |
| Selections.RestoreFound | src/lighditor.js:549-580 | the start is found exactly when some leaf on the start row spans the start column; until then the range stays collapsed at the start of the start row |
| Selections.StartAtFirstHolder | src/lighditor.js:566-575 | at the first leaf on the start row spanning the start column, the range collapses to that leaf at the offset start column - leaf column, and the end moves to that leaf too when the leaf spans the end column |
| Selections.StepMapsBack | src/lighditor.js:558-575 | one visit keeps both boundary points mapping back to a stored column on the start row or to the start of that row |
| Selections.RestoreMapsBack | src/lighditor.js:549-580 | every boundary point the restore places maps back to the stored start column or end column on the start row; an unplaced point stays at the start of the row |
| Selections.RestoreAppend | src/lighditor.js:557-580 | folding the restore's callback over two stretches of visits is folding it over the first and continuing over the second |
| Selections.EndAtLastHolder | src/lighditor.js:572-575 | once the start is found, the end ends up at the last leaf on the start row whose span holds the end column: a later such leaf overwrites an earlier one |
| Selections.NoEndHolder | src/lighditor.js:572-575 | once the start is found, visits with no leaf holding the end column change nothing |
| Selections.FoundStays | src/lighditor.js:566-569 | once the start is found it stays found over any run of visits |
| Selections.RestoreAfterFirst | src/lighditor.js:566-575 | after the first leaf holding the start column, the restore of the whole walk goes on from the range that leaf set |
| Selections.RestoreEnd | src/lighditor.js:549-580 | over the whole walk, with the start found at the first leaf holding the start column, the range's end is at the last leaf from there on holding the end column; with none, the range stays collapsed at the start point |
| Selections.Restore | src/lighditor.js:529-585 | a range is produced exactly when both the start row and the end row exist, and it is ordered |
| Selections.RestoreVisitor | src/lighditor.js:557-580 | the callback of `restoreSelection` on one visit does what `RestoreStep` states |
| Selections.RestoreRange | src/lighditor.js:529-585 | the walk loop of `restoreSelection` produces `Restore(rows, selection)`: nothing when the start or end row is missing, and otherwise the range folded over every visit from a collapsed range at the start row |
| Editor.Lighditor.constructor | src/lighditor.js:74-86 | an editor with no rows, nothing queued, no hook calls; its state is the reset state |
| Editor.Lighditor.GetSelection | src/lighditor.js:359-361 | the stored selection |
| Editor.Lighditor.GetCursorPosition | src/lighditor.js:628-634 | row 0, column 0, whatever the state |
| Editor.Lighditor.SetEditorState | src/lighditor.js:207-219 | the state becomes the given record and one render is queued; rows and hook logs are unchanged |
| Editor.Lighditor.ResetRender | src/lighditor.js:88-97 | empty text, cursor, start and end all at row 0, column 0, and a render queued |
| Editor.Lighditor.SetTextContent | src/lighditor.js:221-230 | only the text changes; the text hook hears the new text and the previous text; a render is queued |
| Editor.Lighditor.SetSelection | src/lighditor.js:232-241 | only the selection changes; the selection hook hears the new and the previous selection; a render is queued |
| Editor.Lighditor.RestoreSelection | src/lighditor.js:529-585 | the range handed to the platform is `Restore(rows, selection)`, and it is ordered |
| Editor.Lighditor.Render | src/lighditor.js:156-170 | the rows become one row element per line of the text (line breaks + 1 rows); compiling them gives the text back; the selection is then restored on the new rows |
| Editor.Lighditor.RunQueuedRender | src/lighditor.js:216-218 | running one queued render consumes it and renders the current state, leaving the state and the hook logs as they were |
| Editor.Lighditor.UpdateSelection | src/lighditor.js:464-487 | when the capture gives a selection it is set (hook called, render queued); otherwise nothing changes |
| Legacy.ClimbGuard | src/index.js:222 | the guard fails with a TypeError exactly on a non-element that is not the editor element |
| Legacy.GuardNeverHolds | src/index.js:222 | the climb guard `!x === 'row'` is never true, so the loop body never runs |
| Legacy.GetParentRowNode | src/index.js:219-232 | the loop never climbs: a TypeError exactly for a non-element other than the editor element (a text node inside a row included), otherwise the node itself when it is an element and no node when it is not |
| Legacy.GetSelectionNodePosition | src/index.js:234-276 | no position without a node; otherwise the node's `data-row` and column 0 when it is an element, and a TypeError when it is a non-element other than the editor element, a text node inside a row included |
| Legacy.Capture | src/index.js:234-276 | the capture of one end fails exactly when the climb guard does, and it gives a position only for an element: its `data-row` at column 0 |
| Legacy.LegacyUpdate | src/index.js:295-319 | a selection is committed exactly when there is a focus node and both anchor and focus are elements; start = anchor `data-row` and the start offset, end = focus `data-row` and the end offset |
| Legacy.LegacyLighditor.constructor | src/index.js:84-93 | the state is the reset state and no hook has been called |
| Legacy.LegacyLighditor.GetSelection | src/index.js:212-214 | the stored selection |
| Legacy.LegacyLighditor.GetCursorPosition | src/index.js:362-368 | row 0, column 0, whatever the state |
| Legacy.LegacyLighditor.SetEditorState | src/index.js:181-187 | the state becomes the given record; no render is asked for and no hook is called |
| Legacy.LegacyLighditor.ResetRender | src/index.js:84-93 | empty text, cursor, start and end all at row 0, column 0 |
| Legacy.LegacyLighditor.SetTextContent | src/index.js:189-198 | only the text changes, and the text hook hears the new and the previous text |
| Legacy.LegacyLighditor.SetSelection | src/index.js:200-209 | only the selection changes, and the selection hook hears the new and the previous selection |
| Legacy.LegacyLighditor.UpdateSelection | src/index.js:295-319 | nothing without a focus node; a failing capture leaves the state unchanged and is reported; otherwise the selection is set exactly when both ends have a position |

## Left out

- DOM construction, event wiring, the keyboard and mouse handlers and CSS (src/lighditor.js:99-151, 173-192): these are host I/O.
- `setTimeout` in `setEditorState`: the render runs asynchronously in src/lighditor.js. The model counts queued renders instead, and `RunQueuedRender` is the host running one. The order of renders relative to other events is not modelled.
- `innerHTML` parsing in `render`: the host is taken to read each row's markup back as a single text leaf, or as no leaf for an empty line. Markup or HTML entities inside the text are not modelled.
- The feature flags (`window.getSelection`, `document.createRange`) and the old-IE branches: the model assumes both features exist.
- `window.getSelection`, `getRangeAt(0)`, `removeAllRanges` and `addRange`: the platform selection is a `PlatformSelection` parameter, and the restore returns the range instead of installing it.
- `Range.toString().length` is modelled as the text length before the boundary point within the row (`TextBefore`).
- Console logging (`console.log`, `console.warn`, `console.error`) is not modelled.
- The `if (!selection) return` guard in `restoreSelection`: the model's state always holds a selection.
- The state before the first `resetRender`: in both source files `editorState` is undefined until then. Both model classes start in the reset state.
- Holes in the sparse `contents` array that `_getInputText` joins are read as empty rows, which is what `join` does with them. Rows that the compiler extends stay dense.
- Compiler.CompileStep: it also halts where src/lighditor.js would read a property of an undefined row, or where the back-fill `while` would never end. `NoStuck` and `NeverHalts` prove that neither case, nor the overlap branch, arises while the tree stays fixed during the walk, which it always does in the model.
- Text node content is taken to be fixed during a walk. The callbacks never change the tree.
- `dataset['row']` parsing in src/index.js:267: a row node's `data-row` is given as an integer (`LegacyNode.dataRow`), so `NaN` is not modelled.
- Legacy.GetParentRowNode: the `while` loop of src/index.js:222 is not written out. Its guard is proved never to hold (`GuardNeverHolds`), so the body never runs.
- Selections.RestoreMapsBack: a later leaf that also spans the start column does not move the start, because `foundStart` is already set. The model proves this only through `RestoreStep` and `StartAtFirstHolder`, not as a separate lemma over the whole walk. The end over the whole walk is stated by `RestoreEnd`; where the start ends up after later ends drag it along is not.
- A node's row is the index of its top-level ancestor among the editor element's children; nested row containers get no extra row.
- `updateSelection` adds the start offset of the range `getRangeAt(0)` to the anchor's column and its end offset to the focus's column, and never reorders a backward selection. The range's ends are in document order, so for a backward selection the anchor's column gets the focus's offset. `PlatformSelection` leaves the two offsets unconstrained.
- An overlap stops the whole walk; it does not truncate the leaf.
- In src/index.js a text node (inside a row or not) does not give null: its guard reads a property of `undefined` and throws (`Legacy.Outcome.TypeError`).
- Strings: in src/lighditor.js `node.length`, `nodeText[i]`, `split('\n')` and `Range.toString().length` count UTF-16 code units. The model treats one `char` as one UTF-16 code unit. Text outside the Basic Multilingual Plane, whose surrogate pairs the copy bound at src/lighditor.js:327 can cut in half, is not modelled.
- The commented-out CoffeeScript editor and the commented-out code inside the modelled functions are not modelled.

## Findings

| source | as written | input that shows it | evidently intended | confidence | as-written member | corrected member |
|---|---|---|---|---|---|---|
| src/lighditor.js:327 | the copy loop runs `i` from `column` to `nodeText.length`, so a leaf that starts at column c contributes only its first max(0, len - c) characters | one row holding the leaves "ab" and "cd": the compiled text is "ab" | the loop runs to `column + nodeText.length`, so the row compiles to "abcd" and every row compiles to its leaves' texts concatenated | not executed | Compiler.SecondLeafDropped | Compiler.CompileFlatten |
