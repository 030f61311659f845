/**
 * The editable tree the host renders, and the value types of the editor state.
 *
 * The editor root element is `Elem(rows)`: its children are the rows. A node
 * inside the editor is named by its path of child indices from the root, so
 * the row a node belongs to is the first index of its path.
 */
module Dom {

  datatype Option<T> = None | Some(value: T)

  /** A node of the editable tree: a text leaf, or an element with ordered children. */
  datatype Node = Text(text: string) | Elem(children: seq<Node>)

  /** A node together with its path from the editor root. */
  datatype Located = At(node: Node, path: seq<nat>)

  /**
   * A node reference as the platform selection hands it over: a node of the
   * editor tree, or some node elsewhere in the document (an element or not).
   */
  datatype NodeRef = InEditor(path: seq<nat>) | Elsewhere(isElement: bool)

  datatype Position = Position(row: int, column: int)

  /** Anchor-side `start` and focus-side `end`, in the order the user made them. */
  datatype Selection = Selection(start: Position, end: Position)

  datatype EditorState = EditorState(textContent: string, cursorPosition: Position, selection: Selection)

  const Origin := Position(0, 0)

  /** The state `resetRender` installs: no text, and the cursor and both selection ends at row 0, column 0. */
  const ResetState := EditorState([], Origin, Selection(Origin, Origin))

  /** One call of `onTextContentChange(newTextContent, oldTextContent)`. */
  datatype TextChange = TextChange(newTextContent: string, oldTextContent: string)

  /** One call of `onSelectionChange(newSelection, oldSelection)`. */
  datatype SelectionChange = SelectionChange(newSelection: Selection, oldSelection: Selection)

  function Children(n: Node): seq<Node>
  {
    if n.Elem? then n.children else []
  }

  /** Number of characters in the text leaves of the subtree `n`. */
  function TextLength(n: Node): nat
    decreases n, 1
  {
    match n
    case Text(s) => |s|
    case Elem(cs) => SumLength(n, |cs|)
  }

  /** Number of characters in the first `k` children of `n`. */
  function SumLength(n: Node, k: nat): nat
    requires k <= |Children(n)|
    decreases n, 0, k
  {
    if k == 0 then 0 else SumLength(n, k - 1) + TextLength(n.children[k - 1])
  }

  /** The node at relative path `p` below `n`, if there is one. */
  function NodeAt(n: Node, p: seq<nat>): Option<Node>
    decreases |p|
  {
    if p == [] then Some(n)
    else if p[0] < |Children(n)| then NodeAt(n.children[p[0]], p[1..])
    else None
  }

  /**
   * The length of the text of `n` that comes before the node at relative path
   * `p`: what a DOM Range from the start of `n`'s contents to the boundary
   * point (that node, 0) holds.
   */
  function TextBefore(n: Node, p: seq<nat>): nat
    decreases |p|
  {
    if p == [] then 0
    else if p[0] < |Children(n)| then SumLength(n, p[0]) + TextBefore(n.children[p[0]], p[1..])
    else 0
  }

  /** The nodes of the subtree `n` at path `p`, in document (pre-)order. */
  function PreOrder(n: Node, p: seq<nat>): seq<Located>
    decreases n, 1
  {
    [At(n, p)] + ForestFrom(n, p, 0)
  }

  /** The pre-order of the children of `n` from index `i` on, each at its own path. */
  function ForestFrom(n: Node, p: seq<nat>, i: nat): seq<Located>
    requires i <= |Children(n)|
    decreases n, 0, |Children(n)| - i
  {
    if i == |Children(n)| then []
    else PreOrder(n.children[i], p + [i]) + ForestFrom(n, p, i + 1)
  }

  lemma {:induction false} NodeAtChild(n: Node, p: seq<nat>, m: Node, i: nat)
    requires NodeAt(n, p) == Some(m) && i < |Children(m)|
    ensures NodeAt(n, p + [i]) == Some(m.children[i])
    decreases |p|
  {
    if p == [] {
      assert p + [i] == [i];
      assert [i][1..] == [];
    } else {
      assert (p + [i])[0] == p[0];
      assert (p + [i])[1..] == p[1..] + [i];
      NodeAtChild(n.children[p[0]], p[1..], m, i);
    }
  }
}
