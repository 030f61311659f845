/**
 * The row split of `render` in src/lighditor.js: the text content is split
 * at every '\n' and each line becomes one row element holding the line as
 * its text.  The markup string `render` assembles is read back by the
 * host as exactly that tree; an empty line gives a row element without
 * children.  Compiling the rendered tree gives the text back.
 */
module Render {
  import opened Dom
  import opened Compiler

  /** Number of occurrences of `c` in `s`. */
  function Count(s: string, c: char): nat
  {
    if s == [] then 0 else (if s[0] == c then 1 else 0) + Count(s[1..], c)
  }

  /** `s.split('\n')`: the pieces between the line breaks; the empty text is one empty piece. */
  function Split(s: string): (r: seq<string>)
    ensures |r| >= 1
  {
    if s == [] then [[]]
    else if s[0] == '\n' then [[]] + Split(s[1..])
    else
      var rest := Split(s[1..]);
      [[s[0]] + rest[0]] + rest[1..]
  }

  /** The row element the host builds from one line of markup. */
  function RowOf(line: string): Node
  {
    if line == [] then Elem([]) else Elem([Text(line)])
  }

  /** The tree a render of `textContent` produces. */
  function Rendered(textContent: string): seq<Node>
  {
    var lines := Split(textContent);
    seq(|lines|, i requires 0 <= i < |lines| => RowOf(lines[i]))
  }

  /** The pieces hold no line break, and there is one more of them than line breaks. */
  lemma {:induction false} SplitLines(s: string)
    ensures |Split(s)| == Count(s, '\n') + 1
    ensures Unbroken(Split(s))
  {
    if s != [] {
      SplitLines(s[1..]);
    }
  }

  /** Joining the pieces with '\n' gives the text back. */
  lemma {:induction false} SplitJoin(s: string)
    ensures JoinLines(Split(s)) == s
  {
    if s != [] {
      var rest := Split(s[1..]);
      SplitJoin(s[1..]);
      if s[0] == '\n' {
        assert ([[]] + rest)[1..] == rest;
      } else {
        var r := [[s[0]] + rest[0]] + rest[1..];
        if |rest| == 1 {
          assert r == [[s[0]] + rest[0]];
        } else {
          assert r[1..] == rest[1..];
          assert JoinLines(rest) == rest[0] + ['\n'] + JoinLines(rest[1..]);
        }
      }
    }
  }

  /** No piece of `lines` holds a line break. */
  ghost predicate Unbroken(lines: seq<string>)
  {
    forall i, j :: 0 <= i < |lines| && 0 <= j < |lines[i]| ==> lines[i][j] != '\n'
  }

  /** Splitting lines that hold no line break, once joined, gives the lines back. */
  lemma {:induction false} JoinSplit(lines: seq<string>)
    requires |lines| >= 1 && Unbroken(lines)
    ensures Split(JoinLines(lines)) == lines
    decreases |lines|, |lines[0]|, 1
  {
    if lines[0] != [] {
      JoinSplitHead(lines);
    } else if |lines| > 1 {
      JoinSplit(lines[1..]);
      assert JoinLines(lines) == ['\n'] + JoinLines(lines[1..]);
    }
  }

  /** The case of `JoinSplit` whose first line has a first character. */
  lemma {:induction false} JoinSplitHead(lines: seq<string>)
    requires |lines| >= 1 && Unbroken(lines) && lines[0] != []
    ensures Split(JoinLines(lines)) == lines
    decreases |lines|, |lines[0]|, 0
  {
    var head := lines[0];
    var shorter := [head[1..]] + lines[1..];
    assert shorter[0] == head[1..];
    assert forall i :: 1 <= i < |shorter| ==> shorter[i] == lines[i];
    assert shorter[1..] == lines[1..];
    JoinSplit(shorter);
    assert JoinLines(lines) == [head[0]] + JoinLines(shorter);
    assert [head[0]] + head[1..] == head;
  }

  /**
   * The row loop of `render`: one row element per line of the text
   * content, in order.
   */
  method RenderRows(textContent: string) returns (rows: seq<Node>)
    ensures rows == Rendered(textContent)
    ensures |rows| == Count(textContent, '\n') + 1
  {
    var textContentRows := Split(textContent);
    rows := [];
    for k := 0 to |textContentRows|
      invariant rows == seq(k, i requires 0 <= i < k => RowOf(textContentRows[i]))
    {
      rows := rows + [RowOf(textContentRows[k])];
    }
    SplitLines(textContent);
  }

  /** A rendered row compiles back to its line, whatever the copy bound. */
  lemma RowCompiles(line: string, fullCopy: bool)
    ensures FillTree([], 0, RowOf(line), fullCopy) == line
  {
    var n := RowOf(line);
    if line != [] {
      assert FillTree([], 0, Text(line), fullCopy) == line;
      FillForestStep([], 0, n, 0, fullCopy, line, |line|);
    }
  }

  /** Compiling what `render` produced for `textContent` gives `textContent` back. */
  lemma RenderRoundTrip(textContent: string, fullCopy: bool)
    ensures Compile(Rendered(textContent), fullCopy) == textContent
  {
    var rows := Rendered(textContent);
    CompileLines(rows, fullCopy);
    forall i | 0 <= i < |rows|
      ensures Lines(rows, fullCopy)[i] == Split(textContent)[i]
    {
      RowCompiles(Split(textContent)[i], fullCopy);
    }
    assert Lines(rows, fullCopy) == Split(textContent);
    SplitJoin(textContent);
  }
}
