/**
 * The rows of the XML viewer (src/components/XmlViewer.tsx, lines 62 to 72 and
 * 114 to 128): the formatted text is split on newlines, each piece becomes a
 * row numbered from 1, indented by half the length of its leading whitespace
 * and marked as a closing tag when its trimmed text starts with `</`.
 */
module XmlLines {
  import opened Text
  import opened XmlCleanup
  import opened XmlFormat

  /** What a row computes from its line. */
  datatype LineView = LineView(lineNumber: nat, indentation: real, isClosingTag: bool)

  /** Lines 123 and 124: `^\s*` always matches, so the indentation is the length
   * of the leading whitespace divided by two, without rounding. */
  function Indentation(line: string): real
  {
    (LeadingSpaces(line) as real) / 2.0
  }

  /** Line 128. */
  predicate IsClosingTag(line: string)
  {
    StartsWith(Trim(line), "</")
  }

  function ViewLine(line: string, lineNumber: nat): LineView
  {
    LineView(lineNumber, Indentation(line), IsClosingTag(line))
  }

  /** Lines 62, 71 and 72: one row per piece of the text split on newlines. */
  function ViewerLines(formatted: string): (views: seq<LineView>)
    ensures |views| == |Split(formatted, '\n')|
  {
    var lines := Split(formatted, '\n');
    seq(|lines|, i requires 0 <= i < |lines| => ViewLine(lines[i], i + 1))
  }

  /** Row numbers run from 1 to the number of rows, one apart. */
  lemma LineNumbers(formatted: string)
    ensures var views := ViewerLines(formatted);
      views[0].lineNumber == 1 &&
      views[|views| - 1].lineNumber == |views| &&
      forall i :: 0 <= i < |views| - 1 ==> views[i + 1].lineNumber == views[i].lineNumber + 1
  {
    var views := ViewerLines(formatted);
    var lines := Split(formatted, '\n');
    forall i | 0 <= i < |views|
      ensures views[i].lineNumber == i + 1
    {
      assert views[i] == ViewLine(lines[i], i + 1);
      ViewLineNumber(lines[i], i + 1);
    }
  }

  lemma ViewLineNumber(line: string, n: nat)
    ensures ViewLine(line, n).lineNumber == n
  {
  }

  /** A line written by the formatter at some depth shows that depth as its
   * indentation, and counts as a closing tag exactly when its fragment starts
   * with `/`. */
  lemma ViewOfLayoutLine(depth: nat, node: string)
    ensures Indentation(LayoutLine(depth, node)) == depth as real
    ensures IsClosingTag(LayoutLine(depth, node)) <==> node != [] && node[0] == '/'
  {
    var rest := "<" + node + ">";
    LayoutLineParts(depth, node);
    PaddedTrim(Spaces(2 * depth), rest);
    assert Indentation(LayoutLine(depth, node)) == ((2 * depth) as real) / 2.0;
    HalfOfDouble(depth);
    assert IsClosingTag(LayoutLine(depth, node)) <==> StartsWith(rest, "</");
    assert StartsWith(rest, "</") <==> rest[1] == '/';
  }

  lemma HalfOfDouble(d: nat)
    ensures ((2 * d) as real) / 2.0 == d as real
  {
  }

  lemma LayoutLineParts(depth: nat, node: string)
    ensures LayoutLine(depth, node) == Spaces(2 * depth) + ("<" + node + ">")
    ensures ("<" + node + ">")[1] == if node != [] then node[0] else '>'
  {
  }

  /** Trimming a blank pad off text that starts and ends with non-blanks. */
  lemma PaddedTrim(pad: string, rest: string)
    requires IsBlank(pad) && rest != [] && !IsSpace(rest[0]) && !IsSpace(rest[|rest| - 1])
    ensures LeadingSpaces(pad + rest) == |pad|
    ensures Trim(pad + rest) == rest
  {
    TrimStartBlank(pad);
    TrimStartAppend(pad, rest);
    assert TrimStart(rest) == rest;
  }

  /** When no fragment holds a line break, the viewer shows one row per
   * fragment, indented by the fragment's depth and marked as closing exactly
   * when the fragment starts with `/`, then one empty row for the text after
   * the final newline. */
  lemma RowsOfFormatted(nodes: seq<string>)
    requires forall k :: 0 <= k < |nodes| ==> '\n' !in nodes[k]
    ensures var views := ViewerLines(Cleanup(Formatted(nodes)));
      |views| == |nodes| + 1 &&
      (forall k :: 0 <= k < |nodes| ==>
        views[k] == LineView(k + 1, LineDepths(0, Kinds(nodes))[k] as real, nodes[k] != [] && nodes[k][0] == '/')) &&
      views[|nodes|] == LineView(|nodes| + 1, 0.0, false)
  {
    CleanupKeepsFormatted(nodes);
    FormattedLines(nodes);
    var lines := Layout(nodes) + [[]];
    var views := ViewerLines(Formatted(nodes));
    forall k | 0 <= k < |nodes|
      ensures views[k] == LineView(k + 1, LineDepths(0, Kinds(nodes))[k] as real, nodes[k] != [] && nodes[k][0] == '/')
    {
      ViewOfLayoutLine(LineDepths(0, Kinds(nodes))[k], nodes[k]);
      assert lines[k] == LayoutLine(LineDepths(0, Kinds(nodes))[k], nodes[k]);
    }
    assert lines[|nodes|] == [];
    assert Trim([]) == [];
  }
}
