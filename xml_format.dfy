/**
 * The re-indenting loop of `formatXml` (src/components/XmlViewer.tsx, lines
 * 81 to 112). Each fragment of the split becomes one line: the running indent,
 * `<`, the fragment, `>` and a newline. A closing fragment takes one 2-space
 * unit off the indent before its line is written; an opening fragment that is
 * not self-closing adds one after. The depth functions below say what the
 * indent is after any prefix of the fragments, and FormatXml is proved to build
 * exactly the text those functions describe.
 */
module XmlFormat {
  import opened Text
  import opened XmlSplit
  import opened XmlCleanup

  /** Line 87, `/^\/\w/`: a `/` followed by a word character. */
  predicate IsClosing(node: string)
  {
    |node| >= 2 && node[0] == '/' && IsWordChar(node[1])
  }

  /** `/^\w[^>]*[^\/]$/`: a word character, then no `>` before the last
   * character, and a last character other than `/`; so at least two characters. */
  predicate OpeningBody(s: string)
  {
    |s| >= 2 && IsWordChar(s[0]) && s[|s| - 1] != '/' && '>' !in s[1..|s| - 1]
  }

  /** The pattern of line 94, `/^<?\w[^>]*[^\/]$/`: the optional `<` either
   * starts the text or is absent. */
  predicate OpeningPattern(node: string)
  {
    OpeningBody(node) || (node != [] && node[0] == '<' && OpeningBody(node[1..]))
  }

  /** Line 94: the pattern, and the fragment does not start with `?`. */
  predicate IsOpening(node: string)
  {
    OpeningPattern(node) && !(node != [] && node[0] == '?')
  }

  /** The `?` test of line 94 never changes the outcome: a fragment starting
   * with `?` cannot match the pattern, whose first character is `<` or a word
   * character. */
  lemma QuestionMarkTestRedundant(node: string)
    ensures IsOpening(node) <==> OpeningPattern(node)
  {
  }

  /** No fragment is both closing and opening. */
  lemma ClosingIsNotOpening(node: string)
    ensures !(IsClosing(node) && IsOpening(node))
  {
  }

  /** What a fragment does to the indent. */
  datatype Kind = Closing | Opening | Other

  /** The two tests of the loop; they never both hold. */
  function KindOf(node: string): (k: Kind)
    ensures k == Closing <==> IsClosing(node)
    ensures k == Opening <==> IsOpening(node)
  {
    ClosingIsNotOpening(node);
    if IsClosing(node) then Closing else if IsOpening(node) then Opening else Other
  }

  function Kinds(nodes: seq<string>): (ks: seq<Kind>)
    ensures |ks| == |nodes|
    ensures forall i :: 0 <= i < |nodes| ==> ks[i] == KindOf(nodes[i])
  {
    seq(|nodes|, i requires 0 <= i < |nodes| => KindOf(nodes[i]))
  }

  /** The depth a fragment's line is written at: a closing fragment is written
   * one unit shallower, but never below zero, since `substring(2)` of an
   * indent shorter than two characters is empty (line 89). */
  function LineDepth(depth: nat, k: Kind): nat
  {
    if k == Closing then (if depth > 0 then depth - 1 else 0) else depth
  }

  /** The depth after a fragment: one unit deeper than its line after an
   * opening fragment (lines 94 to 97). */
  function NextDepth(depth: nat, k: Kind): nat
  {
    LineDepth(depth, k) + (if k == Opening then 1 else 0)
  }

  /** The depth after all of `ks`, starting at `depth`. */
  function FinalDepth(depth: nat, ks: seq<Kind>): nat
    decreases |ks|
  {
    if ks == [] then depth else FinalDepth(NextDepth(depth, ks[0]), ks[1..])
  }

  /** The depth each fragment is written at, starting at `depth`. */
  function LineDepths(depth: nat, ks: seq<Kind>): (ds: seq<nat>)
    ensures |ds| == |ks|
    decreases |ks|
  {
    if ks == [] then [] else [LineDepth(depth, ks[0])] + LineDepths(NextDepth(depth, ks[0]), ks[1..])
  }

  lemma ConsTail<T>(a: seq<T>, b: seq<T>)
    requires a != []
    ensures (a + b)[0] == a[0] && (a + b)[1..] == a[1..] + b
  {
  }

  lemma EmptyConcat<T>(b: seq<T>)
    ensures [] + b == b
  {
  }

  lemma ConsAssoc<T>(x: T, a: seq<T>, b: seq<T>)
    ensures [x] + (a + b) == ([x] + a) + b
  {
  }

  /** Running the depth over two runs of fragments ends where running it over
   * the second from where the first ended does. */
  lemma {:induction false} FinalDepthAppend(depth: nat, a: seq<Kind>, b: seq<Kind>)
    ensures FinalDepth(depth, a + b) == FinalDepth(FinalDepth(depth, a), b)
    decreases |a|
  {
    if a == [] {
      EmptyConcat(b);
    } else {
      ConsTail(a, b);
      FinalDepthAppend(NextDepth(depth, a[0]), a[1..], b);
    }
  }

  /** Running the depth over two runs of fragments is running it over the
   * first, then over the second from where the first ended. */
  lemma {:induction false} DepthsAppend(depth: nat, a: seq<Kind>, b: seq<Kind>)
    ensures FinalDepth(depth, a + b) == FinalDepth(FinalDepth(depth, a), b)
    ensures LineDepths(depth, a + b) == LineDepths(depth, a) + LineDepths(FinalDepth(depth, a), b)
    decreases |a|
  {
    FinalDepthAppend(depth, a, b);
    if a == [] {
      EmptyConcat(b);
      EmptyConcat(LineDepths(depth, b));
    } else {
      var next := NextDepth(depth, a[0]);
      ConsTail(a, b);
      DepthsAppend(next, a[1..], b);
      assert LineDepths(depth, a + b) == [LineDepth(depth, a[0])] + LineDepths(next, a[1..] + b);
      assert LineDepths(depth, a) == [LineDepth(depth, a[0])] + LineDepths(next, a[1..]);
      assert FinalDepth(depth, a) == FinalDepth(next, a[1..]);
      ConsAssoc(LineDepth(depth, a[0]), LineDepths(next, a[1..]), LineDepths(FinalDepth(next, a[1..]), b));
    }
  }

  lemma KindsSnoc(a: seq<string>, node: string)
    ensures Kinds(a + [node]) == Kinds(a) + [KindOf(node)]
  {
  }

  /** One line of line 92: the indent for `depth`, `<`, the fragment, `>`. */
  function LayoutLine(depth: nat, node: string): string
  {
    Spaces(2 * depth) + "<" + node + ">"
  }

  /** The lines written for `nodes`, starting at depth 0. */
  function Layout(nodes: seq<string>): (lines: seq<string>)
    ensures |lines| == |nodes|
  {
    var ds := LineDepths(0, Kinds(nodes));
    seq(|nodes|, k requires 0 <= k < |nodes| => LayoutLine(ds[k], nodes[k]))
  }

  /** The text the loop of lines 86 to 98 builds. */
  function Formatted(nodes: seq<string>): string
  {
    ConcatAll(Terminated(Layout(nodes)))
  }

  /** Adding a fragment adds its line, written at the depth the earlier
   * fragments leave. */
  lemma FormattedSnoc(a: seq<string>, node: string)
    ensures Formatted(a + [node]) == Formatted(a) + Spaces(2 * LineDepth(FinalDepth(0, Kinds(a)), KindOf(node))) + "<" + node + ">\n"
    ensures FinalDepth(0, Kinds(a + [node])) == NextDepth(FinalDepth(0, Kinds(a)), KindOf(node))
  {
    var d := FinalDepth(0, Kinds(a));
    var k := KindOf(node);
    KindsSnoc(a, node);
    DepthsAppend(0, Kinds(a), [k]);
    assert LineDepths(d, [k]) == [LineDepth(d, k)];
    var line := LayoutLine(LineDepth(d, k), node);
    LayoutSnoc(a, node, line);
    assert Terminated(Layout(a) + [line]) == Terminated(Layout(a)) + [line + "\n"];
    ConcatAllAppend(Terminated(Layout(a)), line + "\n");
  }

  lemma LayoutSnoc(a: seq<string>, node: string, line: string)
    requires LineDepths(0, Kinds(a + [node])) == LineDepths(0, Kinds(a)) + [LineDepth(FinalDepth(0, Kinds(a)), KindOf(node))]
    requires line == LayoutLine(LineDepth(FinalDepth(0, Kinds(a)), KindOf(node)), node)
    ensures Layout(a + [node]) == Layout(a) + [line]
  {
  }

  lemma SpacesDrop(k: nat)
    requires k >= 1
    ensures Spaces(2 * k)[2..] == Spaces(2 * (k - 1))
  {
  }

  lemma SpacesAdd(k: nat)
    ensures Spaces(2 * k) + "  " == Spaces(2 * (k + 1))
  {
  }

  /** `formatXml`: split, re-indent fragment by fragment, clean up. The result
   * is the clean-up of the lines the depth functions describe, and since that
   * text never starts with a newline, the clean-up only collapses runs of
   * newlines. */
  method FormatXml(xml: string) returns (result: string)
    ensures result == Cleanup(Formatted(Fragments(xml)))
    ensures result == CollapseNewlines(Formatted(Fragments(xml)))
  {
    var formatted := "";
    var indent := "";
    var tab := "  ";
    var nodes := Fragments(xml);
    for i := 0 to |nodes|
      invariant indent == Spaces(2 * FinalDepth(0, Kinds(nodes[..i])))
      invariant formatted == Formatted(nodes[..i])
    {
      var node := nodes[i];
      ghost var depth := FinalDepth(0, Kinds(nodes[..i]));
      if IsClosing(node) {
        if depth >= 1 {
          SpacesDrop(depth);
        }
        indent := if |indent| >= |tab| then indent[|tab|..] else "";
      }
      assert indent == Spaces(2 * LineDepth(depth, KindOf(node)));
      formatted := formatted + indent + "<" + node + ">\n";
      if IsOpening(node) {
        SpacesAdd(LineDepth(depth, KindOf(node)));
        indent := indent + tab;
      }
      assert nodes[..i + 1] == nodes[..i] + [node];
      FormattedSnoc(nodes[..i], node);
    }
    assert nodes[..|nodes|] == nodes;
    FormattedStart(nodes);
    CleanupIsCollapse(formatted);
    result := Cleanup(formatted);
  }

  // ---------------------------------------------------------------------
  // What the built text looks like

  lemma LayoutLineShape(depth: nat, node: string)
    ensures LayoutLine(depth, node) != []
    ensures LayoutLine(depth, node)[0] == if depth == 0 then '<' else ' '
    ensures LayoutLine(depth, node)[|LayoutLine(depth, node)| - 1] == '>'
    ensures '\n' !in node ==> '\n' !in LayoutLine(depth, node)
  {
  }

  /** The built text is empty or starts with `<`: the first fragment is written
   * at depth 0. */
  lemma FormattedStart(nodes: seq<string>)
    ensures Formatted(nodes) == [] || Formatted(nodes)[0] == '<'
  {
    if nodes != [] {
      var lines := Terminated(Layout(nodes));
      assert LineDepths(0, Kinds(nodes))[0] == 0;
      LayoutLineShape(0, nodes[0]);
      assert ConcatAll(lines) == lines[0] + ConcatAll(lines[1..]);
      assert lines[0] == Layout(nodes)[0] + "\n";
    }
  }

  /** Fragments without line breaks give one line each, in order, followed by
   * the empty piece after the final newline. */
  lemma FormattedLines(nodes: seq<string>)
    requires forall k :: 0 <= k < |nodes| ==> '\n' !in nodes[k]
    ensures Split(Formatted(nodes), '\n') == Layout(nodes) + [[]]
  {
    var lines := Layout(nodes);
    forall k | 0 <= k < |lines|
      ensures '\n' !in lines[k]
    {
      LayoutLineShape(LineDepths(0, Kinds(nodes))[k], nodes[k]);
    }
    SplitTerminatedLines(lines);
  }

  /** Non-empty lines without line breaks, each followed by a newline, never
   * put two newlines side by side, and their text does not start with one. */
  lemma {:induction false} TerminatedNoDouble(lines: seq<string>)
    requires forall k :: 0 <= k < |lines| ==> lines[k] != [] && '\n' !in lines[k]
    ensures NoDoubleNewline(ConcatAll(Terminated(lines)))
    ensures ConcatAll(Terminated(lines)) == [] || ConcatAll(Terminated(lines))[0] != '\n'
    decreases |lines|
  {
    if lines != [] {
      var l := lines[0];
      var rest := ConcatAll(Terminated(lines[1..]));
      TerminatedNoDouble(lines[1..]);
      assert Terminated(lines)[1..] == Terminated(lines[1..]);
      assert ConcatAll(Terminated(lines)) == (l + "\n") + rest;
      assert NoDoubleNewline(l + "\n") by {
        forall i | 0 <= i < |l + "\n"| - 1
          ensures (l + "\n")[i] != '\n'
        {
          assert (l + "\n")[i] == l[i];
        }
      }
      NoDoubleConcat(l + "\n", rest);
      assert (l + "\n")[0] == l[0];
    }
  }

  /** For fragments without line breaks the clean-up changes nothing, so
   * FormatXml returns the built text as it is. */
  lemma CleanupKeepsFormatted(nodes: seq<string>)
    requires forall k :: 0 <= k < |nodes| ==> '\n' !in nodes[k]
    ensures Cleanup(Formatted(nodes)) == Formatted(nodes)
  {
    var lines := Layout(nodes);
    forall k | 0 <= k < |lines|
      ensures lines[k] != [] && '\n' !in lines[k]
    {
      LayoutLineShape(LineDepths(0, Kinds(nodes))[k], nodes[k]);
    }
    TerminatedNoDouble(lines);
    CollapseFixed(Formatted(nodes));
    FormattedStart(nodes);
    CleanupIsCollapse(Formatted(nodes));
  }
}
