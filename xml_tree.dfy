/**
 * What `formatXml` (src/components/XmlViewer.tsx) does to a well-formed
 * document. The model assumes the serialized document has no whitespace
 * between tags. The serializer of lines 51 and 52 keeps whatever whitespace
 * the input had; the split of line 86 then drops whitespace standing alone
 * between two tags. Under that assumption the split of line 86 gives one
 * fragment per tag, the first fragment keeping the document's opening `<`
 * and the last its closing `>`. The running indent then puts every start and
 * end tag at its element's nesting depth, provided every element with
 * children has a name (with attributes) of at least two characters: the
 * opening test of line 94 needs two characters, so a one-character element
 * does not indent its children.
 */
module XmlTree {
  import opened Text
  import opened XmlSplit
  import opened XmlFormat
  import XmlCleanup
  import XmlLines

  /** An element: `<tag/>`, `<tag>text</name>` or `<tag>children</name>`,
   * where `tag` is the element name with its attributes. */
  datatype Element =
    | Empty(tag: string)
    | TextNode(tag: string, name: string, text: string)
    | Node(tag: string, name: string, children: seq<Element>)

  /** The serializer's output, with no whitespace between tags. */
  function Serialize(e: Element): string
    decreases e
  {
    match e
    case Empty(t) => "<" + t + "/>"
    case TextNode(t, n, x) => "<" + t + ">" + x + "</" + n + ">"
    case Node(t, n, cs) => "<" + t + ">" + SerializeAll(cs) + "</" + n + ">"
  }

  function SerializeAll(cs: seq<Element>): string
    decreases cs
  {
    if cs == [] then [] else Serialize(cs[0]) + SerializeAll(cs[1..])
  }

  /** Text that can stand for a tag or a name: it starts with a word character
   * and holds neither `<` nor `>`. */
  predicate TagText(t: string)
  {
    t != [] && IsWordChar(t[0]) && '<' !in t && '>' !in t
  }

  /** A start tag that does not close itself. */
  predicate OpenTag(t: string)
  {
    TagText(t) && t[|t| - 1] != '/'
  }

  /** Tags and names are tag text, and text content is not blank and holds no
   * `<` or `>` (the serializer escapes them). */
  predicate WellFormed(e: Element)
    decreases e
  {
    match e
    case Empty(t) => TagText(t)
    case TextNode(t, n, x) => OpenTag(t) && TagText(n) && '<' !in x && '>' !in x && !IsBlank(x)
    case Node(t, n, cs) => OpenTag(t) && TagText(n) && forall i :: 0 <= i < |cs| ==> WellFormed(cs[i])
  }

  /** Every element with children has a tag of at least two characters. */
  predicate LongTags(e: Element)
    decreases e
  {
    match e
    case Node(t, _, cs) => |t| >= 2 && forall i :: 0 <= i < |cs| ==> LongTags(cs[i])
    case _ => true
  }

  /** The fragments of an element: the text between its `>`/`<` boundaries. */
  function Frags(e: Element): (fs: seq<string>)
    ensures fs != []
    decreases e
  {
    match e
    case Empty(t) => [t + "/"]
    case TextNode(t, n, x) => [t + ">" + x + "</" + n]
    case Node(t, n, cs) => [t] + ChildFrags(cs) + ["/" + n]
  }

  function ChildFrags(cs: seq<Element>): (fs: seq<string>)
    ensures fs == [] <==> cs == []
    decreases cs
  {
    if cs == [] then [] else Frags(cs[0]) + ChildFrags(cs[1..])
  }

  /** The depth each line of an element should have: a leaf is one line at
   * `depth`; an element with children has its start and end tag at `depth`
   * and its children one level deeper. */
  function Depths(e: Element, depth: nat): (ds: seq<nat>)
    decreases e
  {
    match e
    case Node(_, _, cs) => [depth] + ChildDepths(cs, depth + 1) + [depth]
    case _ => [depth]
  }

  function ChildDepths(cs: seq<Element>, depth: nat): seq<nat>
    decreases cs
  {
    if cs == [] then [] else Depths(cs[0], depth) + ChildDepths(cs[1..], depth)
  }

  /** The first fragment keeps the document's `<` and the last its `>`. */
  function Attach(fs: seq<string>): (r: seq<string>)
    requires fs != []
    ensures |r| == |fs|
    ensures |fs| == 1 ==> r == ["<" + fs[0] + ">"]
    ensures |fs| >= 2 ==> r[0] == "<" + fs[0] && r[|fs| - 1] == fs[|fs| - 1] + ">"
    ensures forall i :: 0 < i < |fs| - 1 ==> r[i] == fs[i]
  {
    var a := ["<" + fs[0]] + fs[1..];
    a[..|a| - 1] + [a[|a| - 1] + ">"]
  }

  // ---------------------------------------------------------------------
  // How each fragment is classified

  lemma KindsAppend(a: seq<string>, b: seq<string>)
    ensures Kinds(a + b) == Kinds(a) + Kinds(b)
  {
  }

  lemma EmptyKind(t: string)
    requires TagText(t)
    ensures KindOf(t + "/") == Other
  {
    assert (t + "/")[0] == t[0];
  }

  lemma TextKind(t: string, x: string, n: string)
    requires TagText(t)
    ensures KindOf(t + ">" + x + "</" + n) == Other
  {
    var s := t + ">" + x + "</" + n;
    assert s[0] == t[0];
    assert s[1..|s| - 1][|t| - 1] == '>';
  }

  lemma OpenKind(t: string)
    requires OpenTag(t) && |t| >= 2
    ensures KindOf(t) == Opening
    ensures KindOf("<" + t) == Opening
  {
    assert ("<" + t)[1..] == t;
  }

  lemma CloseKind(n: string)
    requires TagText(n)
    ensures KindOf("/" + n) == Closing
    ensures KindOf("/" + n + ">") == Closing
  {
  }

  // ---------------------------------------------------------------------
  // The depths the loop gives

  /** The loop writes an element's lines at the depths Depths gives and
   * returns to the depth it started at. */
  lemma {:induction false} ElementDepths(e: Element, depth: nat)
    requires WellFormed(e) && LongTags(e)
    ensures FinalDepth(depth, Kinds(Frags(e))) == depth
    ensures LineDepths(depth, Kinds(Frags(e))) == Depths(e, depth)
    decreases e
  {
    match e
    case Empty(t) =>
      EmptyKind(t);
      assert Kinds(Frags(e)) == [Other];
    case TextNode(t, n, x) =>
      TextKind(t, x, n);
      assert Kinds(Frags(e)) == [Other];
    case Node(t, n, cs) =>
      ChildrenDepths(cs, depth + 1);
      NodeKinds(t, n, cs);
      NodeDepths(Kinds(ChildFrags(cs)), ChildDepths(cs, depth + 1), depth);
  }

  /** An element with children is an opening fragment, its children's
   * fragments, and a closing fragment. */
  lemma NodeKinds(t: string, n: string, cs: seq<Element>)
    requires OpenTag(t) && |t| >= 2 && TagText(n)
    ensures Kinds(Frags(Node(t, n, cs))) == [Opening] + Kinds(ChildFrags(cs)) + [Closing]
  {
    OpenKind(t);
    CloseKind(n);
    assert Frags(Node(t, n, cs)) == [t] + ChildFrags(cs) + ["/" + n];
    KindsAppend([t] + ChildFrags(cs), ["/" + n]);
    KindsAppend([t], ChildFrags(cs));
    assert Kinds([t]) == [Opening];
    assert Kinds(["/" + n]) == [Closing];
  }

  /** Between an opening and a closing fragment, a run that returns to the
   * depth it starts at is written one level deeper. */
  lemma NodeDepths(inner: seq<Kind>, ds: seq<nat>, depth: nat)
    requires FinalDepth(depth + 1, inner) == depth + 1
    requires LineDepths(depth + 1, inner) == ds
    ensures FinalDepth(depth, [Opening] + inner + [Closing]) == depth
    ensures LineDepths(depth, [Opening] + inner + [Closing]) == [depth] + ds + [depth]
  {
    var rest := inner + [Closing];
    ConsAssoc(Opening, inner, [Closing]);
    ConsTail([Opening], rest);
    ClosingAfter(depth);
    DepthsAppend(depth + 1, inner, [Closing]);
    assert LineDepths(depth + 1, rest) == ds + [depth];
    assert FinalDepth(depth + 1, rest) == depth;
    OpeningFirst(depth, rest);
    ConsAssoc(depth, ds, [depth]);
  }

  /** A closing fragment at depth `depth + 1` is written at `depth` and leaves it there. */
  lemma ClosingAfter(depth: nat)
    ensures LineDepths(depth + 1, [Closing]) == [depth]
    ensures FinalDepth(depth + 1, [Closing]) == depth
  {
    assert [Closing][1..] == [];
    assert [depth] + [] == [depth];
  }

  /** An opening fragment is written at the current depth and the rest one level deeper. */
  lemma OpeningFirst(depth: nat, rest: seq<Kind>)
    ensures LineDepths(depth, [Opening] + rest) == [depth] + LineDepths(depth + 1, rest)
    ensures FinalDepth(depth, [Opening] + rest) == FinalDepth(depth + 1, rest)
  {
    ConsTail([Opening], rest);
  }


  lemma {:induction false} ChildrenDepths(cs: seq<Element>, depth: nat)
    requires forall i :: 0 <= i < |cs| ==> WellFormed(cs[i]) && LongTags(cs[i])
    ensures FinalDepth(depth, Kinds(ChildFrags(cs))) == depth
    ensures LineDepths(depth, Kinds(ChildFrags(cs))) == ChildDepths(cs, depth)
    decreases cs
  {
    if cs != [] {
      ElementDepths(cs[0], depth);
      ChildrenDepths(cs[1..], depth);
      KindsAppend(Frags(cs[0]), ChildFrags(cs[1..]));
      DepthsAppend(depth, Kinds(Frags(cs[0])), Kinds(ChildFrags(cs[1..])));
    }
  }

  // ---------------------------------------------------------------------
  // The serialized text splits into the fragments

  /** The serialized element is its fragments joined with `><`, between the
   * outer `<` and `>`. */
  lemma {:induction false} SerializeJoin(e: Element)
    ensures Serialize(e) == "<" + Join(Frags(e), "><") + ">"
    decreases e
  {
    match e
    case Empty(t) =>
    case TextNode(t, n, x) => TextJoin(t, n, x);
    case Node(t, n, cs) =>
      if cs == [] {
        LeafNodeJoin(t, n);
      } else {
        SerializeAllJoin(cs);
        NodeJoin(t, n, cs);
      }
  }

  lemma TextJoin(t: string, n: string, x: string)
    ensures Serialize(TextNode(t, n, x)) == "<" + Join(Frags(TextNode(t, n, x)), "><") + ">"
  {
    assert Join([t + ">" + x + "</" + n], "><") == t + ">" + x + "</" + n;
  }

  lemma LeafNodeJoin(t: string, n: string)
    ensures Serialize(Node(t, n, [])) == "<" + Join(Frags(Node(t, n, [])), "><") + ">"
  {
    var close := "/" + n;
    assert Frags(Node(t, n, [])) == [t] + [close];
    JoinCons(t, [close], "><");
    assert Serialize(Node(t, n, [])) == "<" + t + ">" + "</" + n + ">";
  }

  lemma NodeJoin(t: string, n: string, cs: seq<Element>)
    requires cs != []
    requires SerializeAll(cs) == "<" + Join(ChildFrags(cs), "><") + ">"
    ensures Serialize(Node(t, n, cs)) == "<" + Join(Frags(Node(t, n, cs)), "><") + ">"
  {
    var close := "/" + n;
    var inner := ChildFrags(cs);
    assert Frags(Node(t, n, cs)) == [t] + (inner + [close]);
    JoinCons(t, inner + [close], "><");
    JoinConcat(inner, [close], "><");
  }

  lemma BracketedConcat(j0: string, j1: string)
    ensures "<" + j0 + ">" + ("<" + j1 + ">") == "<" + (j0 + "><" + j1) + ">"
  {
  }

  lemma {:induction false} SerializeAllJoin(cs: seq<Element>)
    requires cs != []
    ensures SerializeAll(cs) == "<" + Join(ChildFrags(cs), "><") + ">"
    decreases cs
  {
    SerializeJoin(cs[0]);
    var f0 := Frags(cs[0]);
    if cs[1..] == [] {
      assert SerializeAll(cs) == Serialize(cs[0]) + [];
      assert Serialize(cs[0]) + [] == Serialize(cs[0]);
      assert ChildFrags(cs) == f0 + [];
      assert f0 + [] == f0;
    } else {
      var f1 := ChildFrags(cs[1..]);
      SerializeAllJoin(cs[1..]);
      assert SerializeAll(cs) == Serialize(cs[0]) + SerializeAll(cs[1..]);
      assert ChildFrags(cs) == f0 + f1;
      JoinConcat(f0, f1, "><");
      BracketedConcat(Join(f0, "><"), Join(f1, "><"));
    }
  }

  /** The outer `<` and `>` go to the first and the last piece. */
  lemma AttachJoin(fs: seq<string>)
    requires fs != []
    ensures "<" + Join(fs, "><") + ">" == Join(Attach(fs), "><")
  {
    var a := ["<" + fs[0]] + fs[1..];
    JoinPrefixFirst("<", fs, "><");
    JoinSuffixLast(a, ">", "><");
  }

  /** A fragment that can stand anywhere in the document: with or without the
   * document's outer `<` and `>`, it holds no match of the split pattern. */
  predicate PieceOK(p: string)
  {
    NoSplitPoint(p) && NoSplitPoint("<" + p) && NoSplitPoint(p + ">") && NoSplitPoint("<" + p + ">")
  }

  predicate AllPiecesOK(fs: seq<string>)
  {
    forall i :: 0 <= i < |fs| ==> PieceOK(fs[i])
  }

  /** Text whose only `>` is its last character has no split point. */
  lemma GtOnlyLast(q: string)
    requires forall i :: 0 <= i < |q| - 1 ==> q[i] != '>'
    ensures NoSplitPoint(q)
  {
    forall i | 0 <= i < |q|
      ensures !SplitPointAt(q, i)
    {
      if i == |q| - 1 {
        assert q[i + 1..] == [];
      }
    }
  }

  lemma PlainPieceOK(p: string)
    requires '>' !in p
    ensures PieceOK(p)
  {
    GtOnlyLast(p);
    GtOnlyLast("<" + p);
    GtOnlyLast(p + ">");
    GtOnlyLast("<" + p + ">");
  }

  /** Text content that is not blank and holds no `<` does not start, after
   * blanks, with `<`. */
  lemma TextNotLt(x: string, w: string)
    requires !IsBlank(x) && '<' !in x
    ensures !StartsWithLt(TrimStart(x + w))
  {
    TrimStartAppend(x, w);
    TrimStartBlank(x);
    var r := TrimStart(x);
    assert r[0] == x[|x| - |r|];
  }

  /** The fragment of a text element: the `>` after its tag is followed by
   * the text, which does not start with `<`; its only other `>` can be the
   * document's last character. */
  lemma TextPieceNoSplit(pre: string, t: string, x: string, n: string, post: string)
    requires pre == [] || pre == "<"
    requires post == [] || post == ">"
    requires '>' !in t && '>' !in n
    requires !IsBlank(x) && '<' !in x && '>' !in x
    ensures NoSplitPoint(pre + t + ">" + x + "</" + n + post)
  {
    var u := pre + t;
    var w := "</" + n + post;
    var p := pre + t + ">" + x + "</" + n + post;
    TextPieceShape(pre, t, x, n, post);
    forall i | 0 <= i < |p|
      ensures !SplitPointAt(p, i)
    {
      if i < |u| {
        assert p[i] == u[i];
      } else if i == |u| {
        assert p[i + 1..] == x + w;
        TextNotLt(x, w);
      } else if i < |u| + 1 + |x| {
        assert p[i] == x[i - |u| - 1];
      } else if i < |p| - 1 {
        assert p[i] == w[i - |u| - 1 - |x|];
      } else {
        assert p[i + 1..] == [];
      }
    }
  }

  lemma TextPieceShape(pre: string, t: string, x: string, n: string, post: string)
    requires pre == [] || pre == "<"
    requires post == [] || post == ">"
    requires '>' !in t && '>' !in n
    ensures pre + t + ">" + x + "</" + n + post == (pre + t) + ">" + x + ("</" + n + post)
    ensures '>' !in pre + t
    ensures forall i :: 0 <= i < |"</" + n + post| - 1 ==> ("</" + n + post)[i] != '>'
  {
  }

  lemma TextPieceOK(t: string, x: string, n: string)
    requires '>' !in t && '>' !in n
    requires !IsBlank(x) && '<' !in x && '>' !in x
    ensures PieceOK(t + ">" + x + "</" + n)
  {
    var p := t + ">" + x + "</" + n;
    TextPieceNoSplit([], t, x, n, []);
    TextPieceNoSplit("<", t, x, n, []);
    TextPieceNoSplit([], t, x, n, ">");
    TextPieceNoSplit("<", t, x, n, ">");
    assert [] + t + ">" + x + "</" + n + [] == p;
    assert "<" + t + ">" + x + "</" + n + [] == "<" + p;
    assert [] + t + ">" + x + "</" + n + ">" == p + ">";
    assert "<" + t + ">" + x + "</" + n + ">" == "<" + p + ">";
  }

  lemma AllPiecesConcat(a: seq<string>, b: seq<string>)
    requires AllPiecesOK(a) && AllPiecesOK(b)
    ensures AllPiecesOK(a + b)
  {
    forall i | 0 <= i < |a + b|
      ensures PieceOK((a + b)[i])
    {
      if i < |a| {
        assert (a + b)[i] == a[i];
      } else {
        assert (a + b)[i] == b[i - |a|];
      }
    }
  }

  /** Every fragment of a well-formed element can stand anywhere. */
  lemma {:induction false} ElementPieces(e: Element)
    requires WellFormed(e)
    ensures AllPiecesOK(Frags(e))
    decreases e
  {
    match e
    case Empty(t) =>
      PlainPieceOK(t + "/");
    case TextNode(t, n, x) =>
      TextPieceOK(t, x, n);
    case Node(t, n, cs) =>
      PlainPieceOK(t);
      PlainPieceOK("/" + n);
      ChildrenPieces(cs);
      AllPiecesConcat([t], ChildFrags(cs));
      AllPiecesConcat([t] + ChildFrags(cs), ["/" + n]);
  }

  lemma {:induction false} ChildrenPieces(cs: seq<Element>)
    requires forall i :: 0 <= i < |cs| ==> WellFormed(cs[i])
    ensures AllPiecesOK(ChildFrags(cs))
    decreases cs
  {
    if cs != [] {
      ElementPieces(cs[0]);
      ChildrenPieces(cs[1..]);
      AllPiecesConcat(Frags(cs[0]), ChildFrags(cs[1..]));
    }
  }

  lemma AttachedNoSplit(fs: seq<string>)
    requires fs != [] && AllPiecesOK(fs)
    ensures forall i :: 0 <= i < |fs| ==> NoSplitPoint(Attach(fs)[i])
  {
    assert PieceOK(fs[0]) && PieceOK(fs[|fs| - 1]);
  }

  /** The split of line 86 cuts a serialized well-formed element into its
   * fragments, the first keeping the document's `<` and the last its `>`. */
  lemma DocumentFragments(e: Element)
    requires WellFormed(e)
    ensures Fragments(Serialize(e)) == Attach(Frags(e))
  {
    SerializeJoin(e);
    AttachJoin(Frags(e));
    ElementPieces(e);
    AttachedNoSplit(Frags(e));
    FragmentsOfJoin(Attach(Frags(e)));
  }

  // ---------------------------------------------------------------------
  // The whole document

  /** Attaching the outer `<` and `>` does not change how the fragments of an
   * element with children are classified. */
  lemma AttachKinds(e: Element)
    requires WellFormed(e) && LongTags(e) && e.Node?
    ensures Kinds(Attach(Frags(e))) == Kinds(Frags(e))
  {
    var fs := Frags(e);
    OpenKind(e.tag);
    CloseKind(e.name);
    assert fs[0] == e.tag && fs[|fs| - 1] == "/" + e.name;
  }

  /** The formatter writes every line of a serialized well-formed document at
   * its element's nesting depth, when every element with children has a tag of
   * at least two characters. */
  lemma DocumentDepths(e: Element)
    requires WellFormed(e) && LongTags(e)
    ensures LineDepths(0, Kinds(Fragments(Serialize(e)))) == Depths(e, 0)
  {
    DocumentFragments(e);
    if e.Node? {
      AttachKinds(e);
      ElementDepths(e, 0);
    } else {
      var k := Kinds(Attach(Frags(e)))[0];
      assert Kinds(Attach(Frags(e))) == [k];
    }
  }

  /** With no line break in the serialized document, the viewer shows one row
   * per line, indented by its element's nesting depth, and one empty row at
   * the end. */
  lemma DocumentRows(e: Element)
    requires WellFormed(e) && LongTags(e) && '\n' !in Serialize(e)
    ensures var ds := Depths(e, 0);
      var views := XmlLines.ViewerLines(XmlCleanup.Cleanup(Formatted(Fragments(Serialize(e)))));
      |views| == |ds| + 1 &&
      forall k :: 0 <= k < |ds| ==> views[k].lineNumber == k + 1 && views[k].indentation == ds[k] as real
  {
    var nodes := Fragments(Serialize(e));
    DocumentDepths(e);
    FragmentsExclude(Serialize(e), '\n');
    XmlLines.RowsOfFormatted(nodes);
  }

  /** The limitation the two-character condition avoids: an element with
   * children whose tag is a single character is not taken for an opening tag,
   * so its children are written at its own depth instead of one deeper (and
   * its end tag, clamped at zero, stays there too). */
  lemma OneLetterTagNotIndented(t: string, n: string, cs: seq<Element>)
    requires WellFormed(Node(t, n, cs)) && |t| == 1
    requires forall i :: 0 <= i < |cs| ==> LongTags(cs[i])
    ensures Depths(Node(t, n, cs), 0) == [0] + ChildDepths(cs, 1) + [0]
    ensures LineDepths(0, Kinds(Fragments(Serialize(Node(t, n, cs))))) == [0] + ChildDepths(cs, 0) + [0]
  {
    DocumentFragments(Node(t, n, cs));
    OneLetterKinds(t, n, cs);
    ChildrenDepths(cs, 0);
    PlainWrap(Kinds(ChildFrags(cs)));
  }

  /** A fragment that changes nothing, a run that returns to depth 0, and a
   * closing fragment are all written at depth 0. */
  lemma PlainWrap(inner: seq<Kind>)
    requires FinalDepth(0, inner) == 0
    ensures LineDepths(0, [Other] + inner + [Closing]) == [0] + LineDepths(0, inner) + [0]
  {
    DepthsAppend(0, inner, [Closing]);
    ConsTail([Other], inner + [Closing]);
    assert ([Other] + inner + [Closing])[1..] == inner + [Closing];
  }

  lemma OneLetterStart(t: string)
    requires |t| == 1
    ensures KindOf("<" + t) == Other
  {
    assert ("<" + t)[1..] == t;
  }

  lemma OneLetterKinds(t: string, n: string, cs: seq<Element>)
    requires WellFormed(Node(t, n, cs)) && |t| == 1
    ensures Kinds(Attach(Frags(Node(t, n, cs)))) == [Other] + Kinds(ChildFrags(cs)) + [Closing]
  {
    var fs := Frags(Node(t, n, cs));
    var inner := ChildFrags(cs);
    assert fs == [t] + inner + ["/" + n];
    var r := Attach(fs);
    var target := [Other] + Kinds(inner) + [Closing];
    assert |r| == |target|;
    OneLetterStart(t);
    CloseKind(n);
    forall i | 0 <= i < |r|
      ensures Kinds(r)[i] == target[i]
    {
      if i == 0 {
        assert r[0] == "<" + t;
      } else if i == |r| - 1 {
        assert r[i] == "/" + n + ">";
      } else {
        assert r[i] == fs[i] == inner[i - 1];
      }
    }
  }

  /** The first line of a formatted document with children repeats the `<` of
   * its start tag and the last line repeats the `>` of its end tag, since
   * those two characters stay in the first and last fragments. */
  lemma DoubledOuterBrackets(e: Element)
    requires WellFormed(e) && e.Node?
    ensures var lines := Layout(Fragments(Serialize(e)));
      lines[0] == "<<" + e.tag + ">" &&
      lines[|lines| - 1] == Spaces(2 * LineDepths(0, Kinds(Fragments(Serialize(e))))[|lines| - 1]) + "</" + e.name + ">>"
  {
    DocumentFragments(e);
    var fs := Frags(e);
    var nodes := Attach(fs);
    assert fs[0] == e.tag && fs[|fs| - 1] == "/" + e.name;
    var last := |nodes| - 1;
    var d := LineDepths(0, Kinds(nodes))[last];
    assert LineDepths(0, Kinds(nodes))[0] == 0;
    OuterLines(e.tag, e.name, d);
  }

  lemma OuterLines(t: string, n: string, d: nat)
    ensures LayoutLine(0, "<" + t) == "<<" + t + ">"
    ensures LayoutLine(d, "/" + n + ">") == Spaces(2 * d) + "</" + n + ">>"
  {
    assert Spaces(0) == [];
  }
}
