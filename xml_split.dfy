/**
 * The split at the head of `formatXml` (src/components/XmlViewer.tsx, line 86):
 * `xml.split(/>\s*</)` cuts the serialized document at every `>` that is
 * followed, after optional whitespace, by `<`, and drops the matched text.
 */
module XmlSplit {
  import opened Text

  /** The length of the match of `>\s*<` at the start of `s`, or 0 when the
   * pattern does not match there. */
  function SeparatorAt(s: string): (n: nat)
    ensures n <= |s|
  {
    if s != [] && s[0] == '>' then
      var r := TrimStart(s[1..]);
      if r != [] && r[0] == '<' then |s| - |r| + 1 else 0
    else 0
  }

  /** A match is a `>`, a blank run and a `<`. */
  lemma SeparatorSound(s: string)
    requires SeparatorAt(s) > 0
    ensures var n := SeparatorAt(s);
      2 <= n && s[0] == '>' && s[n - 1] == '<' && IsBlank(s[1..n - 1])
  {
    var r := TrimStart(s[1..]);
    assert s[1..][..|s| - 1 - |r|] == s[1..|s| - |r|];
  }

  /** Every `>`, blank run and `<` at the start of `s` is the match, so a zero
   * from SeparatorAt means that the pattern does not match there. */
  lemma SeparatorComplete(s: string, j: nat)
    requires 1 <= j < |s| && s[0] == '>' && s[j] == '<' && IsBlank(s[1..j])
    ensures SeparatorAt(s) == j + 1
  {
    assert s[1..] == s[1..j] + s[j..];
    TrimStartAppend(s[1..j], s[j..]);
  }

  /** `s.split(/>\s*</)`: the text between consecutive matches, found left to
   * right without overlap; the empty string gives one empty fragment. */
  function Fragments(s: string): (r: seq<string>)
    ensures |r| >= 1
    decreases |s|
  {
    if s == [] then [[]]
    else
      var n := SeparatorAt(s);
      if n > 0 then [[]] + Fragments(s[n..])
      else
        var rest := Fragments(s[1..]);
        [[s[0]] + rest[0]] + rest[1..]
  }

  /** The `>` at index `i` of `p` is followed inside `p` by a blank run and a `<`. */
  predicate SplitPointAt(p: string, i: nat)
    requires i < |p|
  {
    p[i] == '>' && StartsWithLt(TrimStart(p[i + 1..]))
  }

  /** `p` holds no match of `>\s*<`. */
  predicate NoSplitPoint(p: string)
  {
    forall i :: 0 <= i < |p| ==> !SplitPointAt(p, i)
  }

  predicate StartsWithLt(s: string)
  {
    s != [] && s[0] == '<'
  }

  lemma NoSplitPointTail(p: string)
    requires p != [] && NoSplitPoint(p)
    ensures NoSplitPoint(p[1..])
  {
    forall i | 0 <= i < |p| - 1
      ensures !SplitPointAt(p[1..], i)
    {
      assert !SplitPointAt(p, i + 1);
      assert p[1..][i + 1..] == p[i + 2..];
    }
  }

  /** The first character of a piece with no split point, followed by more
   * text that does not start with `<` after blanks, is not a match. */
  lemma NoSeparatorAtPiece(p: string, t: string)
    requires p != [] && NoSplitPoint(p)
    requires !StartsWithLt(TrimStart(t))
    ensures SeparatorAt(p + t) == 0
  {
    assert (p + t)[0] == p[0];
    if p[0] == '>' {
      assert !SplitPointAt(p, 0);
      NoLtAfterConcat(p[1..], t);
      TailOfConcat(p, t);
    }
  }

  lemma NoLtAfterConcat(x: string, t: string)
    requires !StartsWithLt(TrimStart(x)) && !StartsWithLt(TrimStart(t))
    ensures !StartsWithLt(TrimStart(x + t))
  {
    TrimStartAppend(x, t);
  }

  lemma TailOfConcat(p: string, t: string)
    requires p != []
    ensures (p + t)[1..] == p[1..] + t
    ensures [p[0]] + p[1..] == p
  {
  }

  lemma ConcatEmpty(p: string)
    ensures p + [] == p && [] + p == p
  {
  }

  lemma ConcatAssoc(a: string, b: string, c: string)
    ensures a + b + c == a + (b + c)
  {
  }

  lemma GapMatch(t: string)
    ensures SeparatorAt("><" + t) == 2 && ("><" + t)[2..] == t
  {
    assert ("><" + t)[1..] == "<" + t;
  }

  lemma NoBlankBeforeGap(t: string)
    ensures !StartsWithLt(TrimStart("><" + t))
  {
  }

  lemma NoBlankAtEnd()
    ensures !StartsWithLt(TrimStart([]))
  {
  }

  lemma FragmentsAtMatch(s: string)
    requires SeparatorAt(s) > 0
    ensures Fragments(s) == [[]] + Fragments(s[SeparatorAt(s)..])
  {
  }

  lemma FragmentsNoMatch(s: string)
    requires s != [] && SeparatorAt(s) == 0
    ensures Fragments(s) == [[s[0]] + Fragments(s[1..])[0]] + Fragments(s[1..])[1..]
  {
  }

  /** A piece with no split point followed by `><` is cut off whole. */
  lemma {:induction false} PieceThen(p: string, t: string)
    requires NoSplitPoint(p)
    ensures Fragments(p + ("><" + t)) == [p] + Fragments(t)
    decreases |p|
  {
    var g := "><" + t;
    if p == [] {
      ConcatEmpty(g);
      GapMatch(t);
      FragmentsAtMatch(g);
    } else {
      NoBlankBeforeGap(t);
      NoSeparatorAtPiece(p, g);
      FragmentsNoMatch(p + g);
      TailOfConcat(p, g);
      NoSplitPointTail(p);
      PieceThen(p[1..], t);
    }
  }

  /** A piece with no split point is a single fragment. */
  lemma {:induction false} PieceLast(p: string)
    requires NoSplitPoint(p)
    ensures Fragments(p) == [p]
    decreases |p|
  {
    if p != [] {
      NoBlankAtEnd();
      NoSeparatorAtPiece(p, []);
      ConcatEmpty(p);
      FragmentsNoMatch(p);
      NoSplitPointTail(p);
      PieceLast(p[1..]);
      TailOfConcat(p, []);
    }
  }

  /** Splitting undoes joining with `><`: pieces with no split point of their
   * own, joined with `><`, come back one per fragment, in order. */
  lemma {:induction false} FragmentsOfJoin(ps: seq<string>)
    requires |ps| >= 1
    requires forall i :: 0 <= i < |ps| ==> NoSplitPoint(ps[i])
    ensures Fragments(Join(ps, "><")) == ps
    decreases |ps|
  {
    if |ps| == 1 {
      PieceLast(ps[0]);
    } else {
      FragmentsOfJoin(ps[1..]);
      PieceThen(ps[0], Join(ps[1..], "><"));
      ConcatAssoc(ps[0], "><", Join(ps[1..], "><"));
      assert [ps[0]] + ps[1..] == ps;
    }
  }

  /** A character the text lacks is in none of its fragments. */
  lemma {:induction false} FragmentsExclude(s: string, c: char)
    requires c !in s
    ensures forall i :: 0 <= i < |Fragments(s)| ==> c !in Fragments(s)[i]
    decreases |s|
  {
    if s != [] {
      var n := SeparatorAt(s);
      if n > 0 {
        FragmentsAtMatch(s);
        FragmentsExclude(s[n..], c);
      } else {
        FragmentsNoMatch(s);
        FragmentsExclude(s[1..], c);
        assert c !in Fragments(s[1..])[0];
      }
    }
  }
}
