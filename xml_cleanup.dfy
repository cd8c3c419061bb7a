/**
 * The clean-up chain at the end of `formatXml` (src/components/XmlViewer.tsx):
 * escape `&`, `<` and `>`; three regular-expression replacements; collapse
 * runs of newlines; undo the escaping with three split/join passes. Escaping
 * first removes every `<`, which leaves the two replacements that look for
 * `<` nothing to match, so the chain amounts to collapsing newlines.
 */
module XmlCleanup {

  predicate StartsWith(s: string, prefix: string)
  {
    |prefix| <= |s| && s[..|prefix|] == prefix
  }

  /** `.replace(/c/g, rep)` for a single character `c`. */
  function ReplaceChar(s: string, c: char, rep: string): (r: string)
    ensures c !in rep ==> c !in r
    decreases |s|
  {
    if s == [] then []
    else (if s[0] == c then rep else [s[0]]) + ReplaceChar(s[1..], c, rep)
  }

  /** `.split(pat).join(rep)`: every occurrence of `pat`, found left to right
   * without overlap, replaced by `rep`. */
  function ReplaceAll(s: string, pat: string, rep: string): string
    requires pat != []
    decreases |s|
  {
    if s == [] then []
    else if StartsWith(s, pat) then rep + ReplaceAll(s[|pat|..], pat, rep)
    else [s[0]] + ReplaceAll(s[1..], pat, rep)
  }

  /** Lines 102 to 104, one replacement after another. */
  function Escape(s: string): string
  {
    ReplaceChar(ReplaceChar(ReplaceChar(s, '&', "&amp;"), '<', "&lt;"), '>', "&gt;")
  }

  /** `.replace(/\n<([^\/])/g, '\n$1')`: a newline, `<` and a character other
   * than `/` lose the `<`. */
  function DropLtAfterNewline(s: string): string
    decreases |s|
  {
    if |s| >= 3 && s[0] == '\n' && s[1] == '<' && s[2] != '/' then [s[0], s[2]] + DropLtAfterNewline(s[3..])
    else if s == [] then []
    else [s[0]] + DropLtAfterNewline(s[1..])
  }

  /** `.replace(/^\n/g, '')`: without the `m` flag `^` matches only at the
   * start, so at most one newline goes. */
  function DropLeadingNewline(s: string): string
  {
    if s != [] && s[0] == '\n' then s[1..] else s
  }

  /** Exactly one leading newline goes: of two, the second stays; text that
   * does not start with a newline is kept whole. */
  lemma DropLeadingNewlineOnce(t: string)
    ensures DropLeadingNewline("\n\n" + t) == "\n" + t
    ensures t == [] || t[0] != '\n' ==> DropLeadingNewline(t) == t
  {
    assert ("\n\n" + t)[1..] == "\n" + t;
  }

  /** `s` without its leading run of newlines. */
  function DropNewlines(s: string): (r: string)
    ensures |r| <= |s| && r == s[|s| - |r|..]
    ensures r == [] || r[0] != '\n'
    ensures forall i :: 0 <= i < |s| - |r| ==> s[i] == '\n'
    decreases |s|
  {
    if s != [] && s[0] == '\n' then DropNewlines(s[1..]) else s
  }

  /** No two newlines side by side. */
  predicate NoDoubleNewline(s: string)
  {
    forall i :: 0 <= i < |s| - 1 ==> !(s[i] == '\n' && s[i + 1] == '\n')
  }

  /** Two texts without double newlines make one when the first does not end
   * with a newline that the second starts with. */
  lemma NoDoubleConcat(x: string, y: string)
    requires NoDoubleNewline(x) && NoDoubleNewline(y)
    requires x == [] || y == [] || x[|x| - 1] != '\n' || y[0] != '\n'
    ensures NoDoubleNewline(x + y)
  {
    var s := x + y;
    forall i | 0 <= i < |s| - 1
      ensures !(s[i] == '\n' && s[i + 1] == '\n')
    {
      if i + 1 < |x| {
        assert s[i] == x[i] && s[i + 1] == x[i + 1];
      } else if i + 1 == |x| {
        assert s[i] == x[|x| - 1] && s[i + 1] == y[0];
      } else {
        assert s[i] == y[i - |x|] && s[i + 1] == y[i - |x| + 1];
      }
    }
  }

  /** `.replace(/\n{2,}/g, '\n')`: every run of newlines becomes a single one
   * (a run of one is left as it is). The result starts with the same character
   * and has no two newlines side by side. */
  function CollapseNewlines(s: string): (r: string)
    ensures r == [] <==> s == []
    ensures r != [] ==> r[0] == s[0]
    ensures NoDoubleNewline(r)
    decreases |s|
  {
    if s == [] then []
    else if s[0] == '\n' then "\n" + CollapseNewlines(DropNewlines(s))
    else [s[0]] + CollapseNewlines(s[1..])
  }

  /** Lines 109 to 111. */
  function Unescape(s: string): string
  {
    ReplaceAll(ReplaceAll(ReplaceAll(s, "&lt;", "<"), "&gt;", ">"), "&amp;", "&")
  }

  /** The whole chain, lines 101 to 111. */
  function Cleanup(formatted: string): string
  {
    var escaped := Escape(formatted);
    var closed := ReplaceAll(escaped, "\n</", "</");
    var joined := DropLtAfterNewline(closed);
    var trimmed := DropLeadingNewline(joined);
    Unescape(CollapseNewlines(trimmed))
  }

  // ---------------------------------------------------------------------
  // Escaping in one pass

  function EscapeChar(c: char): string
  {
    if c == '&' then "&amp;" else if c == '<' then "&lt;" else if c == '>' then "&gt;" else [c]
  }

  /** Each character replaced by its entity, in a single pass. */
  function EscapeChars(s: string): (r: string)
    decreases |s|
  {
    if s == [] then [] else EscapeChar(s[0]) + EscapeChars(s[1..])
  }

  /** Escaping leaves no `<` and no `>`, and keeps exactly the newlines. */
  lemma {:induction false} EscapeCharsChars(s: string)
    ensures '<' !in EscapeChars(s) && '>' !in EscapeChars(s)
    ensures '\n' in EscapeChars(s) <==> '\n' in s
    decreases |s|
  {
    if s != [] {
      EscapeCharsChars(s[1..]);
      assert s == [s[0]] + s[1..];
      assert '\n' in EscapeChar(s[0]) <==> s[0] == '\n';
    }
  }

  lemma {:induction false} ReplaceCharAppend(a: string, b: string, c: char, rep: string)
    ensures ReplaceChar(a + b, c, rep) == ReplaceChar(a, c, rep) + ReplaceChar(b, c, rep)
    decreases |a|
  {
    if a == [] {
      assert a + b == b;
    } else {
      assert (a + b)[1..] == a[1..] + b;
      ReplaceCharAppend(a[1..], b, c, rep);
    }
  }

  lemma {:induction false} ReplaceCharAbsent(s: string, c: char, rep: string)
    requires c !in s
    ensures ReplaceChar(s, c, rep) == s
    decreases |s|
  {
    if s != [] {
      ReplaceCharAbsent(s[1..], c, rep);
      assert [s[0]] + s[1..] == s;
    }
  }

  lemma EscapeAppend(a: string, b: string)
    ensures Escape(a + b) == Escape(a) + Escape(b)
  {
    var a1, b1 := ReplaceChar(a, '&', "&amp;"), ReplaceChar(b, '&', "&amp;");
    ReplaceCharAppend(a, b, '&', "&amp;");
    var a2, b2 := ReplaceChar(a1, '<', "&lt;"), ReplaceChar(b1, '<', "&lt;");
    ReplaceCharAppend(a1, b1, '<', "&lt;");
    ReplaceCharAppend(a2, b2, '>', "&gt;");
  }

  lemma ReplaceCharOne(c: char, x: char, rep: string)
    ensures ReplaceChar([c], x, rep) == if c == x then rep else [c]
  {
    assert [c][1..] == [];
    var piece := if c == x then rep else [c];
    assert piece + [] == piece;
  }

  lemma EscapeOne(c: char)
    ensures Escape([c]) == EscapeChar(c)
  {
    var s1 := ReplaceChar([c], '&', "&amp;");
    ReplaceCharOne(c, '&', "&amp;");
    if c == '&' {
      assert s1 == "&amp;";
      ReplaceCharAbsent("&amp;", '<', "&lt;");
      ReplaceCharAbsent("&amp;", '>', "&gt;");
    } else {
      assert s1 == [c];
      var s2 := ReplaceChar([c], '<', "&lt;");
      ReplaceCharOne(c, '<', "&lt;");
      if c == '<' {
        assert s2 == "&lt;";
        ReplaceCharAbsent("&lt;", '>', "&gt;");
      } else {
        assert s2 == [c];
        ReplaceCharOne(c, '>', "&gt;");
      }
    }
  }

  /** The three replacements of lines 102 to 104 escape each character once:
   * the `&` pass runs first, so the `&` that the later passes write is not
   * escaped again. */
  lemma {:induction false} EscapeIsSinglePass(s: string)
    ensures Escape(s) == EscapeChars(s)
    decreases |s|
  {
    if s != [] {
      EscapeIsSinglePass(s[1..]);
      EscapeAppend([s[0]], s[1..]);
      EscapeOne(s[0]);
      assert [s[0]] + s[1..] == s;
    }
  }

  /** After escaping there is no `<` left. */
  lemma EscapeRemovesLt(s: string)
    ensures '<' !in Escape(s) && '>' !in Escape(s)
    ensures '\n' in Escape(s) <==> '\n' in s
  {
    EscapeIsSinglePass(s);
    EscapeCharsChars(s);
  }

  // ---------------------------------------------------------------------
  // Unescaping undoes escaping

  lemma {:induction false} ReplaceAllPass(p: string, t: string, pat: string, rep: string)
    requires pat != [] && pat[0] !in p
    ensures ReplaceAll(p + t, pat, rep) == p + ReplaceAll(t, pat, rep)
    decreases |p|
  {
    if p == [] {
      assert p + t == t;
    } else {
      assert (p + t)[1..] == p[1..] + t;
      assert (p + t)[0] == p[0] != pat[0];
      ReplaceAllPass(p[1..], t, pat, rep);
      assert [p[0]] + p[1..] == p;
    }
  }

  lemma ReplaceAllHit(t: string, pat: string, rep: string)
    requires pat != []
    ensures ReplaceAll(pat + t, pat, rep) == rep + ReplaceAll(t, pat, rep)
  {
    assert (pat + t)[..|pat|] == pat;
    assert (pat + t)[|pat|..] == t;
  }

  /** An entity that starts like `pat` but differs at its second character is
   * copied through. */
  lemma ReplaceAllMiss(p: string, t: string, pat: string, rep: string)
    requires |pat| >= 2 && |p| >= 2 && p[0] == pat[0] && p[1] != pat[1] && pat[0] !in p[1..]
    ensures ReplaceAll(p + t, pat, rep) == p + ReplaceAll(t, pat, rep)
  {
    assert (p + t)[1] == p[1] != pat[1];
    assert (p + t)[1..] == p[1..] + t;
    ReplaceAllPass(p[1..], t, pat, rep);
    assert [p[0]] + p[1..] == p;
  }

  function EscapeAmpGt(s: string): string
    decreases |s|
  {
    if s == [] then [] else (if s[0] == '&' then "&amp;" else if s[0] == '>' then "&gt;" else [s[0]]) + EscapeAmpGt(s[1..])
  }

  function EscapeAmp(s: string): string
    decreases |s|
  {
    if s == [] then [] else (if s[0] == '&' then "&amp;" else [s[0]]) + EscapeAmp(s[1..])
  }

  lemma {:induction false} UnescapeLt(s: string)
    ensures ReplaceAll(EscapeChars(s), "&lt;", "<") == EscapeAmpGt(s)
    decreases |s|
  {
    if s != [] {
      UnescapeLt(s[1..]);
      var t := EscapeChars(s[1..]);
      var c := s[0];
      if c == '&' {
        ReplaceAllMiss("&amp;", t, "&lt;", "<");
      } else if c == '<' {
        ReplaceAllHit(t, "&lt;", "<");
      } else if c == '>' {
        ReplaceAllMiss("&gt;", t, "&lt;", "<");
      } else {
        ReplaceAllPass([c], t, "&lt;", "<");
      }
    }
  }

  lemma {:induction false} UnescapeGt(s: string)
    ensures ReplaceAll(EscapeAmpGt(s), "&gt;", ">") == EscapeAmp(s)
    decreases |s|
  {
    if s != [] {
      UnescapeGt(s[1..]);
      var t := EscapeAmpGt(s[1..]);
      var c := s[0];
      if c == '&' {
        ReplaceAllMiss("&amp;", t, "&gt;", ">");
      } else if c == '>' {
        ReplaceAllHit(t, "&gt;", ">");
      } else {
        ReplaceAllPass([c], t, "&gt;", ">");
      }
    }
  }

  lemma {:induction false} UnescapeAmp(s: string)
    ensures ReplaceAll(EscapeAmp(s), "&amp;", "&") == s
    decreases |s|
  {
    if s != [] {
      UnescapeAmp(s[1..]);
      var t := EscapeAmp(s[1..]);
      var c := s[0];
      if c == '&' {
        ReplaceAllHit(t, "&amp;", "&");
      } else {
        ReplaceAllPass([c], t, "&amp;", "&");
      }
      assert [c] + s[1..] == s;
    }
  }

  /** The unescaping of lines 109 to 111 undoes the escaping of lines 102 to
   * 104, whatever the text. */
  lemma UnescapeEscape(s: string)
    ensures Unescape(Escape(s)) == s
  {
    EscapeIsSinglePass(s);
    UnescapeLt(s);
    UnescapeGt(s);
    UnescapeAmp(s);
  }

  // ---------------------------------------------------------------------
  // The clean-up chain is newline collapsing

  /** A pattern holding a character the text lacks is never found. */
  lemma {:induction false} ReplaceAllAbsent(s: string, pat: string, rep: string, j: nat)
    requires j < |pat| && pat[j] !in s
    ensures ReplaceAll(s, pat, rep) == s
    decreases |s|
  {
    if s != [] {
      assert !StartsWith(s, pat) by {
        if |pat| <= |s| {
          assert s[..|pat|][j] == s[j];
        }
      }
      ReplaceAllAbsent(s[1..], pat, rep, j);
      assert [s[0]] + s[1..] == s;
    }
  }

  lemma {:induction false} DropLtAbsent(s: string)
    requires '<' !in s
    ensures DropLtAfterNewline(s) == s
    decreases |s|
  {
    if s != [] {
      assert |s| >= 2 ==> s[1] != '<';
      DropLtAbsent(s[1..]);
      assert [s[0]] + s[1..] == s;
    }
  }

  lemma EscapeCharStart(c: char)
    ensures EscapeChar(c) != [] && EscapeChar(c)[0] != '\n' <==> c != '\n'
    ensures c != '\n' ==> '\n' !in EscapeChar(c)
  {
  }

  /** Collapsing text that has no newline in its first part leaves that part alone. */
  lemma {:induction false} CollapsePass(p: string, t: string)
    requires '\n' !in p
    ensures CollapseNewlines(p + t) == p + CollapseNewlines(t)
    decreases |p|
  {
    if p == [] {
      assert p + t == t;
    } else {
      assert (p + t)[1..] == p[1..] + t;
      CollapsePass(p[1..], t);
      assert [p[0]] + p[1..] == p;
    }
  }

  lemma {:induction false} DropNewlinesEscape(s: string)
    ensures DropNewlines(EscapeChars(s)) == EscapeChars(DropNewlines(s))
    decreases |s|
  {
    if s != [] {
      var e := EscapeChars(s);
      assert e == EscapeChar(s[0]) + EscapeChars(s[1..]);
      if s[0] == '\n' {
        assert e[0] == '\n' && e[1..] == EscapeChars(s[1..]);
        assert DropNewlines(e) == DropNewlines(EscapeChars(s[1..]));
        DropNewlinesEscape(s[1..]);
      } else {
        assert e[0] == EscapeChar(s[0])[0] != '\n';
      }
    }
  }

  /** Collapsing newlines and escaping can be done in either order. */
  lemma {:induction false} CollapseEscape(s: string)
    ensures CollapseNewlines(EscapeChars(s)) == EscapeChars(CollapseNewlines(s))
    decreases |s|
  {
    if s != [] {
      var e := EscapeChars(s);
      var c := CollapseNewlines(s);
      assert e == EscapeChar(s[0]) + EscapeChars(s[1..]);
      if s[0] == '\n' {
        var d := DropNewlines(s);
        assert e[0] == '\n';
        assert CollapseNewlines(e) == "\n" + CollapseNewlines(DropNewlines(e));
        DropNewlinesEscape(s);
        CollapseEscape(d);
        assert c == "\n" + CollapseNewlines(d);
        assert c[0] == '\n' && c[1..] == CollapseNewlines(d);
        assert EscapeChars(c) == "\n" + EscapeChars(c[1..]);
      } else {
        EscapeCharStart(s[0]);
        CollapsePass(EscapeChar(s[0]), EscapeChars(s[1..]));
        CollapseEscape(s[1..]);
        assert c == [s[0]] + CollapseNewlines(s[1..]);
        assert c[0] == s[0] && c[1..] == CollapseNewlines(s[1..]);
        assert EscapeChars(c) == EscapeChar(s[0]) + EscapeChars(c[1..]);
      }
    }
  }

  /** Text with no two newlines side by side is what collapsing gives back
   * unchanged, and only such text is. */
  lemma {:induction false} CollapseFixed(s: string)
    ensures CollapseNewlines(s) == s <==> NoDoubleNewline(s)
    decreases |s|
  {
    if s != [] && NoDoubleNewline(s) {
      assert NoDoubleNewline(s[1..]);
      CollapseFixed(s[1..]);
      if s[0] == '\n' {
        assert DropNewlines(s) == s[1..];
      }
      assert [s[0]] + s[1..] == s;
    }
  }

  /** On text that does not start with a newline, the whole clean-up chain of
   * lines 101 to 111 only collapses runs of newlines: escaping removes every
   * `<`, so the two replacements that look for one find nothing, and the
   * leading-newline replacement finds nothing either. */
  lemma CleanupIsCollapse(s: string)
    requires s == [] || s[0] != '\n'
    ensures Cleanup(s) == CollapseNewlines(s)
  {
    var e := Escape(s);
    EscapeIsSinglePass(s);
    EscapeRemovesLt(s);
    ReplaceAllAbsent(e, "\n</", "</", 1);
    DropLtAbsent(e);
    if s != [] {
      EscapeCharStart(s[0]);
      assert e[0] == EscapeChar(s[0])[0];
    }
    assert DropLeadingNewline(e) == e;
    CollapseEscape(s);
    EscapeIsSinglePass(CollapseNewlines(s));
    UnescapeEscape(CollapseNewlines(s));
  }
}
