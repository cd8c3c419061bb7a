/**
 * String vocabulary shared by the converters and the viewers: the JavaScript
 * whitespace class (the one behind `\s`, `\S` and `String.prototype.trim`),
 * the regex word class `\w`, splitting on one character (`String.prototype.split`
 * with a one-character separator), `Array.prototype.join`, decimal rendering of
 * naturals and ASCII lower-casing.
 */
module Text {

  /** The characters JavaScript's `\s` matches and `trim` removes. */
  predicate IsSpace(c: char)
  {
    c == '\t' || c == '\n' || c == '\U{000B}' || c == '\U{000C}' || c == '\r' || c == ' ' ||
    c == '\U{00A0}' || c == '\U{1680}' || ('\U{2000}' <= c <= '\U{200A}') ||
    c == '\U{2028}' || c == '\U{2029}' || c == '\U{202F}' || c == '\U{205F}' ||
    c == '\U{3000}' || c == '\U{FEFF}'
  }

  /** The regex class `\w`. */
  predicate IsWordChar(c: char)
  {
    ('a' <= c <= 'z') || ('A' <= c <= 'Z') || ('0' <= c <= '9') || c == '_'
  }

  /** A string with no character outside the whitespace class. */
  predicate IsBlank(s: string)
  {
    forall i :: 0 <= i < |s| ==> IsSpace(s[i])
  }

  /** `s` with its leading whitespace removed. */
  function TrimStart(s: string): (r: string)
    ensures |r| <= |s| && r == s[|s| - |r|..]
    ensures r == [] || !IsSpace(r[0])
    ensures IsBlank(s[..|s| - |r|])
  {
    if s != [] && IsSpace(s[0]) then TrimStart(s[1..]) else s
  }

  /** `s` with its trailing whitespace removed. */
  function TrimEnd(s: string): (r: string)
    ensures |r| <= |s| && r == s[..|r|]
    ensures r == [] || !IsSpace(r[|r| - 1])
    ensures IsBlank(s[|r|..])
  {
    if s != [] && IsSpace(s[|s| - 1]) then TrimEnd(s[..|s| - 1]) else s
  }

  /** `String.prototype.trim`. */
  function Trim(s: string): (r: string)
  {
    TrimEnd(TrimStart(s))
  }

  /** Trimming the start of a concatenation: a blank first part disappears
   * entirely, any other first part absorbs the trimming. */
  lemma {:induction false} TrimStartAppend(x: string, y: string)
    ensures TrimStart(x + y) == if TrimStart(x) == [] then TrimStart(y) else TrimStart(x) + y
    decreases |x|
  {
    if x == [] {
      assert x + y == y;
    } else if IsSpace(x[0]) {
      assert (x + y)[1..] == x[1..] + y;
      TrimStartAppend(x[1..], y);
    }
  }

  /** Trimming the end of a suffix cuts it where trimming the end of the
   * whole string does. */
  lemma {:induction false} TrimEndOfSuffix(s: string, k: nat)
    requires k <= |s|
    ensures TrimEnd(s[k..]) == if |TrimEnd(s)| <= k then [] else s[k..|TrimEnd(s)|]
    decreases |s|
  {
    if |s| > k && IsSpace(s[|s| - 1]) {
      var init := s[..|s| - 1];
      assert s[k..][..|s| - k - 1] == init[k..];
      TrimEndOfSuffix(init, k);
    }
  }

  /** Only a blank string trims to nothing at the start. */
  lemma TrimStartBlank(x: string)
    ensures TrimStart(x) == [] <==> IsBlank(x)
  {
    assert x[..|x|] == x;
  }

  /** Length of the longest whitespace prefix: the match of `^\s*`. */
  function LeadingSpaces(s: string): (n: nat)
    ensures n <= |s| && IsBlank(s[..n])
    ensures n == |s| || !IsSpace(s[n])
  {
    |s| - |TrimStart(s)|
  }

  /** A string trims to nothing exactly when it is blank. */
  lemma TrimEmptyIffBlank(s: string)
    ensures Trim(s) == [] <==> IsBlank(s)
  {
    var t := TrimStart(s);
    if Trim(s) == [] {
      assert IsBlank(t[|Trim(s)|..]);
      assert t == [];
      assert s[..|s|] == s;
    }
  }

  /** Trimming a string that starts and ends with non-whitespace changes nothing. */
  lemma TrimUnpadded(s: string)
    requires s != [] && !IsSpace(s[0]) && !IsSpace(s[|s| - 1])
    ensures Trim(s) == s
  {
  }

  /** `Array.prototype.join`. */
  function Join(parts: seq<string>, sep: string): (s: string)
    decreases |parts|
  {
    if |parts| == 0 then []
    else if |parts| == 1 then parts[0]
    else parts[0] + sep + Join(parts[1..], sep)
  }

  /** A character found in neither the pieces nor the separator is not in their join. */
  lemma {:induction false} JoinExcludes(parts: seq<string>, sep: string, c: char)
    requires c !in sep
    requires forall i :: 0 <= i < |parts| ==> c !in parts[i]
    ensures c !in Join(parts, sep)
    decreases |parts|
  {
    if |parts| > 1 {
      JoinExcludes(parts[1..], sep, c);
    }
  }

  lemma JoinCons(p: string, rest: seq<string>, sep: string)
    requires rest != []
    ensures Join([p] + rest, sep) == p + sep + Join(rest, sep)
  {
    assert ([p] + rest)[1..] == rest;
  }

  /** Joining two non-empty runs of pieces puts one separator between them. */
  lemma {:induction false} JoinConcat(a: seq<string>, b: seq<string>, sep: string)
    requires a != [] && b != []
    ensures Join(a + b, sep) == Join(a, sep) + sep + Join(b, sep)
    decreases |a|
  {
    if |a| == 1 {
      assert a + b == [a[0]] + b;
      JoinCons(a[0], b, sep);
    } else {
      assert a + b == [a[0]] + (a[1..] + b);
      JoinCons(a[0], a[1..] + b, sep);
      JoinConcat(a[1..], b, sep);
      JoinCons(a[0], a[1..], sep);
      assert [a[0]] + a[1..] == a;
    }
  }

  /** Text put in front of the first piece ends up in front of the join. */
  lemma JoinPrefixFirst(q: string, ps: seq<string>, sep: string)
    requires ps != []
    ensures Join([q + ps[0]] + ps[1..], sep) == q + Join(ps, sep)
  {
    if |ps| > 1 {
      JoinCons(q + ps[0], ps[1..], sep);
      JoinCons(ps[0], ps[1..], sep);
      assert [ps[0]] + ps[1..] == ps;
    } else {
      assert [q + ps[0]] + ps[1..] == [q + ps[0]];
    }
  }

  /** Text put after the last piece ends up after the join. */
  lemma JoinSuffixLast(ps: seq<string>, q: string, sep: string)
    requires ps != []
    ensures Join(ps[..|ps| - 1] + [ps[|ps| - 1] + q], sep) == Join(ps, sep) + q
  {
    var init := ps[..|ps| - 1];
    var last := ps[|ps| - 1];
    assert ps == init + [last];
    if init != [] {
      JoinConcat(init, [last + q], sep);
      JoinConcat(init, [last], sep);
    }
  }

  /** `String.prototype.split` with a one-character separator: joining the
   * pieces back with that character gives the input, and no piece holds it. */
  function Split(s: string, sep: char): (parts: seq<string>)
    ensures |parts| >= 1
    ensures forall i :: 0 <= i < |parts| ==> sep !in parts[i]
    ensures Join(parts, [sep]) == s
    decreases |s|
  {
    if s == [] then [[]]
    else
      var rest := Split(s[1..], sep);
      if s[0] == sep then
        assert Join([[]] + rest, [sep]) == [sep] + Join(rest, [sep]);
        [[]] + rest
      else
        var parts := [[s[0]] + rest[0]] + rest[1..];
        assert parts[1..] == rest[1..];
        assert Join(parts, [sep]) == [s[0]] + Join(rest, [sep]);
        parts
  }

  /** The pieces of a blank string are blank. */
  lemma {:induction false} SplitBlank(s: string, sep: char)
    requires IsBlank(s)
    ensures forall i :: 0 <= i < |Split(s, sep)| ==> IsBlank(Split(s, sep)[i])
    decreases |s|
  {
    if s != [] {
      SplitBlank(s[1..], sep);
    }
  }

  /** A string without the separator splits into itself. */
  lemma {:induction false} SplitNoSeparator(s: string, sep: char)
    requires sep !in s
    ensures Split(s, sep) == [s]
    decreases |s|
  {
    if s != [] {
      SplitNoSeparator(s[1..], sep);
    }
  }

  /** A separator-free prefix followed by the separator becomes the first piece. */
  lemma {:induction false} SplitAfterPiece(p: string, sep: char, t: string)
    requires sep !in p
    ensures Split(p + [sep] + t, sep) == [p] + Split(t, sep)
    decreases |p|
  {
    if p == [] {
      assert ([] + [sep] + t)[1..] == t;
    } else {
      assert (p + [sep] + t)[1..] == p[1..] + [sep] + t;
      SplitAfterPiece(p[1..], sep, t);
      assert [p[0]] + p[1..] == p;
    }
  }

  /** Split is the only way to cut a string into separator-free pieces that join back to it. */
  lemma {:induction false} SplitUnique(parts: seq<string>, sep: char)
    requires |parts| >= 1
    requires forall i :: 0 <= i < |parts| ==> sep !in parts[i]
    ensures Split(Join(parts, [sep]), sep) == parts
    decreases |parts|
  {
    if |parts| == 1 {
      SplitNoSeparator(parts[0], sep);
    } else {
      SplitUnique(parts[1..], sep);
      SplitAfterPiece(parts[0], sep, Join(parts[1..], [sep]));
      assert [parts[0]] + parts[1..] == parts;
    }
  }

  /** The concatenation of a sequence of strings. */
  function ConcatAll(ss: seq<string>): string
    decreases |ss|
  {
    if ss == [] then [] else ss[0] + ConcatAll(ss[1..])
  }

  lemma {:induction false} ConcatAllAppend(ss: seq<string>, s: string)
    ensures ConcatAll(ss + [s]) == ConcatAll(ss) + s
    decreases |ss|
  {
    if ss != [] {
      assert (ss + [s])[1..] == ss[1..] + [s];
      ConcatAllAppend(ss[1..], s);
    }
  }

  /** Each string followed by a newline. */
  function Terminated(lines: seq<string>): (r: seq<string>)
    ensures |r| == |lines|
    ensures forall i :: 0 <= i < |r| ==> r[i] == lines[i] + "\n"
  {
    seq(|lines|, i requires 0 <= i < |lines| => lines[i] + "\n")
  }

  /** Newline-terminated lines read back by splitting on the newline: every line
   * comes back, in order, followed by the empty piece after the last newline. */
  lemma {:induction false} SplitTerminatedLines(lines: seq<string>)
    requires forall i :: 0 <= i < |lines| ==> '\n' !in lines[i]
    ensures Split(ConcatAll(Terminated(lines)), '\n') == lines + [[]]
    decreases |lines|
  {
    if lines == [] {
    } else {
      SplitTerminatedLines(lines[1..]);
      assert Terminated(lines)[1..] == Terminated(lines[1..]);
      assert ConcatAll(Terminated(lines)) == lines[0] + ['\n'] + ConcatAll(Terminated(lines[1..]));
      SplitAfterPiece(lines[0], '\n', ConcatAll(Terminated(lines[1..])));
      assert [lines[0]] + (lines[1..] + [[]]) == lines + [[]];
    }
  }

  /** A string of `n` spaces. */
  function Spaces(n: nat): (r: string)
    ensures |r| == n && IsBlank(r)
    ensures forall i :: 0 <= i < n ==> r[i] == ' '
  {
    seq(n, _ => ' ')
  }

  function DigitChar(d: nat): (c: char)
    requires d < 10
    ensures '0' <= c <= '9'
  {
    ['0', '1', '2', '3', '4', '5', '6', '7', '8', '9'][d]
  }

  function DigitValue(c: char): nat
  {
    if '0' <= c <= '9' then (c as int - '0' as int) else 0
  }

  /** The decimal rendering of a natural number (what `String(n)` and a template
   * literal give for a non-negative integer). */
  function NatToString(n: nat): (s: string)
    ensures |s| >= 1
    ensures forall i :: 0 <= i < |s| ==> '0' <= s[i] <= '9'
    decreases n
  {
    if n < 10 then [DigitChar(n)] else NatToString(n / 10) + [DigitChar(n % 10)]
  }

  /** The value of a string of decimal digits. */
  function DecimalValue(s: string): nat
    decreases |s|
  {
    if s == [] then 0 else DecimalValue(s[..|s| - 1]) * 10 + DigitValue(s[|s| - 1])
  }

  lemma DigitRoundTrip(d: nat)
    requires d < 10
    ensures DigitValue(DigitChar(d)) == d
  {
  }

  /** Reading a rendered natural back gives the natural. */
  lemma {:induction false} NatToStringRoundTrip(n: nat)
    ensures DecimalValue(NatToString(n)) == n
    decreases n
  {
    if n < 10 {
      DigitRoundTrip(n);
      assert NatToString(n)[..0] == [];
    } else {
      NatToStringRoundTrip(n / 10);
      DigitRoundTrip(n % 10);
      var s := NatToString(n);
      assert s[..|s| - 1] == NatToString(n / 10);
    }
  }

  /** Distinct naturals render differently. */
  lemma NatToStringInjective(a: nat, b: nat)
    requires a != b
    ensures NatToString(a) != NatToString(b)
  {
    NatToStringRoundTrip(a);
    NatToStringRoundTrip(b);
  }

  /** Lower-cases the ASCII letters and leaves every other character alone. */
  function AsciiLower(s: string): (r: string)
    ensures |r| == |s|
  {
    seq(|s|, i requires 0 <= i < |s| => if 'A' <= s[i] <= 'Z' then (s[i] as int + 32) as char else s[i])
  }
}
