/**
 * The line model behind the JSON viewer: the document is parsed, printed again
 * with two-space indentation, and every printed line becomes a row with its
 * trimmed text, an indentation level, bracket flags, a 1-based number and a
 * key. An opening row's collapsible body is every later row indented deeper.
 */
module JsonViewer {
  import opened Wrappers
  import opened Text
  import opened JsonValue

  /** One row of the viewer. */
  datatype ParsedLine = ParsedLine(
    content: string,
    indent: int,
    lineNumber: nat,
    isOpenBracket: bool,
    isCloseBracket: bool,
    path: string)

  /** The `error` prop is truthy: present and not the empty string. */
  predicate Truthy(error: Option<string>)
  {
    error.Some? && error.value != []
  }

  /** `line.search(/\S/)`: where the first non-whitespace character sits, or -1. */
  function SearchNonSpace(line: string): (r: int)
    ensures r == -1 <==> IsBlank(line)
    ensures r != -1 ==> 0 <= r < |line| && !IsSpace(line[r]) && IsBlank(line[..r])
  {
    if LeadingSpaces(line) < |line| then LeadingSpaces(line)
    else
      assert line[..|line|] == line;
      -1
  }

  /** `Math.floor(n / 2)`; with a positive divisor Dafny's division already rounds down. */
  function FloorHalf(n: int): (r: int)
    ensures 2 * r <= n < 2 * r + 2
  {
    n / 2
  }

  predicate StartsWithChar(s: string, c: char)
  {
    s != [] && s[0] == c
  }

  predicate EndsWithChar(s: string, c: char)
  {
    s != [] && s[|s| - 1] == c
  }

  /** The row built from the printed line at position `index`. */
  function ParseLine(line: string, index: nat): (r: ParsedLine)
    ensures r.lineNumber == index + 1
    ensures r.path == "line-" + NatToString(index + 1)
  {
    var content := Trim(line);
    ParsedLine(
      content,
      FloorHalf(SearchNonSpace(line)),
      index + 1,
      EndsWithChar(content, '{') || EndsWithChar(content, '['),
      StartsWithChar(content, '}') || StartsWithChar(content, ']'),
      "line-" + NatToString(index + 1))
  }

  /** The rows of a printed text, one per line. */
  function LinesOf(formatted: string): (rows: seq<ParsedLine>)
    ensures |rows| == |Split(formatted, '\n')|
    ensures forall i :: 0 <= i < |rows| ==> rows[i].lineNumber == i + 1
    ensures forall i :: 0 <= i < |rows| ==> rows[i].path == "line-" + NatToString(i + 1)
  {
    var raw := Split(formatted, '\n');
    seq(|raw|, i requires 0 <= i < |raw| => ParseLine(raw[i], i))
  }

  /** The viewer's `parsedLines`. `parse` stands for `JSON.parse` and `pretty`
   * for `JSON.stringify(value, null, 2)`. */
  function ParsedLines(jsonString: string, error: Option<string>,
                       parse: string -> Parsed, pretty: Json -> string): seq<ParsedLine>
  {
    if Trim(jsonString) == [] || Truthy(error) then []
    else
      match parse(jsonString)
      case SyntaxError(_) => []
      case Parsed(value) => LinesOf(pretty(value))
  }

  /** There are no rows exactly when the input is blank, the error is set, or
   * the input does not parse; a printed text always gives at least one row. */
  lemma EmptyCases(jsonString: string, error: Option<string>,
                   parse: string -> Parsed, pretty: Json -> string)
    ensures ParsedLines(jsonString, error, parse, pretty) == [] <==>
              IsBlank(jsonString) || Truthy(error) || parse(jsonString).SyntaxError?
  {
    TrimEmptyIffBlank(jsonString);
  }

  /** A parsed document gives one row per printed line, numbered from 1. */
  lemma RowsOfDocument(jsonString: string, error: Option<string>,
                       parse: string -> Parsed, pretty: Json -> string)
    requires !IsBlank(jsonString) && !Truthy(error) && parse(jsonString).Parsed?
    ensures var rows := ParsedLines(jsonString, error, parse, pretty);
            var raw := Split(pretty(parse(jsonString).value), '\n');
            |rows| == |raw| &&
            forall i :: 0 <= i < |rows| ==>
              rows[i].lineNumber == i + 1 && rows[i].content == Trim(raw[i])
  {
    TrimEmptyIffBlank(jsonString);
    assert ParsedLines(jsonString, error, parse, pretty) == LinesOf(pretty(parse(jsonString).value));
  }

  /** Distinct numbers give distinct keys. */
  lemma PathStringsDistinct(a: nat, b: nat)
    requires a != b
    ensures "line-" + NatToString(a) != "line-" + NatToString(b)
  {
    var prefix := "line-";
    NatToStringInjective(a, b);
    assert (prefix + NatToString(a))[|prefix|..] == NatToString(a);
    assert (prefix + NatToString(b))[|prefix|..] == NatToString(b);
  }

  /** No two rows share a key. */
  lemma PathsDistinct(formatted: string, i: nat, j: nat)
    requires i < |LinesOf(formatted)| && j < |LinesOf(formatted)| && i != j
    ensures LinesOf(formatted)[i].path != LinesOf(formatted)[j].path
  {
    PathStringsDistinct(i + 1, j + 1);
  }

  /** The content is the line without surrounding whitespace; it is empty only
   * for a blank line, which gets indentation -1. Any other line gets half its
   * leading whitespace, rounded down. */
  lemma LineFields(line: string, index: nat)
    ensures var r := ParseLine(line, index);
            (r.content == [] <==> IsBlank(line)) &&
            (r.indent == -1 <==> IsBlank(line)) &&
            (!IsBlank(line) ==> 2 * r.indent <= LeadingSpaces(line) < 2 * r.indent + 2)
  {
    TrimEmptyIffBlank(line);
  }

  /** A string that is not blank has a non-whitespace character where its
   * leading whitespace stops, and no later than where its trailing whitespace starts. */
  lemma ContentBounds(line: string)
    requires !IsBlank(line)
    ensures LeadingSpaces(line) < |TrimEnd(line)|
  {
    var k, m := LeadingSpaces(line), |TrimEnd(line)|;
    assert k < |line| by {
      assert line[..|line|] == line;
    }
  }

  /** The trimmed content runs from the first to the last non-whitespace character. */
  lemma TrimmedSlice(line: string)
    requires !IsBlank(line)
    ensures Trim(line) == line[LeadingSpaces(line)..|TrimEnd(line)|]
  {
    ContentBounds(line);
    assert TrimStart(line) == line[LeadingSpaces(line)..];
    TrimEndOfSuffix(line, LeadingSpaces(line));
  }

  /** A blank string has no first and no last non-whitespace character. */
  lemma BlankEnds(line: string)
    requires IsBlank(line)
    ensures LeadingSpaces(line) == |line| && TrimEnd(line) == []
  {
  }

  /** A row opens a block exactly when the last non-whitespace character of its
   * line is `{` or `[`. */
  lemma OpenFlag(line: string, index: nat)
    ensures var e := TrimEnd(line);
            ParseLine(line, index).isOpenBracket <==> e != [] && (e[|e| - 1] == '{' || e[|e| - 1] == '[')
  {
    var t, e := Trim(line), TrimEnd(line);
    assert ParseLine(line, index).isOpenBracket <==> EndsWithChar(t, '{') || EndsWithChar(t, '[');
    TrimEmptyIffBlank(line);
    if IsBlank(line) {
      BlankEnds(line);
    } else {
      LastContentChar(line);
    }
  }

  /** The content ends where the line's trailing whitespace starts. */
  lemma LastContentChar(line: string)
    requires !IsBlank(line)
    ensures var t, e := Trim(line), TrimEnd(line);
            t != [] && e != [] && t[|t| - 1] == e[|e| - 1]
  {
    var k, m := LeadingSpaces(line), |TrimEnd(line)|;
    ContentBounds(line);
    TrimmedSlice(line);
    SliceLast(line, k, m);
  }

  lemma SliceLast(s: string, k: nat, m: nat)
    requires k < m <= |s|
    ensures var t := s[k..m]; t != [] && t[|t| - 1] == s[m - 1] && s[..m][m - 1] == s[m - 1]
  {
  }

  /** A row closes a block exactly when the first non-whitespace character of
   * its line is `}` or `]`. */
  lemma CloseFlag(line: string, index: nat)
    ensures var k := LeadingSpaces(line);
            ParseLine(line, index).isCloseBracket <==> k < |line| && (line[k] == '}' || line[k] == ']')
  {
    TrimEmptyIffBlank(line);
    if IsBlank(line) {
      BlankEnds(line);
    } else {
      TrimmedSlice(line);
      assert Trim(line)[0] == line[LeadingSpaces(line)];
    }
  }

  /** `Array.prototype.filter` keeping the rows indented deeper than `indent`. */
  function Deeper(rows: seq<ParsedLine>, indent: int): (r: seq<ParsedLine>)
    ensures |r| <= |rows|
  {
    if rows == [] then []
    else (if rows[0].indent > indent then [rows[0]] else []) + Deeper(rows[1..], indent)
  }

  /** The rows shown inside the collapsible block of row `index`. */
  function CollapsibleBody(rows: seq<ParsedLine>, index: nat): seq<ParsedLine>
    requires index < |rows|
  {
    Deeper(rows[index + 1..], rows[index].indent)
  }

  /** Filtering keeps exactly the deeper rows. */
  lemma {:induction false} DeeperMembers(rows: seq<ParsedLine>, indent: int)
    ensures forall x :: x in Deeper(rows, indent) <==> x in rows && x.indent > indent
    decreases |rows|
  {
    if rows != [] {
      DeeperMembers(rows[1..], indent);
      assert rows == [rows[0]] + rows[1..];
    }
  }

  /** Filtering keeps the rows' order: it works piece by piece. */
  lemma {:induction false} DeeperAppend(a: seq<ParsedLine>, b: seq<ParsedLine>, indent: int)
    ensures Deeper(a + b, indent) == Deeper(a, indent) + Deeper(b, indent)
    decreases |a|
  {
    if a == [] {
      assert a + b == b;
    } else {
      assert (a + b)[1..] == a[1..] + b;
      DeeperAppend(a[1..], b, indent);
    }
  }

  /** The body holds exactly the later rows indented deeper than the opener. */
  lemma BodyMembers(rows: seq<ParsedLine>, index: nat)
    requires index < |rows|
    ensures forall j :: index < j < |rows| && rows[j].indent > rows[index].indent ==>
              rows[j] in CollapsibleBody(rows, index)
    ensures forall x :: x in CollapsibleBody(rows, index) ==>
              x in rows[index + 1..] && x.indent > rows[index].indent
  {
    DeeperMembers(rows[index + 1..], rows[index].indent);
    forall j | index < j < |rows| && rows[j].indent > rows[index].indent
      ensures rows[j] in CollapsibleBody(rows, index)
    {
      assert rows[index + 1..][j - index - 1] == rows[j];
    }
  }

  /** The body does not stop at the row that closes the block: a closing row at
   * the opener's level is left out, yet deeper rows after it are still shown. */
  lemma BodyPassesClose(rows: seq<ParsedLine>, index: nat, close: nat, later: nat)
    requires index < close < later < |rows|
    requires rows[close].isCloseBracket && rows[close].indent == rows[index].indent
    requires rows[later].indent > rows[index].indent
    ensures rows[later] in CollapsibleBody(rows, index)
    ensures rows[close] !in CollapsibleBody(rows, index)
  {
    BodyMembers(rows, index);
  }

  /** A line made of `n` spaces and then text starting with a non-space
   * character is indented `n / 2` levels. */
  lemma PaddedIndent(n: nat, text: string, index: nat)
    requires text != [] && !IsSpace(text[0])
    ensures ParseLine(Spaces(n) + text, index).indent == n / 2
  {
    TrimStartBlank(Spaces(n));
    TrimStartAppend(Spaces(n), text);
  }

  /** The rows of the printed form of `{"a":{"x":1},"b":{"y":2}}` are indented
   * 0, 1, 2, 1, 1, 2, 1, 0 (`PaddedIndent`, with two spaces per level). The body
   * of the row opening `"a"` also shows `"y": 2`, which belongs to `"b"`. */
  lemma SiblingLeaksIntoBody(rows: seq<ParsedLine>)
    requires |rows| == 8
    requires rows[0].indent == 0 && rows[1].indent == 1 && rows[2].indent == 2 && rows[3].indent == 1
    requires rows[4].indent == 1 && rows[5].indent == 2 && rows[6].indent == 1 && rows[7].indent == 0
    ensures CollapsibleBody(rows, 1) == [rows[2], rows[5]]
  {
    var tail := rows[2..];
    assert Deeper(tail[5..], 1) == [];
    assert Deeper(tail[4..], 1) == [];
    assert Deeper(tail[3..], 1) == [rows[5]];
    assert Deeper(tail[2..], 1) == [rows[5]];
    assert Deeper(tail[1..], 1) == [rows[5]];
  }
}
