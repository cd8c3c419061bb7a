/**
 * The CSV line tokenizer `parseCSVLine` (src/utils/conversion.ts) and the
 * field quoting `jsonToCsv` writes, with the properties that tie the two
 * together: the tokenizer reads a quoted row back to its fields.
 */
module CsvLine {
  import opened Text

  /**
   * The tokenizer as a function of the unread rest of the line and its state:
   * whether it is inside quotes, the field being built, and the fields already
   * ended. A quote outside quotes opens quoted mode; inside quotes a doubled
   * quote is one literal quote and a single quote closes quoted mode; a comma
   * outside quotes ends the field; anything else is field text. At the end of
   * the line the field being built is pushed, whatever the quote state.
   */
  function Scan(rest: string, inQuotes: bool, current: string, done: seq<string>): seq<string>
    decreases |rest|
  {
    if rest == [] then done + [current]
    else if rest[0] == '"' && !inQuotes then Scan(rest[1..], true, current, done)
    else if rest[0] == '"' && inQuotes then
      if |rest| > 1 && rest[1] == '"' then Scan(rest[2..], true, current + ['"'], done)
      else Scan(rest[1..], false, current, done)
    else if rest[0] == ',' && !inQuotes then Scan(rest[1..], false, [], done + [current])
    else Scan(rest[1..], inQuotes, current + [rest[0]], done)
  }

  // One step of the tokenizer on a known first character.

  lemma ScanText(c: char, rest: string, inQuotes: bool, current: string, done: seq<string>)
    requires c != '"' && (c != ',' || inQuotes)
    ensures Scan([c] + rest, inQuotes, current, done) == Scan(rest, inQuotes, current + [c], done)
  {
    assert ([c] + rest)[1..] == rest;
  }

  lemma ScanComma(rest: string, current: string, done: seq<string>)
    ensures Scan("," + rest, false, current, done) == Scan(rest, false, [], done + [current])
  {
    assert ("," + rest)[1..] == rest;
  }

  lemma ScanOpenQuote(rest: string, current: string, done: seq<string>)
    ensures Scan("\"" + rest, false, current, done) == Scan(rest, true, current, done)
  {
    assert ("\"" + rest)[1..] == rest;
  }

  lemma ScanDoubledQuote(rest: string, current: string, done: seq<string>)
    ensures Scan("\"\"" + rest, true, current, done) == Scan(rest, true, current + "\"", done)
  {
    assert ("\"\"" + rest)[2..] == rest;
  }

  lemma ScanCloseQuote(rest: string, current: string, done: seq<string>)
    requires rest == [] || rest[0] != '"'
    ensures Scan("\"" + rest, true, current, done) == Scan(rest, false, current, done)
  {
    assert ("\"" + rest)[1..] == rest;
  }

  /** The fields of one CSV line. */
  function Fields(line: string): (fields: seq<string>)
    ensures |fields| == 1 + UnquotedCommas(line, false)
  {
    FieldCount(line, false, [], []);
    Scan(line, false, [], [])
  }

  /** `parseCSVLine`: one pass over the characters, stepping over the second
   * quote of a doubled quote. */
  method ParseCsvLine(line: string) returns (values: seq<string>)
    ensures values == Fields(line)
  {
    values := [];
    var current := "";
    var inQuotes := false;
    var i := 0;
    while i < |line|
      invariant 0 <= i <= |line|
      invariant Scan(line[i..], inQuotes, current, values) == Fields(line)
    {
      var c := line[i];
      if c == '"' && !inQuotes {
        inQuotes := true;
      } else if c == '"' && inQuotes {
        if i < |line| - 1 && line[i + 1] == '"' {
          current := current + "\"";
          i := i + 1;
        } else {
          inQuotes := false;
        }
      } else if c == ',' && !inQuotes {
        values := values + [current];
        current := "";
      } else {
        current := current + [c];
      }
      i := i + 1;
    }
    values := values + [current];
  }

  /** How many commas of `rest` the tokenizer meets outside quoted mode. */
  function UnquotedCommas(rest: string, inQuotes: bool): nat
    decreases |rest|
  {
    if rest == [] then 0
    else if rest[0] == '"' && !inQuotes then UnquotedCommas(rest[1..], true)
    else if rest[0] == '"' && inQuotes then
      if |rest| > 1 && rest[1] == '"' then UnquotedCommas(rest[2..], true)
      else UnquotedCommas(rest[1..], false)
    else if rest[0] == ',' && !inQuotes then 1 + UnquotedCommas(rest[1..], false)
    else UnquotedCommas(rest[1..], inQuotes)
  }

  /** Every comma met outside quotes ends exactly one field, and the last field
   * is always pushed: the field count is one more than those commas. */
  lemma {:induction false} FieldCount(rest: string, inQuotes: bool, current: string, done: seq<string>)
    ensures |Scan(rest, inQuotes, current, done)| == |done| + 1 + UnquotedCommas(rest, inQuotes)
    decreases |rest|
  {
    if rest == [] {
    } else if rest[0] == '"' && !inQuotes {
      FieldCount(rest[1..], true, current, done);
    } else if rest[0] == '"' && inQuotes {
      if |rest| > 1 && rest[1] == '"' {
        FieldCount(rest[2..], true, current + ['"'], done);
      } else {
        FieldCount(rest[1..], false, current, done);
      }
    } else if rest[0] == ',' && !inQuotes {
      FieldCount(rest[1..], false, [], done + [current]);
    } else {
      FieldCount(rest[1..], inQuotes, current + [rest[0]], done);
    }
  }

  lemma SplitAtComma(tail: string)
    ensures Split([','] + tail, ',') == [[]] + Split(tail, ',')
  {
    assert ([','] + tail)[1..] == tail;
  }

  lemma SplitAtText(c: char, tail: string)
    requires c != ','
    ensures var parts := Split(tail, ',');
      Split([c] + tail, ',') == [[c] + parts[0]] + parts[1..]
  {
    assert ([c] + tail)[1..] == tail;
  }

  lemma RegroupFields(done: seq<string>, current: string, parts: seq<string>)
    requires parts != []
    ensures done + [current] + [[] + parts[0]] + parts[1..] == done + [current + []] + parts
  {
    assert current + [] == current;
    assert [] + parts[0] == parts[0];
    assert parts == [parts[0]] + parts[1..];
  }

  lemma {:induction false} ScanUnquoted(rest: string, current: string, done: seq<string>)
    requires '"' !in rest
    ensures var parts := Split(rest, ',');
      Scan(rest, false, current, done) == done + [current + parts[0]] + parts[1..]
    decreases |rest|
  {
    if rest == [] {
      assert current + Split(rest, ',')[0] == current;
    } else {
      var c, tail := rest[0], rest[1..];
      assert rest == [c] + tail;
      var parts := Split(tail, ',');
      if c == ',' {
        ScanComma(tail, current, done);
        ScanUnquoted(tail, [], done + [current]);
        SplitAtComma(tail);
        assert Split(rest, ',')[0] == [] && Split(rest, ',')[1..] == parts;
        RegroupFields(done, current, parts);
      } else {
        ScanText(c, tail, false, current, done);
        ScanUnquoted(tail, current + [c], done);
        SplitAtText(c, tail);
        assert current + [c] + parts[0] == current + ([c] + parts[0]);
      }
    }
  }

  /** On a line without quotes the tokenizer is a plain split on every comma. */
  lemma NoQuotesIsSplit(line: string)
    requires '"' !in line
    ensures Fields(line) == Split(line, ',')
  {
    ScanUnquoted(line, [], []);
    var parts := Split(line, ',');
    assert [] + parts[0] == parts[0];
    assert [] + [parts[0]] + parts[1..] == parts;
  }

  /** A quote opened and never closed keeps the rest of the line, commas
   * included, in the last field. */
  lemma {:induction false} ScanUnclosedQuote(rest: string, current: string, done: seq<string>)
    requires '"' !in rest
    ensures Scan(rest, true, current, done) == done + [current + rest]
    decreases |rest|
  {
    if rest != [] {
      ScanUnclosedQuote(rest[1..], current + [rest[0]], done);
      assert current + [rest[0]] + rest[1..] == current + rest;
    } else {
      assert current + rest == current;
    }
  }

  /** Two adjacent quotes somewhere in `s`. */
  predicate HasQuotePair(s: string)
  {
    exists i :: 0 <= i < |s| - 1 && s[i] == '"' && s[i + 1] == '"'
  }

  predicate QuoteFree(fields: seq<string>)
  {
    forall i :: 0 <= i < |fields| ==> '"' !in fields[i]
  }

  lemma {:induction false} ScanQuoteFree(rest: string, inQuotes: bool, current: string, done: seq<string>)
    requires !HasQuotePair(rest) && '"' !in current && QuoteFree(done)
    ensures QuoteFree(Scan(rest, inQuotes, current, done))
    decreases |rest|
  {
    if rest != [] {
      if rest[0] == '"' && !inQuotes {
        ScanQuoteFree(rest[1..], true, current, done);
      } else if rest[0] == '"' && inQuotes {
        if |rest| > 1 && rest[1] == '"' {
          assert HasQuotePair(rest);
        } else {
          ScanQuoteFree(rest[1..], false, current, done);
        }
      } else if rest[0] == ',' && !inQuotes {
        ScanQuoteFree(rest[1..], false, [], done + [current]);
      } else {
        ScanQuoteFree(rest[1..], inQuotes, current + [rest[0]], done);
      }
    }
  }

  /** Quote characters that open or close quoted mode are never copied into a
   * field: a field can only hold a quote that was written doubled. */
  lemma QuotesOnlyFromPairs(line: string)
    requires !HasQuotePair(line)
    ensures QuoteFree(Fields(line))
  {
    ScanQuoteFree(line, false, [], []);
  }

  /** The number of quotes in `s`. */
  function QuoteCount(s: string): nat
    decreases |s|
  {
    if s == [] then 0 else (if s[0] == '"' then 1 else 0) + QuoteCount(s[1..])
  }

  /** Reading text left to right, a pair of quotes stands for one quote and
   * any other character for itself. */
  function Undouble(r: string): string
    decreases |r|
  {
    if r == [] then []
    else if |r| >= 2 && r[0] == '"' && r[1] == '"' then "\"" + Undouble(r[2..])
    else [r[0]] + Undouble(r[1..])
  }

  /** `.replace(/"/g, '""')`: every quote doubled and nothing else changed, so
   * the text grows by one character per quote (and `EscapeQuotesUndouble`
   * reads the original back). */
  function EscapeQuotes(s: string): (r: string)
    ensures |r| == |s| + QuoteCount(s)
    decreases |s|
  {
    if s == [] then [] else EscapeHead(s[0]) + EscapeQuotes(s[1..])
  }

  /** Reading each pair of quotes in an escaped text as one quote gives back
   * the original text. */
  lemma {:induction false} EscapeQuotesUndouble(s: string)
    ensures Undouble(EscapeQuotes(s)) == s
    decreases |s|
  {
    if s != [] {
      var head, rest := EscapeHead(s[0]), EscapeQuotes(s[1..]);
      EscapeQuotesUndouble(s[1..]);
      if s[0] == '"' {
        assert (head + rest)[2..] == rest;
      } else {
        assert (head + rest)[1..] == rest;
      }
      assert s == [s[0]] + s[1..];
    }
  }

  /** What `EscapeQuotes` writes for one character. */
  function EscapeHead(c: char): (r: string)
    ensures c == '"' ==> r == "\"\""
    ensures c != '"' ==> r == [c]
  {
    if c == '"' then "\"\"" else [c]
  }

  lemma EscapeQuotesCons(s: string)
    requires s != []
    ensures EscapeQuotes(s) == EscapeHead(s[0]) + EscapeQuotes(s[1..])
  {
  }

  /** A field written between quotes with its quotes doubled. */
  function Quote(s: string): string
  {
    "\"" + EscapeQuotes(s) + "\""
  }

  /** Inside quotes, an escaped field followed by the closing quote adds the
   * field's text to the current field and leaves quoted mode, provided the
   * closing quote is not followed by another quote. */
  lemma {:induction false} ScanQuotedBody(f: string, rest: string, current: string, done: seq<string>)
    requires rest == [] || rest[0] != '"'
    ensures Scan(EscapeQuotes(f) + "\"" + rest, true, current, done) == Scan(rest, false, current + f, done)
    decreases |f|
  {
    if f == [] {
      assert EscapeQuotes(f) + "\"" + rest == "\"" + rest;
      ScanCloseQuote(rest, current, done);
      assert current + f == current;
    } else {
      ScanQuotedBody(f[1..], rest, current + [f[0]], done);
      ScanQuotedCons(f, rest, current, done);
    }
  }

  /** The inductive step of `ScanQuotedBody`: the first character's escaped form
   * moves it into the current field. */
  lemma ScanQuotedCons(f: string, rest: string, current: string, done: seq<string>)
    requires f != []
    requires Scan(EscapeQuotes(f[1..]) + "\"" + rest, true, current + [f[0]], done)
             == Scan(rest, false, current + [f[0]] + f[1..], done)
    ensures Scan(EscapeQuotes(f) + "\"" + rest, true, current, done) == Scan(rest, false, current + f, done)
  {
    var u := EscapeQuotes(f[1..]) + "\"" + rest;
    ScanQuotedChar(f, u, current, done);
    assert EscapeQuotes(f) + "\"" + rest == EscapeHead(f[0]) + u by {
      EscapeQuotesCons(f);
    }
    assert current + [f[0]] + f[1..] == current + f;
  }

  /** Inside quotes, the escaped form of one character adds that character. */
  lemma ScanQuotedChar(f: string, u: string, current: string, done: seq<string>)
    requires f != []
    ensures Scan(EscapeHead(f[0]) + u, true, current, done) == Scan(u, true, current + [f[0]], done)
  {
    if f[0] == '"' {
      ScanDoubledQuote(u, current, done);
    } else {
      ScanText(f[0], u, true, current, done);
    }
  }

  /** One field of a written row: nothing at all or quoted text, as `jsonToCsv`
   * writes them, or bare text free of quotes and commas. */
  datatype Cell = Blank | Quoted(text: string) | Bare(text: string)

  predicate SafeCell(c: Cell)
  {
    c.Bare? ==> '"' !in c.text && ',' !in c.text
  }

  predicate SafeCells(cells: seq<Cell>)
  {
    forall i :: 0 <= i < |cells| ==> SafeCell(cells[i])
  }

  function CellText(c: Cell): string
  {
    match c
    case Blank => ""
    case Quoted(text) => text
    case Bare(text) => text
  }

  function RenderCell(c: Cell): string
  {
    match c
    case Blank => ""
    case Quoted(text) => Quote(text)
    case Bare(text) => text
  }

  lemma {:induction false} ScanBareText(t: string, tail: string, current: string, done: seq<string>)
    requires '"' !in t && ',' !in t
    ensures Scan(t + tail, false, current, done) == Scan(tail, false, current + t, done)
    decreases |t|
  {
    if t == [] {
      assert t + tail == tail && current + t == current;
    } else {
      assert t + tail == [t[0]] + (t[1..] + tail);
      ScanText(t[0], t[1..] + tail, false, current, done);
      ScanBareText(t[1..], tail, current + [t[0]], done);
      assert current + [t[0]] + t[1..] == current + t;
    }
  }

  function RenderCells(cells: seq<Cell>): (r: seq<string>)
    ensures |r| == |cells|
    ensures forall i :: 0 <= i < |cells| ==> r[i] == RenderCell(cells[i])
  {
    seq(|cells|, i requires 0 <= i < |cells| => RenderCell(cells[i]))
  }

  function CellTexts(cells: seq<Cell>): (r: seq<string>)
    ensures |r| == |cells|
    ensures forall i :: 0 <= i < |cells| ==> r[i] == CellText(cells[i])
  {
    seq(|cells|, i requires 0 <= i < |cells| => CellText(cells[i]))
  }

  /** The cells of a row joined with commas. */
  function RenderRow(cells: seq<Cell>): string
  {
    Join(RenderCells(cells), ",")
  }

  /** Reading one rendered cell that ends the line or is followed by a comma
   * leaves the cell's text as the current field, outside quotes. */
  lemma ScanCell(c: Cell, tail: string, done: seq<string>)
    requires SafeCell(c)
    requires tail == [] || tail[0] == ','
    ensures Scan(RenderCell(c) + tail, false, [], done) == Scan(tail, false, CellText(c), done)
  {
    if c.Blank? {
      assert RenderCell(c) + tail == tail;
    } else if c.Bare? {
      ScanBareText(c.text, tail, [], done);
      assert [] + c.text == c.text;
    } else {
      assert RenderCell(c) + tail == "\"" + (EscapeQuotes(c.text) + "\"" + tail);
      ScanOpenQuote(EscapeQuotes(c.text) + "\"" + tail, [], done);
      ScanQuotedBody(c.text, tail, [], done);
      assert [] + c.text == c.text;
    }
  }

  lemma RenderRowUnfold(cells: seq<Cell>)
    requires |cells| >= 2
    ensures RenderRow(cells) == RenderCell(cells[0]) + "," + RenderRow(cells[1..])
  {
    assert RenderCells(cells)[1..] == RenderCells(cells[1..]);
  }

  /** A rendered row followed by a comma and more text: the row's cells are read
   * back as complete fields and scanning goes on after the comma. */
  lemma {:induction false} ScanRowThen(cells: seq<Cell>, more: string, done: seq<string>)
    requires |cells| >= 1 && SafeCells(cells)
    ensures Scan(RenderRow(cells) + "," + more, false, [], done) == Scan(more, false, [], done + CellTexts(cells))
    decreases |cells|
  {
    var c := cells[0];
    assert CellTexts(cells) == [CellText(c)] + CellTexts(cells[1..]);
    if |cells| == 1 {
      assert RenderRow(cells) + "," + more == RenderCell(c) + ("," + more);
      ScanCell(c, "," + more, done);
      ScanComma(more, CellText(c), done);
      assert CellTexts(cells) == [CellText(c)];
    } else {
      RenderRowUnfold(cells);
      var r := RenderRow(cells[1..]) + "," + more;
      assert RenderRow(cells) + "," + more == RenderCell(c) + ("," + r);
      ScanCell(c, "," + r, done);
      ScanComma(r, CellText(c), done);
      ScanRowThen(cells[1..], more, done + [CellText(c)]);
      assert done + [CellText(c)] + CellTexts(cells[1..]) == done + CellTexts(cells);
    }
  }

  lemma CellTextsCons(cells: seq<Cell>)
    requires |cells| >= 1
    ensures CellTexts(cells) == [CellText(cells[0])] + CellTexts(cells[1..])
  {
  }

  lemma SnocThenAppend(done: seq<string>, x: string, rest: seq<string>)
    ensures done + [x] + rest == done + ([x] + rest)
  {
  }

  lemma CommaSplit(a: string, r: string)
    ensures a + "," + r == a + ("," + r)
  {
  }

  /** A rendered row on its own is read back as exactly its cells' texts. */
  lemma {:induction false} ScanRow(cells: seq<Cell>, done: seq<string>)
    requires |cells| >= 1 && SafeCells(cells)
    ensures Scan(RenderRow(cells), false, [], done) == done + CellTexts(cells)
    decreases |cells|
  {
    var c := cells[0];
    CellTextsCons(cells);
    if |cells| == 1 {
      assert RenderRow(cells) == RenderCell(c) + [];
      assert CellTexts(cells[1..]) == [];
      ScanCell(c, [], done);
    } else {
      RenderRowUnfold(cells);
      var r := RenderRow(cells[1..]);
      CommaSplit(RenderCell(c), r);
      ScanCell(c, "," + r, done);
      ScanComma(r, CellText(c), done);
      assert SafeCells(cells[1..]) by {
        forall i | 0 <= i < |cells[1..]| ensures SafeCell(cells[1..][i]) {
          assert cells[1..][i] == cells[i + 1];
        }
      }
      ScanRow(cells[1..], done + [CellText(c)]);
      SnocThenAppend(done, CellText(c), CellTexts(cells[1..]));
    }
  }

  /** Tokenizing a row of blank, quoted and bare cells gives back each cell's
   * text, one field per cell, in order. */
  lemma RowRoundTrip(cells: seq<Cell>)
    requires |cells| >= 1 && SafeCells(cells)
    ensures Fields(RenderRow(cells)) == CellTexts(cells)
  {
    ScanRow(cells, []);
  }

  /** Every field quoted, with its quotes doubled, and the results joined with commas. */
  function QuotedLine(fields: seq<string>): string
  {
    Join(seq(|fields|, i requires 0 <= i < |fields| => Quote(fields[i])), ",")
  }

  /** Quote-free text is unchanged by quote doubling. */
  lemma {:induction false} EscapeQuoteFree(s: string)
    requires '"' !in s
    ensures EscapeQuotes(s) == s
    decreases |s|
  {
    if s != [] {
      EscapeQuoteFree(s[1..]);
      assert [s[0]] + s[1..] == s;
    }
  }

  /** Quote-then-parse: a non-empty list of fields, each quoted with its quotes
   * doubled and joined with commas, is tokenized back to the same list. */
  lemma QuoteRoundTrip(fields: seq<string>)
    requires |fields| >= 1
    ensures Fields(QuotedLine(fields)) == fields
  {
    var cells := seq(|fields|, i requires 0 <= i < |fields| => Quoted(fields[i]));
    assert RenderCells(cells) == seq(|fields|, i requires 0 <= i < |fields| => Quote(fields[i]));
    RowRoundTrip(cells);
    assert CellTexts(cells) == fields;
  }

  /** An unbalanced quote is tolerated: after a well-formed prefix of cells, a
   * comma and an opening quote that is never closed, the rest of the line,
   * commas included, becomes one last field. */
  lemma UnbalancedQuoteTolerated(cells: seq<Cell>, tail: string)
    requires |cells| >= 1 && SafeCells(cells) && '"' !in tail
    ensures Fields(RenderRow(cells) + ",\"" + tail) == CellTexts(cells) + [tail]
  {
    var line := RenderRow(cells) + ",\"" + tail;
    assert line == RenderRow(cells) + "," + ("\"" + tail);
    ScanRowThen(cells, "\"" + tail, []);
    ScanOpenQuote(tail, [], [] + CellTexts(cells));
    ScanUnclosedQuote(tail, [], CellTexts(cells));
    assert [] + tail == tail;
    assert [] + CellTexts(cells) == CellTexts(cells);
  }

  lemma JoinThree(a: string, b: string, c: string)
    ensures Join([a, b, c], ",") == a + "," + b + "," + c
  {
    assert [a, b, c][1..] == [b, c];
    assert [b, c][1..] == [c];
    assert Join([b, c], ",") == b + "," + c;
    assert Join([a, b, c], ",") == a + "," + (b + "," + c);
  }

  lemma QuotedCommaRow()
    ensures RenderRow([Bare("a"), Quoted("b,c"), Bare("d")]) == "a,\"b,c\",d"
  {
    var cells := [Bare("a"), Quoted("b,c"), Bare("d")];
    var q := Quote("b,c");
    assert q == "\"b,c\"" by {
      EscapeQuoteFree("b,c");
    }
    assert RenderCells(cells) == ["a", q, "d"];
    assert RenderRow(cells) == "a" + "," + q + "," + "d" by {
      JoinThree("a", q, "d");
    }
  }

  /** A quoted comma stays inside its field. */
  lemma QuotedCommaExample()
    ensures Fields("a,\"b,c\",d") == ["a", "b,c", "d"]
  {
    var cells := [Bare("a"), Quoted("b,c"), Bare("d")];
    QuotedCommaRow();
    RowRoundTrip(cells);
    assert CellTexts(cells) == ["a", "b,c", "d"];
  }

  lemma DoubledQuoteRow()
    ensures RenderRow([Bare("a"), Quoted("b\"c"), Bare("d")]) == "a,\"b\"\"c\",d"
  {
    var cells := [Bare("a"), Quoted("b\"c"), Bare("d")];
    var q := Quote("b\"c");
    assert q == "\"b\"\"c\"" by {
      assert EscapeQuotes("b\"c") == "b\"\"c";
    }
    assert RenderCells(cells) == ["a", q, "d"];
    assert RenderRow(cells) == "a" + "," + q + "," + "d" by {
      JoinThree("a", q, "d");
    }
  }

  /** A doubled quote inside quotes is one literal quote. */
  lemma DoubledQuoteExample()
    ensures Fields("a,\"b\"\"c\",d") == ["a", "b\"c", "d"]
  {
    var cells := [Bare("a"), Quoted("b\"c"), Bare("d")];
    DoubledQuoteRow();
    RowRoundTrip(cells);
    assert CellTexts(cells) == ["a", "b\"c", "d"];
  }
}
