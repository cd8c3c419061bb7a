/**
 * The two converters of src/utils/conversion.ts composed: the CSV text
 * `jsonToCsv` writes, given back to `csvToJson`, yields one record per
 * element, keyed by the headers in order, each holding the type-inferred
 * text of the field that was written for it.
 */
module CsvRoundTrip {
  import opened Wrappers
  import opened Text
  import opened Seqs
  import opened JsonValue
  import opened CsvLine
  import CsvToJson
  import JsonToCsv

  predicate NoLineBreak(s: string)
  {
    '\n' !in s && '\r' !in s
  }

  /** The written text of the field for `header` in `item`. */
  function FieldText(item: Json, header: string, stringify: Json -> string): string
  {
    CellText(JsonToCsv.FieldCell(item, header, stringify))
  }

  /** At least one header, none with a quote (header quotes are not doubled)
   * or a line break. */
  predicate PlainHeaders(headers: seq<string>)
  {
    && |headers| >= 1
    && forall j :: 0 <= j < |headers| ==> '"' !in headers[j] && NoLineBreak(headers[j])
  }

  /** No line break in any written field. */
  predicate PlainFields(items: seq<Json>, headers: seq<string>, stringify: Json -> string)
  {
    forall k, j :: 0 <= k < |items| && 0 <= j < |headers| ==>
      NoLineBreak(FieldText(items[k], headers[j], stringify))
  }

  /** No row written as an empty line, which happens when the only column is
   * empty. */
  predicate NoEmptyRows(items: seq<Json>, headers: seq<string>, stringify: Json -> string)
  {
    |headers| >= 2 || (|headers| == 1 && forall k :: 0 <= k < |items| ==> JsonToCsv.FieldCell(items[k], headers[0], stringify).Quoted?)
  }

  /** What the round trip needs of the elements. */
  predicate Plain(items: seq<Json>, stringify: Json -> string)
  {
    var headers := JsonToCsv.Headers(items);
    PlainHeaders(headers) && PlainFields(items, headers, stringify) && NoEmptyRows(items, headers, stringify)
  }

  lemma {:induction false} EscapeQuotesExcludes(s: string, c: char)
    requires c != '"' && c !in s
    ensures c !in EscapeQuotes(s)
    decreases |s|
  {
    if s != [] {
      EscapeQuotesExcludes(s[1..], c);
    }
  }

  lemma RenderCellExcludes(cell: Cell, c: char)
    requires c != '"' && c !in CellText(cell)
    ensures c !in RenderCell(cell)
  {
    if cell.Quoted? {
      EscapeQuotesExcludes(cell.text, c);
    }
  }

  /** A rendered row of quoted or empty cells, not all of one empty cell,
   * starts and ends with a quote or a comma. */
  lemma {:induction false} RowEnds(cells: seq<Cell>)
    requires |cells| >= 1 && forall i :: 0 <= i < |cells| ==> !cells[i].Bare?
    requires |cells| >= 2 || cells[0].Quoted?
    ensures var row := RenderRow(cells); row != [] && row[0] in ",\"" && row[|row| - 1] in ",\""
    decreases |cells|
  {
    if |cells| == 1 {
      assert RenderRow(cells) == RenderCell(cells[0]);
    } else {
      RenderRowUnfold(cells);
      var first := RenderCell(cells[0]);
      var rest := RenderRow(cells[1..]);
      assert RenderRow(cells) == first + "," + rest;
      if |cells| >= 3 || cells[1].Quoted? {
        RowEnds(cells[1..]);
      } else {
        assert rest == RenderCell(cells[1]);
      }
    }
  }

  /** Every line of the table is free of line breaks. */
  lemma TableLinesUnbroken(items: seq<Json>, headers: seq<string>, stringify: Json -> string)
    requires PlainHeaders(headers) && PlainFields(items, headers, stringify)
    ensures forall i :: 0 <= i < 1 + |items| ==> NoLineBreak(JsonToCsv.TableLines(items, headers, stringify)[i])
  {
    var lines := JsonToCsv.TableLines(items, headers, stringify);
    HeaderLineUnbroken(headers);
    DataLinesUnbroken(items, headers, stringify);
    var d := JsonToCsv.DataLines(items, headers, stringify);
    assert lines == [lines[0]] + d;
  }

  lemma DataLinesUnbroken(items: seq<Json>, headers: seq<string>, stringify: Json -> string)
    requires PlainFields(items, headers, stringify)
    ensures forall k :: 0 <= k < |items| ==> NoLineBreak(JsonToCsv.DataLines(items, headers, stringify)[k])
  {
    forall k | 0 <= k < |items|
      ensures NoLineBreak(JsonToCsv.DataLines(items, headers, stringify)[k])
    {
      DataLineUnbroken(items, headers, stringify, k);
    }
  }

  lemma HeaderLineUnbroken(headers: seq<string>)
    requires PlainHeaders(headers)
    ensures NoLineBreak(JsonToCsv.HeaderLine(headers))
  {
    var quoted := seq(|headers|, j requires 0 <= j < |headers| => "\"" + headers[j] + "\"");
    assert JsonToCsv.HeaderLine(headers) == Join(quoted, ",");
    JoinExcludes(quoted, ",", '\n');
    JoinExcludes(quoted, ",", '\r');
  }

  lemma DataLineUnbroken(items: seq<Json>, headers: seq<string>, stringify: Json -> string, k: nat)
    requires PlainFields(items, headers, stringify) && k < |items|
    ensures NoLineBreak(JsonToCsv.DataLine(items[k], headers, stringify))
  {
    var cells := JsonToCsv.FieldCells(items[k], headers, stringify);
    forall j | 0 <= j < |cells|
      ensures NoLineBreak(RenderCells(cells)[j])
    {
      assert CellText(cells[j]) == FieldText(items[k], headers[j], stringify);
      RenderCellExcludes(cells[j], '\n');
      RenderCellExcludes(cells[j], '\r');
    }
    JoinExcludes(RenderCells(cells), ",", '\n');
    JoinExcludes(RenderCells(cells), ",", '\r');
  }

  predicate Unpadded(line: string)
  {
    line != [] && !IsSpace(line[0]) && !IsSpace(line[|line| - 1])
  }

  lemma HeaderLineUnpadded(headers: seq<string>)
    requires |headers| >= 1
    requires forall j :: 0 <= j < |headers| ==> '"' !in headers[j]
    ensures Unpadded(JsonToCsv.HeaderLine(headers))
  {
    HeaderRowShape(headers);
    RowEnds(seq(|headers|, j requires 0 <= j < |headers| => Quoted(headers[j])));
  }

  lemma DataLineUnpadded(item: Json, headers: seq<string>, stringify: Json -> string)
    requires |headers| >= 2 || (|headers| == 1 && JsonToCsv.FieldCell(item, headers[0], stringify).Quoted?)
    ensures Unpadded(JsonToCsv.DataLine(item, headers, stringify))
  {
    var cells := JsonToCsv.FieldCells(item, headers, stringify);
    assert forall i :: 0 <= i < |cells| ==> !cells[i].Bare?;
    RowEnds(cells);
    var row := RenderRow(cells);
    assert row == JsonToCsv.DataLine(item, headers, stringify);
    QuoteOrCommaNotSpace(row[0]);
    QuoteOrCommaNotSpace(row[|row| - 1]);
  }

  lemma QuoteOrCommaNotSpace(c: char)
    requires c in ",\""
    ensures !IsSpace(c)
  {
  }

  /** Every line of the table is kept by `csvToJson` and is its own trimming. */
  lemma TableLinesUnpadded(items: seq<Json>, headers: seq<string>, stringify: Json -> string)
    requires PlainHeaders(headers) && NoEmptyRows(items, headers, stringify)
    ensures forall i :: 0 <= i < 1 + |items| ==> Unpadded(JsonToCsv.TableLines(items, headers, stringify)[i])
  {
    var lines := JsonToCsv.TableLines(items, headers, stringify);
    HeaderLineUnpadded(headers);
    DataLinesUnpadded(items, headers, stringify);
    var d := JsonToCsv.DataLines(items, headers, stringify);
    assert lines == [lines[0]] + d;
  }

  lemma DataLinesUnpadded(items: seq<Json>, headers: seq<string>, stringify: Json -> string)
    requires NoEmptyRows(items, headers, stringify)
    ensures forall k :: 0 <= k < |items| ==> Unpadded(JsonToCsv.DataLines(items, headers, stringify)[k])
  {
    forall k | 0 <= k < |items|
      ensures Unpadded(JsonToCsv.DataLines(items, headers, stringify)[k])
    {
      DataLineUnpadded(items[k], headers, stringify);
    }
  }

  /** The header row read as a row of quoted cells. */
  lemma HeaderRowShape(headers: seq<string>)
    requires forall j :: 0 <= j < |headers| ==> '"' !in headers[j]
    ensures JsonToCsv.HeaderLine(headers) == RenderRow(seq(|headers|, j requires 0 <= j < |headers| => Quoted(headers[j])))
  {
    var cells := seq(|headers|, j requires 0 <= j < |headers| => Quoted(headers[j]));
    var quoted := seq(|headers|, j requires 0 <= j < |headers| => "\"" + headers[j] + "\"");
    forall j | 0 <= j < |headers|
      ensures RenderCells(cells)[j] == quoted[j]
    {
      EscapeQuoteFree(headers[j]);
    }
    assert RenderCells(cells) == quoted;
  }

  lemma NonBlankSnoc(init: seq<string>, last: string)
    ensures CsvToJson.NonBlank(init + [last]) ==
              CsvToJson.NonBlank(init) + (if Trim(last) != [] then [last] else [])
  {
    assert (init + [last])[..|init|] == init;
  }

  lemma SeqSnoc<T>(s: seq<T>)
    requires s != []
    ensures s[..|s| - 1] + [s[|s| - 1]] == s
  {
  }

  lemma {:induction false} NonBlankKeepsAll(lines: seq<string>)
    requires forall i :: 0 <= i < |lines| ==> Trim(lines[i]) != []
    ensures CsvToJson.NonBlank(lines) == lines
    decreases |lines|
  {
    if lines != [] {
      var init, last := lines[..|lines| - 1], lines[|lines| - 1];
      SeqSnoc(lines);
      NonBlankKeepsAll(init);
      NonBlankSnoc(init, last);
    }
  }

  lemma NonBlankDropsEmpty(lines: seq<string>)
    ensures CsvToJson.NonBlank(lines + [""]) == CsvToJson.NonBlank(lines)
  {
    assert (lines + [""])[..|lines|] == lines;
    assert Trim("") == "";
  }

  lemma SplitLinesWithoutReturns(s: string, lines: seq<string>)
    requires Split(s, '\n') == lines
    requires forall i :: 0 <= i < |lines| ==> '\r' !in lines[i]
    ensures CsvToJson.SplitLines(s) == lines
  {
    forall i | 0 <= i < |lines|
      ensures CsvToJson.SplitLines(s)[i] == lines[i]
    {
      if lines[i] != [] {
        assert lines[i][|lines[i]| - 1] in lines[i];
      }
    }
  }

  /** The lines `csvToJson` keeps from the table are exactly the table's lines. */
  lemma TableKeptLines(items: seq<Json>, stringify: Json -> string)
    requires Plain(items, stringify)
    ensures CsvToJson.NonBlankLines(JsonToCsv.Table(items, stringify))
      == JsonToCsv.TableLines(items, JsonToCsv.Headers(items), stringify)
  {
    var headers := JsonToCsv.Headers(items);
    var lines := JsonToCsv.TableLines(items, headers, stringify);
    var csv := JsonToCsv.Table(items, stringify);
    TableLinesUnbroken(items, headers, stringify);
    TableLinesUnpadded(items, headers, stringify);
    JsonToCsv.TableSplitsIntoLines(items, stringify);
    SplitLinesWithoutReturns(csv, lines + [""]);
    forall i | 0 <= i < |lines|
      ensures Trim(lines[i]) != []
    {
      TrimUnpadded(lines[i]);
    }
    NonBlankDropsEmpty(lines);
    NonBlankKeepsAll(lines);
  }

  /** The CSV text `jsonToCsv` writes for an array of objects, given to
   * `csvToJson`, yields one record per element, in element order: the header
   * row is read back as the headers, and each data row as the fields written
   * for the element, one per header. */
  lemma RoundTrip(items: seq<Json>, stringify: Json -> string, parseNumber: string -> Option<Number>)
    requires Plain(items, stringify)
    ensures var headers := JsonToCsv.Headers(items);
      var records := CsvToJson.Convert(JsonToCsv.Table(items, stringify), parseNumber);
      && |records| == |items|
      && forall k :: 0 <= k < |items| ==>
           records[k] == CsvToJson.RowRecord(headers, CellTexts(JsonToCsv.FieldCells(items[k], headers, stringify)), parseNumber)
  {
    var headers := JsonToCsv.Headers(items);
    var lines := JsonToCsv.TableLines(items, headers, stringify);
    var csv := JsonToCsv.Table(items, stringify);
    TableKeptLines(items, stringify);
    CsvToJson.RecordsOfLines(csv, parseNumber);
    JsonToCsv.HeaderRoundTrip(headers);
    TableLinesUnpadded(items, headers, stringify);
    forall k | 0 <= k < |items|
      ensures CsvToJson.Convert(csv, parseNumber)[k]
        == CsvToJson.RowRecord(headers, CellTexts(JsonToCsv.FieldCells(items[k], headers, stringify)), parseNumber)
    {
      var row := lines[k + 1];
      TrimUnpadded(row);
      assert row == lines[1..][k] == JsonToCsv.DataLine(items[k], headers, stringify);
      JsonToCsv.DataRowRoundTrip(items[k], headers, stringify);
    }
  }

  lemma RowTexts(item: Json, headers: seq<string>, stringify: Json -> string)
    ensures var texts := CellTexts(JsonToCsv.FieldCells(item, headers, stringify));
      |texts| == |headers| && forall j :: 0 <= j < |headers| ==> texts[j] == FieldText(item, headers[j], stringify)
  {
  }

  /** So each record has exactly the headers as keys, in order, and under
   * each header the inferred value of the text written for it: empty for a
   * missing key or `null`, the `JSON.stringify` text of an object or an
   * array, and `String(value)` of anything else. A key named `__proto__` is
   * written but not read back (CsvToJson.ProtoHeaderIgnored), so it is
   * excluded here. */
  lemma RoundTripRecords(items: seq<Json>, stringify: Json -> string, parseNumber: string -> Option<Number>, k: nat)
    requires Plain(items, stringify) && k < |items|
    requires CsvToJson.Proto !in JsonToCsv.Headers(items)
    ensures var headers := JsonToCsv.Headers(items);
      var records := CsvToJson.Convert(JsonToCsv.Table(items, stringify), parseNumber);
      && |records| == |items|
      && records[k].keys == headers
      && forall j :: 0 <= j < |headers| ==>
           headers[j] in records[k].values &&
           records[k].values[headers[j]] == CsvToJson.Infer(FieldText(items[k], headers[j], stringify), parseNumber)
  {
    var headers := JsonToCsv.Headers(items);
    var texts := CellTexts(JsonToCsv.FieldCells(items[k], headers, stringify));
    var records := CsvToJson.Convert(JsonToCsv.Table(items, stringify), parseNumber);
    assert |records| == |items| && records[k] == CsvToJson.RowRecord(headers, texts, parseNumber) by {
      RoundTrip(items, stringify, parseNumber);
    }
    RowTexts(items[k], headers, stringify);
    CsvToJson.ZipRecord(headers, texts, parseNumber);
  }

  /** Why the round trip excludes empty rows: `[{"a": null}]` is written as a
   * header line and an empty data line, and the empty line is dropped when the
   * table is read back, so no record comes back. */
  lemma NullOnlyColumnLost(stringify: Json -> string, parseNumber: string -> Option<Number>)
    ensures JsonToCsv.Table([JObject([("a", JNull)])], stringify) == "\"a\"\n\n"
    ensures CsvToJson.Convert("\"a\"\n\n", parseNumber) == []
  {
    NullOnlyRowWritten(stringify);
    var head := "\"a\"";
    assert head + "\n\n" == "\"a\"\n\n";
    HeaderThenBlanks(head);
  }

  lemma NullOnlyRowWritten(stringify: Json -> string)
    ensures JsonToCsv.Table([JObject([("a", JNull)])], stringify) == "\"a\"\n\n"
  {
    var items := [JObject([("a", JNull)])];
    assert JsonToCsv.TableLines(items, JsonToCsv.Headers(items), stringify) == ["\"a\"", ""] by {
      NullOnlyTableLines(stringify);
    }
    TwoLineTable(items, stringify, "\"a\"", "");
    assert "\"a\"" + "\n" + "" + "\n" == "\"a\"\n\n";
  }

  lemma TwoLineTable(items: seq<Json>, stringify: Json -> string, x: string, y: string)
    requires JsonToCsv.TableLines(items, JsonToCsv.Headers(items), stringify) == [x, y]
    ensures JsonToCsv.Table(items, stringify) == x + "\n" + y + "\n"
  {
    TerminatedPair(x, y);
  }

  lemma NullOnlyTableLines(stringify: Json -> string)
    ensures JsonToCsv.TableLines([JObject([("a", JNull)])], ["a"], stringify) == ["\"a\"", ""]
    ensures JsonToCsv.Headers([JObject([("a", JNull)])]) == ["a"]
  {
    var items := [JObject([("a", JNull)])];
    SingleKeyHeaders();
    var lines := JsonToCsv.TableLines(items, ["a"], stringify);
    assert lines[0] == "\"a\"" by {
      SingleHeaderLine();
    }
    assert lines[1] == "" by {
      assert lines[1..][0] == lines[1];
      NullOnlyDataLine(stringify);
    }
  }

  lemma SingleKeyHeaders()
    ensures JsonToCsv.Headers([JObject([("a", JNull)])]) == ["a"]
  {
    var item := JObject([("a", JNull)]);
    assert Keys(item) == ["a"];
    assert JsonToCsv.KeyLists([item]) == [["a"]];
    assert Flatten([["a"]]) == Flatten([]) + ["a"];
    assert Dedup(["a"]) == Dedup([]) + ["a"];
  }

  lemma SingleHeaderLine()
    ensures JsonToCsv.HeaderLine(["a"]) == "\"a\""
  {
    var headers := ["a"];
    var quoted := seq(|headers|, i requires 0 <= i < |headers| => "\"" + headers[i] + "\"");
    assert "\"" + headers[0] + "\"" == "\"a\"";
    assert quoted == ["\"a\""];
    assert Join(quoted, ",") == "\"a\"";
  }

  lemma NullOnlyDataLine(stringify: Json -> string)
    ensures JsonToCsv.DataLines([JObject([("a", JNull)])], ["a"], stringify)[0] == ""
  {
    var item := JObject([("a", JNull)]);
    assert Keys(item) == ["a"];
    assert Members(item) == [("a", JNull)];
    assert Lookup(item, "a") == Some(JNull);
    var cells := JsonToCsv.FieldCells(item, ["a"], stringify);
    assert cells == [Blank];
    assert RenderCells(cells) == [""];
    assert Join([""], ",") == "";
    assert JsonToCsv.DataLine(item, ["a"], stringify) == RenderRow(cells);
  }

  lemma TerminatedPair(x: string, y: string)
    ensures ConcatAll(Terminated([x, y])) == x + "\n" + y + "\n"
  {
    var t := Terminated([x, y]);
    assert t == [x + "\n", y + "\n"];
    assert t[1..] == [y + "\n"];
    assert [y + "\n"][1..] == [];
    assert ConcatAll(t[1..]) == y + "\n" + ConcatAll([]);
  }

  /** A header line followed by two newlines reads back as that line alone:
   * the empty data line and the piece after the final newline are dropped. */
  lemma HeaderThenBlanks(head: string)
    requires '\n' !in head && '\r' !in head && Trim(head) != []
    ensures CsvToJson.NonBlankLines(head + "\n\n") == [head]
  {
    var lines := [head, "", ""];
    assert CsvToJson.SplitLines(head + "\n\n") == lines by {
      SplitHeaderBlanks(head);
    }
    assert CsvToJson.NonBlank(lines) == [head] by {
      NonBlankHeaderBlanks(head);
    }
  }

  lemma SplitHeaderBlanks(head: string)
    requires '\n' !in head && '\r' !in head
    ensures CsvToJson.SplitLines(head + "\n\n") == [head, "", ""]
  {
    var text := head + "\n\n";
    var lines := [head, "", ""];
    assert Split(text, '\n') == lines by {
      TerminatedPair(head, "");
      assert head + "\n" + "" + "\n" == text;
      SplitTerminatedLines([head, ""]);
      assert [head, ""] + [[]] == lines;
    }
    assert forall i :: 0 <= i < |lines| ==> '\r' !in lines[i];
    SplitLinesWithoutReturns(text, lines);
  }

  lemma NonBlankHeaderBlanks(head: string)
    requires Trim(head) != []
    ensures CsvToJson.NonBlank([head, "", ""]) == [head]
  {
    NonBlankSnoc([], head);
    assert [] + [head] == [head];
    NonBlankDropsEmpty([head]);
    assert [head] + [""] == [head, ""];
    NonBlankDropsEmpty([head, ""]);
    assert [head, ""] + [""] == [head, "", ""];
  }

  lemma {:induction false} ConcatBlank(ss: seq<string>)
    requires forall i :: 0 <= i < |ss| ==> IsBlank(ss[i])
    ensures IsBlank(ConcatAll(ss))
    decreases |ss|
  {
    if ss != [] {
      ConcatBlank(ss[1..]);
      var rest := ConcatAll(ss[1..]);
      assert ConcatAll(ss) == ss[0] + rest;
      forall i | 0 <= i < |ss[0] + rest|
        ensures IsSpace((ss[0] + rest)[i])
      {
        if i >= |ss[0]| {
          assert (ss[0] + rest)[i] == rest[i - |ss[0]|];
        }
      }
    }
  }

  /** Elements with no keys at all (`[{}]`, `[[], {}]`) are written as empty
   * lines only, which `csvToJson` discards: no record comes back. */
  lemma NoHeadersNoRecords(items: seq<Json>, stringify: Json -> string, parseNumber: string -> Option<Number>)
    requires JsonToCsv.Headers(items) == []
    ensures CsvToJson.Convert(JsonToCsv.Table(items, stringify), parseNumber) == []
  {
    var lines := JsonToCsv.TableLines(items, [], stringify);
    var terminated := Terminated(lines);
    forall i | 0 <= i < |terminated|
      ensures IsBlank(terminated[i])
    {
      if i > 0 {
        assert lines[i] == lines[1..][i - 1];
        assert JsonToCsv.FieldCells(items[i - 1], [], stringify) == [];
      }
      assert lines[i] == "";
    }
    ConcatBlank(terminated);
    CsvToJson.BlankInputNoRecords(JsonToCsv.Table(items, stringify), parseNumber);
  }
}
