/**
 * `jsonToCsv` (src/utils/conversion.ts): a JSON array of objects to CSV text.
 * The input is validated in a fixed order; the header row lists every key of
 * every element once, in order of first appearance; each element gives one
 * row with one field per header.
 */
module JsonToCsv {
  import opened Wrappers
  import opened Text
  import opened Seqs
  import opened JsonValue
  import opened CsvLine

  /** The `{ csv, error }` pair; `None` stands for `null`. */
  datatype CsvResult = CsvResult(csv: Option<string>, error: Option<string>)

  const NotAnArray: string := "JSON must be an array of objects"
  const NotAllObjects: string := "All items in the JSON array must be objects"

  /** `Object.keys` of each element, in element order. */
  function KeyLists(items: seq<Json>): (r: seq<seq<string>>)
    ensures |r| == |items|
    ensures forall i :: 0 <= i < |items| ==> r[i] == Keys(items[i])
  {
    seq(|items|, i requires 0 <= i < |items| => Keys(items[i]))
  }

  /** The header list: every key added to an insertion-ordered set, element
   * by element and key by key. */
  function Headers(items: seq<Json>): (headers: seq<string>)
    ensures Distinct(headers)
  {
    Dedup(Flatten(KeyLists(items)))
  }

  /** The header row: each name between quotes, its own quotes NOT doubled. */
  function HeaderLine(headers: seq<string>): string
  {
    Join(seq(|headers|, i requires 0 <= i < |headers| => "\"" + headers[i] + "\""), ",")
  }

  /** The field written for `item[header]`: nothing for a missing key or
   * `null`; the quoted `JSON.stringify` text of an object or an array; the
   * quoted `String(value)` of anything else. Quoting doubles inner quotes. */
  function FieldCell(item: Json, header: string, stringify: Json -> string): (c: Cell)
    ensures !c.Bare?
    ensures c.Blank? <==> Lookup(item, header).None? || Lookup(item, header) == Some(JNull)
    ensures c.Quoted? && IsObjectLike(Lookup(item, header).value) ==> c.text == stringify(Lookup(item, header).value)
    ensures c.Quoted? && !IsObjectLike(Lookup(item, header).value) ==> c.text == ScalarText(Lookup(item, header).value)
  {
    match Lookup(item, header)
    case None => Blank
    case Some(v) =>
      if v.JNull? then Blank
      else if IsObjectLike(v) then Quoted(stringify(v))
      else Quoted(ScalarText(v))
  }

  function FieldCells(item: Json, headers: seq<string>, stringify: Json -> string): (cells: seq<Cell>)
    ensures |cells| == |headers|
    ensures forall i :: 0 <= i < |headers| ==> cells[i] == FieldCell(item, headers[i], stringify)
  {
    seq(|headers|, i requires 0 <= i < |headers| => FieldCell(item, headers[i], stringify))
  }

  /** The data row of one element. */
  function DataLine(item: Json, headers: seq<string>, stringify: Json -> string): string
  {
    RenderRow(FieldCells(item, headers, stringify))
  }

  function DataLines(items: seq<Json>, headers: seq<string>, stringify: Json -> string): (rows: seq<string>)
    ensures |rows| == |items|
    ensures forall k :: 0 <= k < |items| ==> rows[k] == DataLine(items[k], headers, stringify)
  {
    seq(|items|, k requires 0 <= k < |items| => DataLine(items[k], headers, stringify))
  }

  /** The lines of the table under the given headers: the header row, then
   * one row per element, in element order. */
  function TableLines(items: seq<Json>, headers: seq<string>, stringify: Json -> string): (lines: seq<string>)
    ensures |lines| == 1 + |items|
    ensures lines[0] == HeaderLine(headers)
    ensures lines[1..] == DataLines(items, headers, stringify)
  {
    [HeaderLine(headers)] + DataLines(items, headers, stringify)
  }

  /** The CSV text: every line followed by a newline. */
  function Table(items: seq<Json>, stringify: Json -> string): string
  {
    ConcatAll(Terminated(TableLines(items, Headers(items), stringify)))
  }

  /** What `jsonToCsv` returns. Exactly one of `csv` and `error` is present. */
  function Convert(jsonString: string, parse: string -> Parsed, stringify: Json -> string): (r: CsvResult)
    ensures r.csv.Some? != r.error.Some?
  {
    match parse(jsonString)
    case SyntaxError(message) => CsvResult(None, Some(message))
    case Parsed(data) =>
      if !data.JArray? then CsvResult(None, Some(NotAnArray))
      else if |data.elems| == 0 then CsvResult(Some(""), None)
      else if exists i :: 0 <= i < |data.elems| && !IsObjectLike(data.elems[i]) then CsvResult(None, Some(NotAllObjects))
      else CsvResult(Some(Table(data.elems, stringify)), None)
  }

  /** `jsonToCsv`: validate, collect the headers into an insertion-ordered
   * set, then append the header row and one row per element. */
  method JsonToCsv(jsonString: string, parse: string -> Parsed, stringify: Json -> string) returns (result: CsvResult)
    ensures result == Convert(jsonString, parse, stringify)
  {
    var parsed := parse(jsonString);
    if parsed.SyntaxError? {
      return CsvResult(None, Some(parsed.message));
    }
    var data := parsed.value;
    if !data.JArray? {
      return CsvResult(None, Some(NotAnArray));
    }
    var items := data.elems;
    if |items| == 0 {
      return CsvResult(Some(""), None);
    }
    var allObjects := AllObjects(items);
    if !allObjects {
      return CsvResult(None, Some(NotAllObjects));
    }
    var headers := CollectHeaders(items);
    var csv := WriteTable(items, headers, stringify);
    return CsvResult(Some(csv), None);
  }

  /** `!jsonData.some(item => typeof item !== 'object' || item === null)`. */
  method AllObjects(items: seq<Json>) returns (ok: bool)
    ensures ok <==> forall k :: 0 <= k < |items| ==> IsObjectLike(items[k])
  {
    var i := 0;
    while i < |items|
      invariant 0 <= i <= |items|
      invariant forall k :: 0 <= k < i ==> IsObjectLike(items[k])
    {
      if !IsObjectLike(items[i]) {
        return false;
      }
      i := i + 1;
    }
    return true;
  }

  /** The header row and then `csv += row + '\n'` for each element. */
  method WriteTable(items: seq<Json>, headers: seq<string>, stringify: Json -> string) returns (csv: string)
    ensures csv == ConcatAll(Terminated(TableLines(items, headers, stringify)))
  {
    csv := HeaderLine(headers) + "\n";
    var i := 0;
    TableLinesEmpty(items, headers, stringify);
    while i < |items|
      invariant 0 <= i <= |items|
      invariant csv == ConcatAll(Terminated(TableLines(items[..i], headers, stringify)))
    {
      var row := DataLine(items[i], headers, stringify);
      AppendLine(TableLines(items[..i], headers, stringify), row);
      TableLinesStep(items, i, headers, stringify);
      csv := csv + row + "\n";
      i := i + 1;
    }
    assert items[..i] == items;
  }

  lemma TableLinesEmpty(items: seq<Json>, headers: seq<string>, stringify: Json -> string)
    ensures ConcatAll(Terminated(TableLines(items[..0], headers, stringify))) == HeaderLine(headers) + "\n"
  {
    assert TableLines(items[..0], headers, stringify) == [HeaderLine(headers)];
    AppendLine([], HeaderLine(headers));
    assert [] + [HeaderLine(headers)] == [HeaderLine(headers)];
  }

  /** One more element adds its row at the end of the table. */
  lemma TableLinesStep(items: seq<Json>, i: nat, headers: seq<string>, stringify: Json -> string)
    requires i < |items|
    ensures TableLines(items[..i + 1], headers, stringify) ==
              TableLines(items[..i], headers, stringify) + [DataLine(items[i], headers, stringify)]
  {
    var a, b := TableLines(items[..i + 1], headers, stringify), TableLines(items[..i], headers, stringify);
    var row := DataLine(items[i], headers, stringify);
    assert |a| == |b + [row]|;
    forall k | 0 <= k < |a|
      ensures a[k] == (b + [row])[k]
    {
      if k > 0 {
        assert a[k] == a[1..][k - 1];
        if k < |a| - 1 {
          assert b[k] == b[1..][k - 1];
        }
      }
    }
  }

  /** The `Set` of headers filled by the nested `forEach`. */
  method CollectHeaders(items: seq<Json>) returns (headers: seq<string>)
    ensures headers == Headers(items)
  {
    headers := [];
    var i := 0;
    while i < |items|
      invariant 0 <= i <= |items|
      invariant headers == Dedup(Flatten(KeyLists(items[..i])))
    {
      var seen := Flatten(KeyLists(items[..i]));
      headers := AddKeys(headers, seen, Keys(items[i]));
      KeyListsStep(items, i);
      i := i + 1;
    }
    assert items[..i] == items;
  }

  /** The inner `forEach`: one element's keys added to the set in order. */
  method AddKeys(headers: seq<string>, ghost seen: seq<string>, keys: seq<string>) returns (added: seq<string>)
    requires headers == Dedup(seen)
    ensures added == Dedup(seen + keys)
  {
    added := headers;
    var k := 0;
    assert seen + keys[..0] == seen;
    while k < |keys|
      invariant 0 <= k <= |keys|
      invariant added == Dedup(seen + keys[..k])
    {
      ghost var before := seen + keys[..k];
      DedupSnoc(before, keys[k]);
      if keys[k] !in added {
        added := added + [keys[k]];
      }
      assert added == Dedup(before + [keys[k]]);
      assert before + [keys[k]] == seen + keys[..k + 1];
      k := k + 1;
    }
    assert keys[..k] == keys;
  }

  lemma KeyListsStep(items: seq<Json>, i: nat)
    requires i < |items|
    ensures Flatten(KeyLists(items[..i + 1])) == Flatten(KeyLists(items[..i])) + Keys(items[i])
  {
    assert KeyLists(items[..i + 1]) == KeyLists(items[..i]) + [Keys(items[i])];
    FlattenSnoc(KeyLists(items[..i]), Keys(items[i]));
  }

  lemma AppendLine(lines: seq<string>, row: string)
    ensures ConcatAll(Terminated(lines + [row])) == ConcatAll(Terminated(lines)) + row + "\n"
  {
    assert Terminated(lines + [row]) == Terminated(lines) + [row + "\n"];
    ConcatAllAppend(Terminated(lines), row + "\n");
  }

  /** The outcome in each case, in the order the checks are made: a parse
   * error passes its message through; a non-array is refused; an empty array
   * gives empty text; an array with a `null` or non-object element is refused;
   * anything else gives the table. */
  lemma Outcomes(jsonString: string, parse: string -> Parsed, stringify: Json -> string)
    ensures parse(jsonString).SyntaxError? ==>
      Convert(jsonString, parse, stringify) == CsvResult(None, Some(parse(jsonString).message))
    ensures parse(jsonString).Parsed? && !parse(jsonString).value.JArray? ==>
      Convert(jsonString, parse, stringify) == CsvResult(None, Some(NotAnArray))
    ensures parse(jsonString) == Parsed(JArray([])) ==>
      Convert(jsonString, parse, stringify) == CsvResult(Some(""), None)
    ensures forall items: seq<Json> | parse(jsonString) == Parsed(JArray(items)) && items != [] ::
      Convert(jsonString, parse, stringify) ==
        if forall i :: 0 <= i < |items| ==> IsObjectLike(items[i])
        then CsvResult(Some(Table(items, stringify)), None)
        else CsvResult(None, Some(NotAllObjects))
  {
  }

  /** Every key of every element is a header, and every header is a key of
   * some element. */
  lemma HeadersAreAllKeys(items: seq<Json>, key: string)
    ensures key in Headers(items) <==> exists i :: 0 <= i < |items| && key in Keys(items[i])
  {
    FlattenMember(KeyLists(items), key);
    if exists i :: 0 <= i < |items| && key in Keys(items[i]) {
      var i :| 0 <= i < |items| && key in Keys(items[i]);
      assert key in KeyLists(items)[i];
    }
  }

  /** The headers appear in the order their keys are first met, scanning the
   * elements in order and each element's keys in order. */
  lemma HeadersFirstSeenOrder(items: seq<Json>, i: nat, j: nat)
    requires i < j < |Headers(items)|
    ensures FirstIndex(Flatten(KeyLists(items)), Headers(items)[i])
      < FirstIndex(Flatten(KeyLists(items)), Headers(items)[j])
  {
    DedupFirstSeenOrder(Flatten(KeyLists(items)), i, j);
  }

  /** With no newline in any line, the text splits into the header row, the
   * data rows in element order, and the empty piece after the final newline. */
  lemma TableSplitsIntoLines(items: seq<Json>, stringify: Json -> string)
    requires forall k :: 0 <= k < 1 + |items| ==> '\n' !in TableLines(items, Headers(items), stringify)[k]
    ensures Split(Table(items, stringify), '\n') == TableLines(items, Headers(items), stringify) + [""]
  {
    SplitTerminatedLines(TableLines(items, Headers(items), stringify));
  }

  /** Read back with `parseCSVLine`, the header row gives the headers,
   * provided none of them contains a quote. */
  lemma HeaderRoundTrip(headers: seq<string>)
    requires |headers| >= 1
    requires forall i :: 0 <= i < |headers| ==> '"' !in headers[i]
    ensures Fields(HeaderLine(headers)) == headers
  {
    var quoted := seq(|headers|, i requires 0 <= i < |headers| => "\"" + headers[i] + "\"");
    var escaped := seq(|headers|, i requires 0 <= i < |headers| => Quote(headers[i]));
    forall i | 0 <= i < |headers|
      ensures quoted[i] == escaped[i]
    {
      EscapeQuoteFree(headers[i]);
    }
    assert quoted == escaped;
    QuoteRoundTrip(headers);
  }

  /** A header with a quote inside does not survive: `a"b` is written as
   * `"a"b"` and reads back as `ab`. */
  lemma UnescapedHeaderExample()
    ensures HeaderLine(["a\"b"]) == "\"a\"b\""
    ensures Fields(HeaderLine(["a\"b"])) == ["ab"]
  {
    assert HeaderLine(["a\"b"]) == "\"a\"b\"";
    var line := "\"a\"b\"";
    assert line == "\"" + "a\"b\"";
    ScanOpenQuote("a\"b\"", [], []);
    assert "a\"b\"" == ['a'] + "\"b\"";
    ScanText('a', "\"b\"", true, [], []);
    assert [] + ['a'] == "a";
    assert "\"b\"" == "\"" + "b\"";
    ScanCloseQuote("b\"", "a", []);
    assert "b\"" == ['b'] + "\"";
    ScanText('b', "\"", false, "a", []);
    assert "a" + ['b'] == "ab";
    assert "\"" == "\"" + "";
    ScanOpenQuote("", "ab", []);
    assert Scan("", true, "ab", []) == ["ab"];
    assert Scan(line, false, [], []) == ["ab"];
    assert Fields(line) == ["ab"];
  }

  /** Read back with `parseCSVLine`, a data row gives one field per header, in
   * header order: empty for a missing key or `null`, otherwise the text that
   * was quoted. */
  lemma DataRowRoundTrip(item: Json, headers: seq<string>, stringify: Json -> string)
    requires |headers| >= 1
    ensures Fields(DataLine(item, headers, stringify)) == CellTexts(FieldCells(item, headers, stringify))
  {
    var cells := FieldCells(item, headers, stringify);
    assert SafeCells(cells);
    RowRoundTrip(cells);
  }
}
