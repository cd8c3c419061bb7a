/**
 * `csvToJson` (src/utils/conversion.ts): CSV text to a sequence of records.
 * The first non-blank line names the fields; every later non-blank line,
 * trimmed and tokenized, gives one record whose values are type-inferred.
 * The result is the record sequence itself; its `JSON.stringify` text is not
 * part of this model.
 */
module CsvToJson {
  import opened Wrappers
  import opened Text
  import opened Seqs
  import opened JsonValue
  import opened CsvLine

  /** A carriage return that ends a line belongs to the line break. */
  function DropCarriageReturn(p: string): (r: string)
    ensures r == p || p == r + "\r"
    ensures r != p <==> p != [] && p[|p| - 1] == '\r'
  {
    if p != [] && p[|p| - 1] == '\r' then p[..|p| - 1] else p
  }

  /** `split(/\r?\n/)`: the pieces between newlines, each without the carriage
   * return that precedes its newline. */
  function SplitLines(s: string): (lines: seq<string>)
    ensures |lines| == |Split(s, '\n')|
    ensures forall i :: 0 <= i < |lines| ==> '\n' !in lines[i]
    ensures forall i :: 0 <= i < |lines| - 1 ==> lines[i] == DropCarriageReturn(Split(s, '\n')[i])
    ensures lines[|lines| - 1] == Split(s, '\n')[|lines| - 1]
  {
    var parts := Split(s, '\n');
    seq(|parts|, i requires 0 <= i < |parts| =>
      if i < |parts| - 1 then DropCarriageReturn(parts[i]) else parts[i])
  }

  /** `.filter(line => line.trim())`: the lines that keep something after trimming. */
  function NonBlank(lines: seq<string>): (kept: seq<string>)
    ensures |kept| <= |lines|
    ensures forall x :: x in kept <==> x in lines && Trim(x) != []
    decreases |lines|
  {
    if lines == [] then []
    else
      var last := lines[|lines| - 1];
      NonBlank(lines[..|lines| - 1]) + (if Trim(last) != [] then [last] else [])
  }

  /** The non-blank lines of a CSV text, in order. */
  function NonBlankLines(csv: string): seq<string>
  {
    NonBlank(SplitLines(csv))
  }

  /** The ordered type inference applied to each raw field. `parseNumber`
   * stands for `Number(value)`, with `None` for NaN. */
  function Infer(value: string, parseNumber: string -> Option<Number>): (v: Json)
    ensures !IsObjectLike(v)
  {
    if value == "" then JString("")
    else if parseNumber(value).Some? && Trim(value) != "" then JNumber(parseNumber(value).value)
    else if AsciiLower(value) == "true" then JBool(true)
    else if AsciiLower(value) == "false" then JBool(false)
    else if AsciiLower(value) == "null" then JNull
    else JString(value)
  }

  /** The inference rules in priority order: the empty string stays a string;
   * a value that is not all whitespace and reads as a number becomes that
   * number; otherwise `true`/`false` in any letter case become booleans and
   * `null` in any letter case becomes null; any other text is kept as it is.
   * Comparing `toLowerCase()` with `true`, `false` and `null` is exactly
   * comparing the ASCII lower-casing, since no other character lower-cases to
   * one of their letters. */
  lemma InferPriority(value: string, parseNumber: string -> Option<Number>)
    ensures var v := Infer(value, parseNumber);
      && (value == "" ==> v == JString(""))
      && (v.JNumber? <==> !IsBlank(value) && parseNumber(value).Some?)
      && (v.JNumber? ==> Some(v.n) == parseNumber(value))
      && (v.JBool? <==> value != "" && !v.JNumber? && (AsciiLower(value) == "true" || AsciiLower(value) == "false"))
      && (v.JBool? ==> v.b == (AsciiLower(value) == "true"))
      && (v.JNull? <==> value != "" && !v.JNumber? && AsciiLower(value) == "null")
      && (v.JString? ==> v.s == value)
  {
    TrimEmptyIffBlank(value);
  }

  /** The one property name a fresh `{}` inherits with a setter: assigning to
   * it goes to `Object.prototype`'s accessor instead of creating a key. */
  const Proto: string := "__proto__"

  /** A JavaScript object built by property assignment: its keys in insertion
   * order, the value each key holds, and whether its prototype chain still
   * holds the `__proto__` accessor (it is cut when that accessor is given `null`). */
  datatype Record = Record(keys: seq<string>, values: map<string, Json>, inherits: bool)

  predicate ValidRecord(r: Record)
  {
    && Distinct(r.keys)
    && (forall i :: 0 <= i < |r.keys| ==> r.keys[i] in r.values)
    && (forall k :: k in r.values ==> k in r.keys)
  }

  /** `object[key] = value`: a new key goes last; an existing key keeps its
   * place and takes the new value. While the prototype chain holds the
   * `__proto__` accessor, assigning to that name creates no key: the setter
   * ignores a string, number or boolean and makes the prototype `null` for
   * `null`, after which the name is an ordinary key. */
  function Assign(r: Record, key: string, value: Json): Record
  {
    if key == Proto && r.inherits then Record(r.keys, r.values, value != JNull)
    else Record(if key in r.keys then r.keys else r.keys + [key], r.values[key := value], r.inherits)
  }

  /** The value the `index`-th header receives: the inferred value of the
   * `index`-th field, or the empty string when the row is too short. */
  function ColumnValue(values: seq<string>, index: nat, parseNumber: string -> Option<Number>): Json
  {
    if index < |values| then Infer(values[index], parseNumber) else JString("")
  }

  /** The object after assigning the first `n` headers in order: its keys are
   * distinct, and the names holding a value are exactly its keys. */
  function BuildRecord(headers: seq<string>, values: seq<string>, parseNumber: string -> Option<Number>, n: nat): (r: Record)
    requires n <= |headers|
    ensures Distinct(r.keys)
    ensures forall k :: k in r.values <==> k in r.keys
  {
    if n == 0 then Record([], map[], true)
    else
      assert headers[..n][..n - 1] == headers[..n - 1];
      Assign(BuildRecord(headers, values, parseNumber, n - 1), headers[n - 1], ColumnValue(values, n - 1, parseNumber))
  }

  /** The record made from one row of values. */
  function RowRecord(headers: seq<string>, values: seq<string>, parseNumber: string -> Option<Number>): Record
  {
    BuildRecord(headers, values, parseNumber, |headers|)
  }

  /** One more header is one more assignment. */
  lemma BuildRecordStep(headers: seq<string>, values: seq<string>, parseNumber: string -> Option<Number>, n: nat)
    requires n < |headers|
    ensures BuildRecord(headers, values, parseNumber, n + 1)
      == Assign(BuildRecord(headers, values, parseNumber, n), headers[n], ColumnValue(values, n, parseNumber))
  {
  }

  /** The records of the data lines, skipping any line that trims to nothing. */
  function RowRecords(headers: seq<string>, lines: seq<string>, parseNumber: string -> Option<Number>): seq<Record>
    decreases |lines|
  {
    if lines == [] then []
    else
      var line := Trim(lines[|lines| - 1]);
      RowRecords(headers, lines[..|lines| - 1], parseNumber)
        + (if line == [] then [] else [RowRecord(headers, Fields(line), parseNumber)])
  }

  /** What `csvToJson` computes: no records without a non-blank line; otherwise
   * the untrimmed first line names the fields and each later line gives a record. */
  function Convert(csv: string, parseNumber: string -> Option<Number>): seq<Record>
  {
    var lines := NonBlankLines(csv);
    if |lines| == 0 then [] else RowRecords(Fields(lines[0]), lines[1..], parseNumber)
  }

  /** The body of the row loop: one assignment per header, in header order. */
  method MakeRecord(headers: seq<string>, values: seq<string>, parseNumber: string -> Option<Number>) returns (r: Record)
    ensures r == RowRecord(headers, values, parseNumber)
  {
    var keys: seq<string> := [];
    var props: map<string, Json> := map[];
    var inherits := true;
    var j := 0;
    while j < |headers|
      invariant 0 <= j <= |headers|
      invariant Record(keys, props, inherits) == BuildRecord(headers, values, parseNumber, j)
    {
      var value := ColumnValue(values, j, parseNumber);
      ghost var before := Record(keys, props, inherits);
      if headers[j] == Proto && inherits {
        inherits := value != JNull;
      } else {
        if headers[j] !in keys {
          keys := keys + [headers[j]];
        }
        props := props[headers[j] := value];
      }
      assert Record(keys, props, inherits) == Assign(before, headers[j], value);
      BuildRecordStep(headers, values, parseNumber, j);
      j := j + 1;
    }
    r := Record(keys, props, inherits);
  }

  lemma RowRecordsStep(headers: seq<string>, lines: seq<string>, parseNumber: string -> Option<Number>, i: nat)
    requires i < |lines|
    ensures RowRecords(headers, lines[..i + 1], parseNumber)
      == RowRecords(headers, lines[..i], parseNumber)
        + (if Trim(lines[i]) == [] then [] else [RowRecord(headers, Fields(Trim(lines[i])), parseNumber)])
  {
    assert lines[..i + 1][..i] == lines[..i];
  }

  /** `csvToJson`. It cannot fail: nothing it does on a string throws, so its
   * error result is never produced. */
  method CsvToJson(csv: string, parseNumber: string -> Option<Number>) returns (records: seq<Record>)
    ensures records == Convert(csv, parseNumber)
  {
    var lines := NonBlankLines(csv);
    if |lines| == 0 {
      return [];
    }
    var headers := ParseCsvLine(lines[0]);
    var rows := lines[1..];
    records := [];
    var i := 0;
    while i < |rows|
      invariant 0 <= i <= |rows|
      invariant records == RowRecords(headers, rows[..i], parseNumber)
    {
      RowRecordsStep(headers, rows, parseNumber, i);
      var line := Trim(rows[i]);
      if line != "" {
        var values := ParseCsvLine(line);
        var record := MakeRecord(headers, values, parseNumber);
        records := records + [record];
      }
      i := i + 1;
    }
    assert rows[..i] == rows;
  }

  /** A name other than the `n`-th is last seen where it was last seen before it. */
  lemma LastIndexBefore(headers: seq<string>, n: nat, x: string)
    requires 0 < n <= |headers| && x in headers[..n - 1] && headers[n - 1] != x
    ensures x in headers[..n] && LastIndex(headers[..n], x) == LastIndex(headers[..n - 1], x)
  {
    assert headers[..n][..n - 1] == headers[..n - 1];
  }

  /** Assigning headers one by one: each name holds the value of the LAST
   * column with that name among those assigned so far. */
  lemma {:induction false} BuildRecordValue(headers: seq<string>, values: seq<string>, parseNumber: string -> Option<Number>, n: nat, j: nat)
    requires j < n <= |headers| && headers[j] != Proto
    ensures headers[j] in BuildRecord(headers, values, parseNumber, n).values
    ensures BuildRecord(headers, values, parseNumber, n).values[headers[j]]
      == ColumnValue(values, LastIndex(headers[..n], headers[j]), parseNumber)
  {
    var prefix := headers[..n];
    var h := headers[n - 1];
    var prev := BuildRecord(headers, values, parseNumber, n - 1);
    var r := BuildRecord(headers, values, parseNumber, n);
    assert prefix[n - 1] == h;
    if headers[j] == h {
      assert r.values == prev.values[h := ColumnValue(values, n - 1, parseNumber)];
      assert LastIndex(prefix, h) == n - 1;
    } else {
      BuildRecordValue(headers, values, parseNumber, n - 1, j);
      LastIndexBefore(headers, n, headers[j]);
      assert r.values[headers[j]] == prev.values[headers[j]];
    }
  }

  /** Each record has the header names as keys, each once, in order of first
   * appearance, `__proto__` aside; a repeated name keeps its first place and
   * the value of its last column. */
  lemma RecordShape(headers: seq<string>, values: seq<string>, parseNumber: string -> Option<Number>)
    ensures ValidRecord(RowRecord(headers, values, parseNumber))
    ensures Proto !in headers ==> RowRecord(headers, values, parseNumber).keys == Dedup(headers)
    ensures forall j :: 0 <= j < |headers| && headers[j] != Proto ==>
      headers[j] in RowRecord(headers, values, parseNumber).values &&
      RowRecord(headers, values, parseNumber).values[headers[j]]
        == ColumnValue(values, LastIndex(headers, headers[j]), parseNumber)
  {
    assert headers[..|headers|] == headers;
    if Proto !in headers {
      assert NoNullProto(headers, values, parseNumber, |headers|);
      ProtoKeys(headers, values, parseNumber, |headers|);
    }
    forall j | 0 <= j < |headers| && headers[j] != Proto
      ensures headers[j] in RowRecord(headers, values, parseNumber).values
      ensures RowRecord(headers, values, parseNumber).values[headers[j]]
        == ColumnValue(values, LastIndex(headers, headers[j]), parseNumber)
    {
      BuildRecordValue(headers, values, parseNumber, |headers|, j);
    }
  }

  /** With distinct headers the values are zipped by position: the `j`-th header
   * gets the inferred `j`-th value, or the empty string past the end of a short
   * row. */
  lemma ZipByPosition(headers: seq<string>, values: seq<string>, parseNumber: string -> Option<Number>, j: nat)
    requires Distinct(headers) && j < |headers|
    ensures headers[j] != Proto ==>
      headers[j] in RowRecord(headers, values, parseNumber).values &&
      RowRecord(headers, values, parseNumber).values[headers[j]]
        == if j < |values| then Infer(values[j], parseNumber) else JString("")
    ensures headers[j] == Proto ==> Proto !in RowRecord(headers, values, parseNumber).keys
  {
    RecordShape(headers, values, parseNumber);
    if headers[j] != Proto {
      var k := LastIndex(headers, headers[j]);
      assert k == j;
    } else {
      ProtoOnce(headers, values, parseNumber, |headers|);
    }
  }

  /** A full row under distinct headers without `__proto__`: the record's keys
   * are the headers and each holds its own column's inferred value. */
  lemma ZipRecord(headers: seq<string>, values: seq<string>, parseNumber: string -> Option<Number>)
    requires Distinct(headers) && Proto !in headers && |values| == |headers|
    ensures RowRecord(headers, values, parseNumber).keys == headers
    ensures forall j :: 0 <= j < |headers| ==>
      headers[j] in RowRecord(headers, values, parseNumber).values &&
      RowRecord(headers, values, parseNumber).values[headers[j]] == Infer(values[j], parseNumber)
  {
    RecordShape(headers, values, parseNumber);
    DedupOfDistinct(headers);
    forall j | 0 <= j < |headers|
      ensures headers[j] in RowRecord(headers, values, parseNumber).values
      ensures RowRecord(headers, values, parseNumber).values[headers[j]] == Infer(values[j], parseNumber)
    {
      ZipByPosition(headers, values, parseNumber, j);
    }
  }

  /** While no `__proto__` column holds `null`, the prototype keeps its
   * accessor, so every assignment to that name is swallowed: the keys are the
   * other headers, each once, in order of first appearance. */
  predicate NoNullProto(headers: seq<string>, values: seq<string>, parseNumber: string -> Option<Number>, n: nat)
    requires n <= |headers|
  {
    forall j :: 0 <= j < n && headers[j] == Proto ==> ColumnValue(values, j, parseNumber) != JNull
  }

  lemma {:induction false} ProtoKeys(headers: seq<string>, values: seq<string>, parseNumber: string -> Option<Number>, n: nat)
    requires n <= |headers| && NoNullProto(headers, values, parseNumber, n)
    ensures BuildRecord(headers, values, parseNumber, n).inherits
    ensures BuildRecord(headers, values, parseNumber, n).keys == Dedup(Remove(headers[..n], Proto))
  {
    if n > 0 {
      var h := headers[n - 1];
      var value := ColumnValue(values, n - 1, parseNumber);
      assert NoNullProto(headers, values, parseNumber, n - 1);
      ProtoKeys(headers, values, parseNumber, n - 1);
      BuildRecordStep(headers, values, parseNumber, n - 1);
      RemovePrefixSnoc(headers, n, Proto);
      ProtoKeysStep(BuildRecord(headers, values, parseNumber, n - 1), h, value, Remove(headers[..n - 1], Proto));
    }
  }

  /** One assignment while the accessor is in place: `__proto__` with a
   * non-null value changes nothing; any other name is added if new. */
  lemma ProtoKeysStep(prev: Record, h: string, value: Json, before: seq<string>)
    requires prev.inherits && prev.keys == Dedup(before)
    requires h == Proto ==> value != JNull
    ensures Assign(prev, h, value).inherits
    ensures Assign(prev, h, value).keys == Dedup(before + (if h == Proto then [] else [h]))
  {
    if h != Proto {
      DedupSnoc(before, h);
    } else {
      assert before + [] == before;
    }
  }

  /** With at most one `__proto__` header, that name never becomes a key: the
   * one assignment to it meets the accessor. */
  lemma {:induction false} ProtoOnce(headers: seq<string>, values: seq<string>, parseNumber: string -> Option<Number>, n: nat)
    requires n <= |headers|
    requires forall i, j :: 0 <= i < j < n && headers[i] == Proto ==> headers[j] != Proto
    ensures Proto !in BuildRecord(headers, values, parseNumber, n).keys
    ensures !BuildRecord(headers, values, parseNumber, n).inherits ==>
      exists i :: 0 <= i < n && headers[i] == Proto
  {
    if n > 0 {
      ProtoOnce(headers, values, parseNumber, n - 1);
      var h := headers[n - 1];
      var prev := BuildRecord(headers, values, parseNumber, n - 1);
      var seen := exists i :: 0 <= i < n - 1 && headers[i] == Proto;
      assert Proto !in prev.keys;
      assert !prev.inherits ==> seen;
      assert h == Proto ==> !seen;
      BuildRecordStep(headers, values, parseNumber, n - 1);
      ProtoOnceStep(prev, h, ColumnValue(values, n - 1, parseNumber), seen);
      if h == Proto {
        assert headers[n - 1] == Proto;
      }
    }
  }

  /** One assignment keeps `__proto__` out of the keys as long as it is not a
   * second assignment to that name; only an assignment to it can cut the
   * prototype. */
  lemma ProtoOnceStep(prev: Record, h: string, value: Json, seen: bool)
    requires Proto !in prev.keys && (!prev.inherits ==> seen)
    requires h == Proto ==> !seen
    ensures Proto !in Assign(prev, h, value).keys
    ensures !Assign(prev, h, value).inherits ==> seen || h == Proto
  {
  }

  /** A header row `__proto__,a` with data row `1,2` gives records holding
   * only the key `a`. */
  lemma ProtoHeaderIgnored(parseNumber: string -> Option<Number>)
    ensures RowRecord([Proto, "a"], ["1", "2"], parseNumber).keys == ["a"]
    ensures Proto !in RowRecord([Proto, "a"], ["1", "2"], parseNumber).values
  {
    var headers, values := [Proto, "a"], ["1", "2"];
    assert AsciiLower("1") == "1";
    assert BuildRecord(headers, values, parseNumber, 0) == Record([], map[], true);
    assert headers[0] == Proto && ColumnValue(values, 0, parseNumber) == Infer("1", parseNumber);
    var first := BuildRecord(headers, values, parseNumber, 1);
    assert first == Assign(Record([], map[], true), Proto, Infer("1", parseNumber));
    assert Infer("1", parseNumber) != JNull;
    assert first == Record([], map[], true);
    assert "a" != Proto;
    assert RowRecord(headers, values, parseNumber) == Assign(first, "a", ColumnValue(values, 1, parseNumber));
  }

  /** A `null` under the first `__proto__` header cuts the prototype chain, so a
   * second `__proto__` column becomes an ordinary key. */
  lemma ProtoDetachedThenKept(parseNumber: string -> Option<Number>)
    requires parseNumber("null").None?
    ensures RowRecord([Proto, Proto, "a"], ["null", ""], parseNumber)
      == Record([Proto, "a"], map[Proto := JString(""), "a" := JString("")], false)
  {
    var headers, values := [Proto, Proto, "a"], ["null", ""];
    assert AsciiLower("null") == "null";
    assert Infer("null", parseNumber) == JNull;
    assert BuildRecord(headers, values, parseNumber, 0) == Record([], map[], true);
    assert headers[0] == Proto && ColumnValue(values, 0, parseNumber) == JNull;
    var first := BuildRecord(headers, values, parseNumber, 1);
    assert first == Assign(Record([], map[], true), Proto, JNull);
    assert first == Record([], map[], false);
    var second := BuildRecord(headers, values, parseNumber, 2);
    assert second == Assign(first, Proto, Infer("", parseNumber));
    assert second == Record([Proto], map[Proto := JString("")], false);
    assert "a" != Proto;
    assert RowRecord(headers, values, parseNumber) == Assign(second, "a", JString(""));
  }

  lemma {:induction false} BuildRecordPrefixOnly(headers: seq<string>, values: seq<string>, parseNumber: string -> Option<Number>, n: nat)
    requires n <= |headers| < |values|
    ensures BuildRecord(headers, values, parseNumber, n) == BuildRecord(headers, values[..|headers|], parseNumber, n)
  {
    if n > 0 {
      BuildRecordPrefixOnly(headers, values, parseNumber, n - 1);
    }
  }

  /** Values beyond the last header are dropped without a trace. */
  lemma ExtraValuesDropped(headers: seq<string>, values: seq<string>, parseNumber: string -> Option<Number>)
    requires |values| > |headers|
    ensures RowRecord(headers, values, parseNumber) == RowRecord(headers, values[..|headers|], parseNumber)
  {
    BuildRecordPrefixOnly(headers, values, parseNumber, |headers|);
  }

  lemma {:induction false} NonBlankKeepsNonBlank(lines: seq<string>)
    ensures forall i :: 0 <= i < |NonBlank(lines)| ==> Trim(NonBlank(lines)[i]) != []
    decreases |lines|
  {
    if lines != [] {
      NonBlankKeepsNonBlank(lines[..|lines| - 1]);
    }
  }

  lemma {:induction false} NonBlankOfBlanks(lines: seq<string>)
    requires forall i :: 0 <= i < |lines| ==> IsBlank(lines[i])
    ensures NonBlank(lines) == []
    decreases |lines|
  {
    if lines != [] {
      NonBlankOfBlanks(lines[..|lines| - 1]);
      TrimEmptyIffBlank(lines[|lines| - 1]);
    }
  }

  /** Text made only of whitespace and line breaks gives no records (its JSON
   * is `[]`), and no error. */
  lemma BlankInputNoRecords(csv: string, parseNumber: string -> Option<Number>)
    requires IsBlank(csv)
    ensures Convert(csv, parseNumber) == []
  {
    SplitBlank(csv, '\n');
    var lines := SplitLines(csv);
    forall i | 0 <= i < |lines| ensures IsBlank(lines[i]) {
      var p := Split(csv, '\n')[i];
      assert IsBlank(p);
      assert lines[i] == p || p == lines[i] + "\r";
      if lines[i] != p {
        assert lines[i] == p[..|lines[i]|];
      }
    }
    NonBlankOfBlanks(lines);
  }

  lemma {:induction false} RowRecordsCount(headers: seq<string>, lines: seq<string>, parseNumber: string -> Option<Number>)
    requires forall i :: 0 <= i < |lines| ==> Trim(lines[i]) != []
    ensures |RowRecords(headers, lines, parseNumber)| == |lines|
    decreases |lines|
  {
    if lines != [] {
      RowRecordsCount(headers, lines[..|lines| - 1], parseNumber);
    }
  }

  lemma {:induction false} RowRecordAt(headers: seq<string>, lines: seq<string>, parseNumber: string -> Option<Number>, k: nat)
    requires forall i :: 0 <= i < |lines| ==> Trim(lines[i]) != []
    requires k < |lines|
    ensures |RowRecords(headers, lines, parseNumber)| == |lines|
    ensures RowRecords(headers, lines, parseNumber)[k] == RowRecord(headers, Fields(Trim(lines[k])), parseNumber)
    decreases |lines|
  {
    RowRecordsCount(headers, lines, parseNumber);
    var init := lines[..|lines| - 1];
    RowRecordsCount(headers, init, parseNumber);
    if k < |lines| - 1 {
      RowRecordAt(headers, init, parseNumber, k);
    }
  }

  /** Whitespace-only lines are discarded; of the others the first is the
   * header and every later one is exactly one record, made from that line
   * trimmed and tokenized against the untrimmed header's fields. */
  lemma RecordsOfLines(csv: string, parseNumber: string -> Option<Number>)
    requires |NonBlankLines(csv)| >= 1
    ensures |Convert(csv, parseNumber)| == |NonBlankLines(csv)| - 1
    ensures forall k :: 0 <= k < |Convert(csv, parseNumber)| ==>
      Convert(csv, parseNumber)[k]
        == RowRecord(Fields(NonBlankLines(csv)[0]), Fields(Trim(NonBlankLines(csv)[k + 1])), parseNumber)
  {
    var lines := NonBlankLines(csv);
    NonBlankKeepsNonBlank(SplitLines(csv));
    RowRecordsCount(Fields(lines[0]), lines[1..], parseNumber);
    forall k | 0 <= k < |lines| - 1
      ensures Convert(csv, parseNumber)[k]
        == RowRecord(Fields(lines[0]), Fields(Trim(lines[k + 1])), parseNumber)
    {
      RowRecordAt(Fields(lines[0]), lines[1..], parseNumber, k);
    }
  }
}
