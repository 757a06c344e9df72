/** The row-decoding layer of src/converter.js: `parseLine` normalises one
    raw line into positional fields, `createRowObject` zips the header list
    with those fields into an object, and the exported converter pushes one
    such object per line onto `json`, in line order. Lines arrive already
    framed by `readline` and decoded as latin1 (`'binary'`). */
module Converter {
  import opened JsString
  import opened JsObject

  /** The Windows-1252 right single quote (byte 0x92) read as latin1. */
  const CP1252Quote: char := '\U{0092}'

  /** `line.trim().replace(/\u0092/g, '\'').split('\t')` */
  function ParseLine(line: string): (fields: seq<string>)
    ensures |fields| >= 1
  {
    Split(ReplaceAllChar(Trim(line), CP1252Quote, '\''), '\t')
  }

  /** An empty or all-whitespace line, and only such a line, yields `[""]`. */
  lemma ParseLineBlank(line: string)
    ensures ParseLine(line) == [[]] <==> AllWhitespace(line)
  {
    var u := ReplaceAllChar(Trim(line), CP1252Quote, '\'');
    JoinSplit(u, '\t');
    TrimEdges(line);
    if ParseLine(line) == [[]] {
      assert Join([[]], '\t') == [];
    }
  }

  /** The split is lossless: rejoined with tabs, the fields give back the
      trimmed line with each U+0092 turned into an apostrophe and every
      other character as it was. */
  lemma ParseLineLossless(line: string)
    ensures var joined := Join(ParseLine(line), '\t');
      var t := Trim(line);
      |joined| == |t|
      && forall i :: 0 <= i < |t| ==> joined[i] == (if t[i] == CP1252Quote then '\'' else t[i])
  {
    JoinSplit(ReplaceAllChar(Trim(line), CP1252Quote, '\''), '\t');
    ReplaceAllCharAt(Trim(line), CP1252Quote, '\'');
  }

  /** No field holds a tab or a U+0092. */
  lemma ParseLineFieldsClean(line: string)
    ensures forall k :: 0 <= k < |ParseLine(line)| ==>
      '\t' !in ParseLine(line)[k] && CP1252Quote !in ParseLine(line)[k]
  {
    var u := ReplaceAllChar(Trim(line), CP1252Quote, '\'');
    SplitFieldsFree(u, '\t');
    SplitFieldChars(u, '\t');
    ReplaceAllCharAt(Trim(line), CP1252Quote, '\'');
    assert CP1252Quote !in u;
  }

  /** One field per tab of the trimmed line, plus one. */
  lemma ParseLineFieldCount(line: string)
    ensures |ParseLine(line)| == Count(Trim(line), '\t') + 1
  {
    var u := ReplaceAllChar(Trim(line), CP1252Quote, '\'');
    SplitCount(u, '\t');
    CountReplaceAllChar(Trim(line), CP1252Quote, '\'', '\t');
  }

  /** Trimming happens before splitting, so the first field never starts
      and the last field never ends with whitespace (a tab included), and
      an empty outer field only ever comes from a blank line: empty or
      blank columns at either end are gone. */
  lemma ParseLineEdges(line: string)
    ensures var f := ParseLine(line);
      (f[0] == [] || !IsJsWhitespace(f[0][0]))
      && (f[|f| - 1] == [] || !IsJsWhitespace(f[|f| - 1][|f[|f| - 1]| - 1]))
    ensures var f := ParseLine(line);
      (f[0] == [] || f[|f| - 1] == []) ==> f == [[]]
  {
    var u := ReplaceAllChar(Trim(line), CP1252Quote, '\'');
    NormalisedEdges(line);
    SplitKeepsEdges(u, '\t');
    SplitEmptyEdges(u, '\t');
  }

  /** The trimmed, apostrophe-normalised line neither starts nor ends with
      whitespace. */
  lemma NormalisedEdges(line: string)
    ensures var u := ReplaceAllChar(Trim(line), CP1252Quote, '\'');
      u == [] || (!IsJsWhitespace(u[0]) && !IsJsWhitespace(u[|u| - 1]))
  {
    var t := Trim(line);
    TrimEdges(line);
    ReplaceAllCharAt(t, CP1252Quote, '\'');
  }

  /** `values[index]` on an array of strings. */
  function ValueAt(values: seq<string>, index: nat): JsValue {
    if index < |values| then Str(values[index]) else Undefined
  }

  /** The object `createRowObject(headers, values)` returns, stated
      declaratively: one key per distinct header name, in first-occurrence
      order, holding the value at that name's last position. */
  function RowSpec(headers: seq<string>, values: seq<string>): Record {
    Record(Dedup(headers), map h | h in headers :: ValueAt(values, LastIndex(headers, h)))
  }

  /** One more iteration of the `forEach` is one more assignment. */
  lemma RowSpecStep(headers: seq<string>, values: seq<string>, i: nat)
    requires i < |headers|
    ensures RowSpec(headers[..i + 1], values) == RowSpec(headers[..i], values).Set(headers[i], ValueAt(values, i))
  {
    var p := headers[..i + 1];
    var q := headers[..i];
    assert p[..i] == q;
    assert p[i] == headers[i];
    var before := RowSpec(q, values);
    var after := before.Set(headers[i], ValueAt(values, i));
    assert after.keys == Dedup(p);
    forall h | h in p
      ensures h in after.props && after.props[h] == ValueAt(values, LastIndex(p, h))
    {
      if h != headers[i] {
        assert h in q;
      }
    }
    assert forall h :: h in after.props <==> h in p;
  }

  /** `createRowObject(headers, values)`: assigns `values[index]` to
      `rowObject[headers[index]]` for each header in turn. */
  method CreateRowObject(headers: seq<string>, values: seq<string>) returns (row: Record)
    ensures row == RowSpec(headers, values)
  {
    row := Empty;
    assert headers[..0] == [];
    for i := 0 to |headers|
      invariant row == RowSpec(headers[..i], values)
    {
      RowSpecStep(headers, values, i);
      row := row.Set(headers[i], ValueAt(values, i));
    }
    assert headers[..|headers|] == headers;
  }

  /** The keys are the header names, each once, in the order in which they
      first appear among the headers. */
  lemma RowKeys(headers: seq<string>, values: seq<string>)
    ensures RowSpec(headers, values).Valid()
    ensures forall h :: h in RowSpec(headers, values).props <==> h in headers
    ensures var keys := RowSpec(headers, values).keys;
      (forall h :: h in keys <==> h in headers)
      && (forall i, j :: 0 <= i < j < |keys| ==> keys[i] != keys[j])
      && (forall i, j :: 0 <= i < j < |keys| ==> FirstIndex(headers, keys[i]) < FirstIndex(headers, keys[j]))
  {
    DedupSpec(headers);
    DedupFirstOccurrenceOrder(headers);
  }

  /** The value under a header name is the field at that name's last
      position, or `undefined` when the line has fewer fields: a repeated
      name keeps its last assignment. */
  lemma RowValue(headers: seq<string>, values: seq<string>, i: nat)
    requires i < |headers|
    requires forall j :: i < j < |headers| ==> headers[j] != headers[i]
    ensures headers[i] in RowSpec(headers, values).props
    ensures RowSpec(headers, values).props[headers[i]] ==
      if i < |values| then Str(values[i]) else Undefined
  {
  }

  /** With distinct header names the object is a plain positional zip:
      the keys are the headers, in order, and `headers[i]` holds the
      i-th field or `undefined`. */
  lemma RowDistinctHeaders(headers: seq<string>, values: seq<string>)
    requires forall i, j :: 0 <= i < j < |headers| ==> headers[i] != headers[j]
    ensures RowSpec(headers, values).keys == headers
    ensures forall i :: 0 <= i < |headers| ==>
      RowSpec(headers, values).props[headers[i]] == if i < |values| then Str(values[i]) else Undefined
  {
    DedupDistinct(headers);
    forall i | 0 <= i < |headers|
      ensures RowSpec(headers, values).props[headers[i]] == if i < |values| then Str(values[i]) else Undefined
    {
      RowValue(headers, values, i);
    }
  }

  /** Fields at positions at or beyond the number of headers are ignored. */
  lemma RowIgnoresExtraValues(headers: seq<string>, values: seq<string>, extra: seq<string>)
    requires |values| >= |headers|
    ensures RowSpec(headers, values + extra) == RowSpec(headers, values)
  {
  }

  /** A worked line: the leading space and the trailing space and tab are
      trimmed away before the split, and U+0092 becomes an apostrophe. */
  lemma ExampleParseLine()
    ensures ParseLine(" d\U{0092}\tx \t") == ["d'", "x"]
  {
    var core := "d\U{0092}\tx";
    assert " d\U{0092}\tx \t" == " " + core + " \t";
    TrimUnique(" ", core, " \t");
    ReplaceAllCharAt(core, CP1252Quote, '\'');
    assert ReplaceAllChar(core, CP1252Quote, '\'') == Join(["d'", "x"], '\t');
    SplitJoin(["d'", "x"], '\t');
  }

  /** Because the line is trimmed before it is split, an empty first column
      vanishes: the remaining fields shift one header to the left, and the
      last header, left without a field, holds `undefined` rather than `""`. */
  lemma ExampleLeadingEmptyColumn()
    ensures ParseLine("\tb") == ["b"]
    ensures var row := RowSpec(["x", "y"], ParseLine("\tb"));
      "x" in row.props && row.props["x"] == Str("b")
      && "y" in row.props && row.props["y"] == Undefined
  {
    assert "\tb" == "\t" + "b" + "";
    TrimUnique("\t", "b", "");
    ReplaceAllCharAt("b", CP1252Quote, '\'');
    assert ReplaceAllChar("b", CP1252Quote, '\'') == Join(["b"], '\t');
    SplitJoin(["b"], '\t');
    RowValue(["x", "y"], ["b"], 0);
    RowValue(["x", "y"], ["b"], 1);
  }

  /** A worked row: a repeated header keeps its last position, which lies
      past the end of the values, so it holds `undefined`. */
  lemma ExampleRow()
    ensures var row := RowSpec(["CIS", "nom", "CIS"], ["6000", "Doliprane"]);
      row.keys == ["CIS", "nom"]
      && "CIS" in row.props && row.props["CIS"] == Undefined
      && "nom" in row.props && row.props["nom"] == Str("Doliprane")
  {
    var headers := ["CIS", "nom", "CIS"];
    var values := ["6000", "Doliprane"];
    assert headers[..2] == ["CIS", "nom"];
    assert headers[..2][..1] == ["CIS"];
    assert Dedup(headers) == ["CIS", "nom"];
    RowValue(headers, values, 1);
    RowValue(headers, values, 2);
  }


  /** The records the exported converter has pushed after the given lines:
      one `createRowObject(headers, parseLine(line))` per line, appended in
      the order the lines arrive. */
  function Convert(headers: seq<string>, lines: seq<string>): seq<Record> {
    if lines == [] then []
    else
      var n := |lines|;
      Convert(headers, lines[..n - 1]) + [RowSpec(headers, ParseLine(lines[n - 1]))]
  }

  /** Exactly one record per input line, and record k comes from line k. */
  lemma {:induction false} ConvertOneRecordPerLine(headers: seq<string>, lines: seq<string>)
    ensures |Convert(headers, lines)| == |lines|
    ensures forall k :: 0 <= k < |lines| ==>
      Convert(headers, lines)[k] == RowSpec(headers, ParseLine(lines[k]))
  {
    if lines != [] {
      var n := |lines|;
      var prefix := lines[..n - 1];
      ConvertOneRecordPerLine(headers, prefix);
      var c := Convert(headers, lines);
      assert c == Convert(headers, prefix) + [RowSpec(headers, ParseLine(lines[n - 1]))];
      forall k | 0 <= k < n ensures c[k] == RowSpec(headers, ParseLine(lines[k])) {
        if k < n - 1 {
          assert prefix[k] == lines[k];
        }
      }
    }
  }

  /** Converting a file in two parts and concatenating the results is the
      same as converting it whole: each record depends on its line only. */
  lemma {:induction false} ConvertAppend(headers: seq<string>, first: seq<string>, second: seq<string>)
    ensures Convert(headers, first + second) == Convert(headers, first) + Convert(headers, second)
  {
    if second == [] {
      assert first + second == first;
    } else {
      var n := |second|;
      var all := first + second;
      var last := second[n - 1];
      assert all[..|all| - 1] == first + second[..n - 1];
      assert all[|all| - 1] == last;
      ConvertAppend(headers, first, second[..n - 1]);
      var r := RowSpec(headers, ParseLine(last));
      assert Convert(headers, all) == Convert(headers, first + second[..n - 1]) + [r];
      assert Convert(headers, second) == Convert(headers, second[..n - 1]) + [r];
      var a, b := Convert(headers, first), Convert(headers, second[..n - 1]);
      assert (a + b) + [r] == a + (b + [r]);
    }
  }

  /** Every record has the same keys, in the same order. */
  lemma ConvertKeys(headers: seq<string>, lines: seq<string>)
    ensures forall k :: 0 <= k < |Convert(headers, lines)| ==>
      Convert(headers, lines)[k].keys == Dedup(headers)
  {
  }

  /** The state of one run of the exported converter: the `json` array
      the `'line'` handler pushes onto. */
  class LineConverter {
    const headers: seq<string>
    var json: seq<Record>
    /** The lines handled so far. */
    ghost var consumed: seq<string>

    ghost predicate Valid()
      reads this
    {
      json == Convert(headers, consumed)
    }

    /** `const json = []` */
    constructor (headers: seq<string>)
      ensures this.headers == headers
      ensures json == [] && consumed == []
      ensures Valid()
    {
      this.headers := headers;
      json := [];
      consumed := [];
    }

    /** The `'line'` handler: `json.push(createRowObject(headers, parseLine(line)))`. */
    method OnLine(line: string)
      requires Valid()
      modifies this
      ensures Valid()
      ensures consumed == old(consumed) + [line]
      ensures json == old(json) + [RowSpec(headers, ParseLine(line))]
    {
      var row := CreateRowObject(headers, ParseLine(line));
      json := json + [row];
      consumed := consumed + [line];
      assert consumed[..|consumed| - 1] == old(consumed);
    }
  }

  /** The exported converter on an already framed and decoded file: feeds
      every line to the handler and returns the array it resolves with. */
  method ConvertLines(headers: seq<string>, lines: seq<string>) returns (json: seq<Record>)
    ensures |json| == |lines|
    ensures forall k :: 0 <= k < |lines| ==> json[k] == RowSpec(headers, ParseLine(lines[k]))
  {
    var reader := new LineConverter(headers);
    for i := 0 to |lines|
      invariant reader.headers == headers
      invariant reader.Valid() && reader.consumed == lines[..i]
    {
      assert lines[..i + 1] == lines[..i] + [lines[i]];
      reader.OnLine(lines[i]);
    }
    assert lines[..|lines|] == lines;
    ConvertOneRecordPerLine(headers, lines);
    json := reader.json;
  }
}
