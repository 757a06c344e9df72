# bdpm-tools row converter, modelled in Dafny

bdpm-tools turns the tab-separated files of the French public drug database
(BDPM) into JSON. Each file is read as latin1 (`'binary'`) and framed into
lines. Every line becomes one object whose keys are the header names
configured for that file. The logic lives in `src/converter.js`:

- `parseLine` trims the line with JavaScript's `String.prototype.trim`. It
  then replaces every U+0092 with an apostrophe and splits the result on tabs.
  U+0092 is the Windows-1252 right single quote, byte 0x92, read as latin1.
- `createRowObject` walks the header list with `forEach`. For each header it
  assigns `values[index]` to `rowObject[header]`.
- The exported converter pushes `createRowObject(headers, parseLine(line))`
  onto the `json` array for every `'line'` event. When `write` is false it
  resolves with that array; otherwise it writes the array to `<file>.json` and
  resolves with `true`.

The model has three modules:

- `JsString` (`jsstring.dfy`) holds the String built-ins `parseLine` relies
  on. `Trim` uses the full ECMAScript WhiteSpace and LineTerminator set.
  `ReplaceAllChar` is the global replacement of one character. `Split` is
  `split` on a one-character separator. `Join` and `Count` are defined as
  partners for the lemmas.
- `JsObject` (`jsobject.dfy`) models a plain JavaScript object. A `Record`
  holds the keys in insertion order plus a map from key to value. A value is
  a string or `undefined`. `Record.Set` is property assignment. `Dedup`,
  `FirstIndex` and `LastIndex` describe key order and which assignment wins.
- `Converter` (`converter.dfy`) holds the converter itself:
  - `ParseLine` is a function, because the source line is one expression.
  - `CreateRowObject` is a method with the source's loop. It is proved equal
    to `RowSpec`, a declarative description of the object it builds.
  - `LineConverter` is a class whose `json` field `OnLine` extends, one
    record per call.
  - `ConvertLines` feeds every line to a `LineConverter`.
  - `Convert` is the pure function the class invariant refers to.

Lines are `string`s that have already been framed and decoded. The model puts
no restriction on their characters. For text decoded as latin1, the trim set
reduces to U+0009..U+000D, U+0020 and U+00A0 (`Latin1Whitespace`).

`src/converter.js` does no typed decoding. Every field is the raw string, or
`undefined`, that the positional zip gives. `trim()` strips both ends of the
line, before the split, so empty or blank columns at either end disappear
(`ParseLineEdges`). After a leading one the remaining fields move left against
the headers (`ExampleLeadingEmptyColumn`). After a trailing one the last
headers hold `undefined` instead of `""`.

## Model

| member | source | states |
|---|---|---|
| `JsString.Latin1Whitespace` | src/converter.js:9 | for a char below U+0100, `trim` strips exactly U+0009..U+000D, U+0020 and U+00A0; U+0085 is never stripped |
| `JsString.TrimStartSpec` | src/converter.js:9 | the leading-whitespace strip keeps a suffix of the input; everything it drops is whitespace, and what it keeps does not start with whitespace |
| `JsString.TrimEndSpec` | src/converter.js:9 | the trailing-whitespace strip keeps a prefix of the input; everything it drops is whitespace, and what it keeps does not end with whitespace |
| `JsString.Trim` | src/converter.js:9 | `trim()` never lengthens the text |
| `JsString.TrimSlice` | src/converter.js:9 | `trim()` returns one contiguous slice of the line, with only whitespace before and after it |
| `JsString.TrimEdges` | src/converter.js:9 | the trimmed text neither starts nor ends with whitespace, and it is empty exactly when the line is all whitespace |
| `JsString.TrimUnique` | src/converter.js:9 | whitespace + core + whitespace trims to the core, for any core that neither starts nor ends with whitespace; this is an independent definition of `trim` |
| `JsString.TrimIdempotent` | src/converter.js:9 | trimming twice is the same as trimming once |
| `JsString.ReplaceAllChar` | src/converter.js:9 | `replace(/\u0092/g, ...)` keeps the length of the text |
| `JsString.ReplaceAllCharAt` | src/converter.js:9 | every U+0092 becomes the apostrophe and every other character is unchanged, position by position |
| `JsString.CountReplaceAllChar` | src/converter.js:9 | the replacement leaves the number of tabs unchanged |
| `JsString.Split` | src/converter.js:9 | `split('\t')` always returns at least one piece |
| `JsString.JoinSplit` | src/converter.js:9 | joining the pieces of a split with the separator gives back the text: the split loses nothing |
| `JsString.SplitJoin` | src/converter.js:9 | at least one piece, none containing the separator: splitting their join gives back the same pieces (converse round trip) |
| `JsString.SplitWithoutSeparator` | src/converter.js:9 | text without a tab splits into a single piece, the text itself |
| `JsString.SplitAfterField` | src/converter.js:9 | a tab-free piece followed by a tab splits off as one piece ahead of the split of the rest |
| `JsString.SplitFieldsFree` | src/converter.js:9 | no piece contains the separator |
| `JsString.SplitFieldChars` | src/converter.js:9 | every character of every piece occurs in the split text |
| `JsString.SplitCount` | src/converter.js:9 | the number of pieces is the number of separators plus one |
| `JsString.JoinEnds` | src/converter.js:9 | a join begins with its first piece and ends with its last |
| `JsString.SplitEnds` | src/converter.js:9 | the first piece is a prefix of the split text and the last piece a suffix |
| `JsString.SplitEmptyEdges` | src/converter.js:9 | when the split gives more than one piece, an empty first piece means the text starts with the separator and an empty last piece means it ends with it |
| `JsString.SplitKeepsEdges` | src/converter.js:9 | if the text neither starts nor ends with whitespace, the first piece does not start and the last piece does not end with whitespace |
| `JsObject.SetValid` | src/converter.js:16 | `rowObject[value] = ...` keeps the keys distinct and equal to the properties; a new key is appended to the key order and an existing key keeps its place; the only key that can appear is the assigned one, it holds the new value, and every other key keeps its old one |
| `JsObject.FirstIndex` | src/converter.js:15 | position of the first occurrence of a header name: it holds the name and no earlier position does |
| `JsObject.LastIndex` | src/converter.js:15-17 | position of the last occurrence of a header name: it holds the name and no later position does |
| `JsObject.Dedup` | src/converter.js:15-17 | the distinct-key list is no longer than the header list and holds only header names |
| `JsObject.DedupSpec` | src/converter.js:15-17 | the distinct-key list holds every header name, nothing else, and each only once |
| `JsObject.FirstIndexPrefix` | src/converter.js:15 | a name's first position is the same in any prefix of the header list that contains it |
| `JsObject.FirstIndexOfNew` | src/converter.js:15 | a header name not seen before the last position first occurs at the last position |
| `JsObject.DedupFirstOccurrenceOrder` | src/converter.js:15-17 | the distinct keys appear in the order of the first occurrence of each name |
| `JsObject.DedupDistinct` | src/converter.js:15-17 | without repeated header names the key list is the header list |
| `Converter.ParseLine` | src/converter.js:8-10 | `parseLine` always returns at least one field |
| `Converter.ParseLineBlank` | src/converter.js:9 | `parseLine` returns `[""]` exactly when the line is empty or all whitespace |
| `Converter.ParseLineLossless` | src/converter.js:9 | the fields joined with tabs are the trimmed line with each U+0092 turned into `'` and every other character as it was |
| `Converter.ParseLineFieldsClean` | src/converter.js:9 | no field contains a tab or a U+0092 |
| `Converter.ParseLineFieldCount` | src/converter.js:9 | the field count is the number of tabs in the trimmed line plus one |
| `Converter.NormalisedEdges` | src/converter.js:9 | after trim and replacement, the text neither starts nor ends with whitespace |
| `Converter.ParseLineEdges` | src/converter.js:9 | the first field never starts with whitespace and the last never ends with it; an empty first or last field occurs only as the single field of a blank line, so leading and trailing empty tab columns are dropped |
| `Converter.ExampleParseLine` | src/converter.js:9 | `" d\u0092\tx \t"` parses to `["d'", "x"]` |
| `Converter.RowSpecStep` | src/converter.js:15-17 | each `forEach` step adds exactly one assignment to the object described so far |
| `Converter.CreateRowObject` | src/converter.js:12-20 | the loop over the headers returns exactly the object `RowSpec` describes |
| `Converter.RowKeys` | src/converter.js:12-19 | the keys are exactly the header names, each once, in first-occurrence order, and they match the properties |
| `Converter.RowValue` | src/converter.js:15-17 | the key at a name's last position `i` holds `values[i]` when that position exists and `undefined` otherwise, so a repeated name keeps its last assignment |
| `Converter.RowDistinctHeaders` | src/converter.js:12-19 | with distinct headers the keys are the headers in order, and header `i` holds `values[i]` or `undefined` |
| `Converter.RowIgnoresExtraValues` | src/converter.js:15-17 | values at positions at or beyond the number of headers never change the object |
| `Converter.ExampleLeadingEmptyColumn` | src/converter.js:9-17 | the line `"\tb"` parses to `["b"]`, so with headers `x, y` the field `b` lands under `x` and `y` holds `undefined` |
| `Converter.ExampleRow` | src/converter.js:12-19 | headers `CIS, nom, CIS` with two values give keys `CIS, nom`; `CIS` holds `undefined` (its last position is past the values) and `nom` holds the second value |
| `Converter.ConvertOneRecordPerLine` | src/converter.js:25-32 | there is exactly one record per line, and record `k` is `createRowObject(headers, parseLine(line k))` |
| `Converter.ConvertAppend` | src/converter.js:30-32 | converting two runs of lines one after the other gives the concatenation of their records: each record depends only on its own line |
| `Converter.ConvertKeys` | src/converter.js:30-32 | every record has the same key list, the distinct header names |
| `Converter.LineConverter.constructor` | src/converter.js:25 | `json` starts empty, and no line has been handled yet |
| `Converter.LineConverter.OnLine` | src/converter.js:30-32 | the `'line'` handler appends exactly one record, for this line, after the earlier ones, and keeps `json` equal to the conversion of all lines handled so far |
| `Converter.ConvertLines` | src/converter.js:22-47 | the array the converter resolves with has one record per line, in line order; record `k` comes from line `k` |

## Left out

- Stream plumbing (src/converter.js:26-28, 44) is left out: `fs.createReadStream`, `iconv.decodeStream('binary')`, `readline` line framing and the `'error'` rejection. The input is a sequence of already decoded lines.
- The `'close'` handler (src/converter.js:34-43) is left out: `JSON.stringify`, `fs.writeFile` and the Promise. These are serialisation and I/O done by library calls. The `write` flag only chooses between writing the array to a file and resolving with it. `ConvertLines` returns the array, as `res(json)` does. Because serialisation is left out, so is the fact that `JSON.stringify` drops `undefined` properties.
- The header tables and the per-file fan-out in index.js are left out. The tables are configuration. The fan-out is concurrency and I/O.
- `Record` keys stay in insertion order. A JavaScript object lists integer-like keys such as `"0"` first, in numeric order. None of the configured header names is integer-like.
- A header named `__proto__` is treated as an ordinary key. In JavaScript, assigning a string or `undefined` to it goes through the prototype setter and creates no own property.
- JavaScript strings are UTF-16 code units, while Dafny `char`s are Unicode scalar values. For latin1-decoded lines every character is a single code unit, so the two agree.
