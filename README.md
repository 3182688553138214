# Collaborative document editor: the content encoder

When a participant submits a new collaborative document, the front end
(`src/components/CreateSnippet.jsx`, `handleSubmit`) turns the text of the
document into a flat list of per-character records before posting it:

- the text is split on `"\n"` into lines;
- each line is split into its characters (UTF-16 code units);
- each character becomes a record `{value, uniqueId, lineNumber, columnNumber}`
  whose identifier is `${Date.now()}_${lineIndex}_${columnIndex}`;
- the per-line lists are flattened (`.flat()`) into the payload's `content`.

This project models that encoder in Dafny as pure functions and proves what
the list holds: how many records there are, that each one points at its own
character, that coordinates run in row-major order with no gaps, that the
identifiers are pairwise distinct whatever the clock reads, and how much of
the text the records determine.

Files:

- `decimal.dfy` (module `Decimal`): how a template literal renders a
  non-negative integer, with its inverse.
- `lines.dfy` (module `Lines`): `String.prototype.split` and
  `Array.prototype.join` for a one-character separator.
- `nested.dfy` (module `Nested`): `Array.prototype.flat()` of depth one, the
  number of elements it holds, and where each flat index comes from.
- `create_snippet.dfy` (module `CreateSnippet`): the records, the
  identifiers, the encoder and the properties of its result.

Modelling decisions:

- Text is `seq<char>`. A `char` stands for one UTF-16 code unit, which is
  what `line.split("")` yields. Dafny's `char` is a Unicode scalar value, so
  this is a one-to-one relabelling of code units. The lemmas look at a
  character only to compare it with `"\n"`, which is the same code in both,
  so the relabelling changes none of them.
- `Date.now()` is an input. It is evaluated once per character, so the model
  takes a function `now: (nat, nat) -> nat` giving the reading taken while
  the record for the character at (line, column) is built. Its values are
  any non-negative integers: they may repeat, go backwards or jump.
- The identifier is the string `NatToString(t) + "_" + NatToString(line) +
  "_" + NatToString(column)`. That is what a template literal produces for a
  non-negative integer below 10^21, a range every millisecond timestamp and
  array index lies in.
- The front end has no delta-synchronisation logic:
  `src/components/ViewSnippet.jsx` replaces the whole text with each incoming
  message body. The model covers only the encoder.

## Model

| member | source | states |
|---|---|---|
| `Decimal.NatToString` | src/components/CreateSnippet.jsx:15 | the rendering of a number in the identifier is a non-empty string of decimal digits with no leading zero unless it is "0" |
| `Decimal.ParseNatToString` | src/components/CreateSnippet.jsx:15 | reading the rendered numeral back as a decimal number gives the number |
| `Decimal.NatToStringInjective` | src/components/CreateSnippet.jsx:15 | two numbers render to the same numeral exactly when they are equal |
| `Lines.Split` | src/components/CreateSnippet.jsx:12 | `content.split("\n")` returns one more piece than there are newlines |
| `Lines.SplitPiecesFree` | src/components/CreateSnippet.jsx:12 | no piece returned by the split contains the separator |
| `Lines.JoinSplit` | src/components/CreateSnippet.jsx:12 | splitting is lossless: joining the pieces with the separator gives the text back |
| `Lines.SplitJoin` | src/components/CreateSnippet.jsx:12 | conversely, splitting the join of a non-empty list of separator-free pieces gives those pieces back |
| `Lines.SplitTotalLength` | src/components/CreateSnippet.jsx:12 | the pieces together hold every character of the text except the separators |
| `Lines.SplitAppendSeparator` | src/components/CreateSnippet.jsx:12 | a trailing separator adds exactly one empty last piece |
| `Nested.Flatten` | src/components/CreateSnippet.jsx:22 | `.flat()` holds as many elements as all the rows together |
| `Nested.Locate` | src/components/CreateSnippet.jsx:22 | every flat index comes from one (row, position) inside the rows, at offset (elements of earlier rows) + position, and the flat list holds that row's element there |
| `Nested.FlattenAt` | src/components/CreateSnippet.jsx:22 | element j of row i appears in the flat list at index (elements of earlier rows) + j |
| `Nested.FlattenAppend` | src/components/CreateSnippet.jsx:22 | flattening distributes over concatenation of the outer list |
| `CreateSnippet.UniqueId` | src/components/CreateSnippet.jsx:15 | an identifier is decimal digits with exactly two underscores, and the first underscore is right after the timestamp's numeral; `UniqueIdInjective` is its partner |
| `CreateSnippet.CutAtUnderscore` | src/components/CreateSnippet.jsx:15 | a numeral followed by `_` is cut off uniquely, so both the numeral and the rest are determined |
| `CreateSnippet.UniqueIdInjective` | src/components/CreateSnippet.jsx:15 | two identifiers are equal exactly when their timestamps, line indexes and column indexes are all equal |
| `CreateSnippet.EncodeLine` | src/components/CreateSnippet.jsx:13-18 | one record per character of the line |
| `CreateSnippet.EncodeLines` | src/components/CreateSnippet.jsx:12-19 | one row per line, each as long as its line |
| `CreateSnippet.PayloadContent` | src/components/CreateSnippet.jsx:12-22 | `crdtContent` (the lines, each encoded) flattened: the flat list has exactly as many records as the text has characters other than newlines |
| `CreateSnippet.RecordAt` | src/components/CreateSnippet.jsx:12-22 | record k lies inside the text's lines, carries the character at its own coordinate and the identifier built from that coordinate, and k equals the number of characters on earlier lines plus its column |
| `CreateSnippet.RecordOf` | src/components/CreateSnippet.jsx:12-22 | every character that is not a newline has its record, at index (characters on earlier lines) + column |
| `CreateSnippet.RecordsInBounds` | src/components/CreateSnippet.jsx:12-17 | every record has lineNumber below the line count, columnNumber below that line's length, and value equal to the character there |
| `CreateSnippet.NoNewlineRecords` | src/components/CreateSnippet.jsx:12-14 | no record's value is a newline |
| `CreateSnippet.UniqueIdOfRecord` | src/components/CreateSnippet.jsx:15-17 | each record's identifier is built from that record's own lineNumber and columnNumber and the clock reading taken for it |
| `CreateSnippet.RowMajorOrder` | src/components/CreateSnippet.jsx:12-13 | (lineNumber, columnNumber) strictly increases lexicographically along the list |
| `CreateSnippet.ColumnsContiguous` | src/components/CreateSnippet.jsx:13-17 | within a line columns run 0, 1, 2, ... with no gaps: a record with a non-zero column directly follows the record of the previous column of the same line |
| `CreateSnippet.UniqueIdsDistinct` | src/components/CreateSnippet.jsx:15 | all identifiers in the list are pairwise distinct, whatever values the clock returns |
| `CreateSnippet.LineValuesOfPayload` | src/components/CreateSnippet.jsx:12-22 | the values of the records whose lineNumber is l, in list order, spell line l of the text |
| `CreateSnippet.RebuildLines` | src/components/CreateSnippet.jsx:12-22 | grouping record values by lineNumber, given the original line count, gives exactly the lines of the text |
| `CreateSnippet.RebuildContent` | src/components/CreateSnippet.jsx:12-22 | the lines rebuilt from the records and the original line count (newlines + 1), joined with newlines, give the text back |
| `CreateSnippet.TrailingNewlineNotRecorded` | src/components/CreateSnippet.jsx:12-13 | the records alone do not determine the text: an empty last line contributes no record, so a text and the same text with one more trailing newline encode to the same list |

## Left out

- The rest of `handleSubmit` and `handleCopy` (src/components/CreateSnippet.jsx:25-57): the POST request, JSON serialisation, alerts, the clipboard write and the notification timer are I/O and browser APIs.
- `Date.now()` itself: a clock reading, taken as the parameter `now`.
- src/components/ViewSnippet.jsx: React state and network plumbing (fetch, SockJS/STOMP subscription that overwrites the whole text, a send that never runs because the client is never stored).
- src/App.jsx: routing and layout.
- JSX rendering and styling.
- Delta synchronisation, caret adjustment and conflict resolution: not present in the code.
- Rendering of numbers of 10^21 or more, where a template literal switches to exponent notation: no timestamp or index comes near it.
