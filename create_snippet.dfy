/** The content encoder run when a new document is submitted: the text is
    split into lines, every character of every line becomes a record
    carrying its value, an identifier and its (line, column) coordinate, and
    the per-line lists are flattened into the payload's `content` list. */
module CreateSnippet {
  import opened Decimal
  import opened Lines
  import opened Nested

  /** One element of the payload's `content` list. */
  datatype CharRecord = CharRecord(value: char, uniqueId: string, lineNumber: nat, columnNumber: nat)

  /** The clock reading (milliseconds, as `Date.now()` returns it) taken
      while the record for the character at (line, column) is built: any
      non-negative integers, which may repeat, go backwards or jump. */
  type Clock = (nat, nat) -> nat

  /** The identifier `${time}_${line}_${column}`: decimal digits with
      exactly two underscores, the first one right after the timestamp's
      numeral. */
  function UniqueId(time: nat, line: nat, column: nat): (id: string)
    ensures Count(id, '_') == 2
    ensures forall k :: 0 <= k < |id| && id[k] != '_' ==> IsDigit(id[k])
    ensures |NatToString(time)| < |id| && IndexOf(id, '_') == |NatToString(time)|
  {
    IdShape(NatToString(time), NatToString(line), NatToString(column));
    NatToString(time) + "_" + NatToString(line) + "_" + NatToString(column)
  }

  /** Three numerals joined by underscores: digits everywhere except the two
      underscores, the first of which ends the first numeral. */
  lemma IdShape(t: string, l: string, c: string)
    requires AllDigits(t) && AllDigits(l) && AllDigits(c)
    ensures var id := t + "_" + l + "_" + c;
      && Count(id, '_') == 2
      && (forall k :: 0 <= k < |id| && id[k] != '_' ==> IsDigit(id[k]))
      && IndexOf(id, '_') == |t|
  {
    DigitsHaveNoUnderscore(t);
    DigitsHaveNoUnderscore(l);
    DigitsHaveNoUnderscore(c);
    assert Count("_", '_') == 1;
    CountAppend(t + "_" + l + "_", c, '_');
    CountAppend(t + "_" + l, "_", '_');
    CountAppend(t + "_", l, '_');
    CountAppend(t, "_", '_');
    assert t + "_" + l + "_" + c == t + "_" + (l + "_" + c);
    IndexOfFirst(t, l + "_" + c, '_');
  }

  /** A numeral holds no underscore. */
  lemma DigitsHaveNoUnderscore(s: string)
    requires AllDigits(s)
    ensures '_' !in s && Count(s, '_') == 0
  {
    CountAbsent(s, '_');
  }

  /** Position of the first `c` in `s` (or |s| when there is none). */
  function IndexOf(s: string, c: char): nat {
    if s == [] || s[0] == c then 0 else 1 + IndexOf(s[1..], c)
  }

  lemma {:induction false} IndexOfFirst(a: string, r: string, c: char)
    requires c !in a
    ensures IndexOf(a + [c] + r, c) == |a|
  {
    if a != [] {
      assert (a + [c] + r)[1..] == a[1..] + [c] + r;
      IndexOfFirst(a[1..], r, c);
    }
  }

  /** A numeral followed by an underscore can be cut off uniquely. */
  lemma CutAtUnderscore(a1: string, r1: string, a2: string, r2: string)
    requires AllDigits(a1) && AllDigits(a2)
    requires a1 + "_" + r1 == a2 + "_" + r2
    ensures a1 == a2 && r1 == r2
  {
    var s := a1 + "_" + r1;
    assert '_' !in a1 && '_' !in a2;
    IndexOfFirst(a1, r1, '_');
    IndexOfFirst(a2, r2, '_');
    assert a1 == s[..|a1|] == a2;
    assert r1 == s[|a1| + 1..] == r2;
  }

  /** Identifiers are equal exactly when all three of their parts are. */
  lemma UniqueIdInjective(t1: nat, l1: nat, c1: nat, t2: nat, l2: nat, c2: nat)
    ensures UniqueId(t1, l1, c1) == UniqueId(t2, l2, c2) <==> t1 == t2 && l1 == l2 && c1 == c2
  {
    if UniqueId(t1, l1, c1) == UniqueId(t2, l2, c2) {
      var t1s, l1s, c1s := NatToString(t1), NatToString(l1), NatToString(c1);
      var t2s, l2s, c2s := NatToString(t2), NatToString(l2), NatToString(c2);
      assert t1s + "_" + l1s + "_" + c1s == t1s + "_" + (l1s + "_" + c1s);
      assert t2s + "_" + l2s + "_" + c2s == t2s + "_" + (l2s + "_" + c2s);
      CutAtUnderscore(t1s, l1s + "_" + c1s, t2s, l2s + "_" + c2s);
      CutAtUnderscore(l1s, c1s, l2s, c2s);
      NatToStringInjective(t1, t2);
      NatToStringInjective(l1, l2);
      NatToStringInjective(c1, c2);
    }
  }

  /** The inner `line.split("").map((char, columnIndex) => ...)`: one record
      per character of line `lineIndex`. */
  function EncodeLine(line: string, lineIndex: nat, now: Clock): (row: seq<CharRecord>)
    ensures |row| == |line|
  {
    seq(|line|, j requires 0 <= j < |line| =>
      CharRecord(line[j], UniqueId(now(lineIndex, j), lineIndex, j), lineIndex, j))
  }

  /** The outer `.map((line, lineIndex) => ...)`: one row per line. */
  function EncodeLines(lines: seq<string>, now: Clock): (rows: seq<seq<CharRecord>>)
    ensures |rows| == |lines|
    ensures forall i :: 0 <= i < |rows| ==> |rows[i]| == |lines[i]|
  {
    seq(|lines|, i requires 0 <= i < |lines| => EncodeLine(lines[i], i, now))
  }

  /** `crdtContent.flat()`, the payload's `content` list, where
      `crdtContent` is the text split on newlines with each line encoded: one
      record for every character of the text that is not a newline. */
  function PayloadContent(content: string, now: Clock): (records: seq<CharRecord>)
    ensures |records| == |content| - Count(content, '\n')
  {
    var lines := Split(content, '\n');
    SplitTotalLength(content, '\n');
    SameShapeTotalLength(EncodeLines(lines, now), lines);
    Flatten(EncodeLines(lines, now))
  }

  /** What record `k` of the payload is: the record of the character at its
      own (line, column) coordinate, that coordinate is within the text's
      lines, and `k` is the number of characters on earlier lines plus the
      column. */
  lemma RecordAt(content: string, now: Clock, k: nat)
    requires k < |PayloadContent(content, now)|
    ensures var lines, r := Split(content, '\n'), PayloadContent(content, now)[k];
      && r.lineNumber < |lines|
      && r.columnNumber < |lines[r.lineNumber]|
      && k == TotalLength(lines[..r.lineNumber]) + r.columnNumber
      && r == CharRecord(lines[r.lineNumber][r.columnNumber],
                         UniqueId(now(r.lineNumber, r.columnNumber), r.lineNumber, r.columnNumber),
                         r.lineNumber, r.columnNumber)
  {
    var lines := Split(content, '\n');
    var rows := EncodeLines(lines, now);
    var p := Locate(rows, k);
    SameShapeTotalLength(rows[..p.0], lines[..p.0]);
  }

  /** Conversely, every character that is not a newline has its record, at
      index (characters on earlier lines) + column. */
  lemma RecordOf(content: string, now: Clock, line: nat, column: nat)
    requires line < |Split(content, '\n')|
    requires column < |Split(content, '\n')[line]|
    ensures var lines := Split(content, '\n');
      var k := TotalLength(lines[..line]) + column;
      && k < |PayloadContent(content, now)|
      && PayloadContent(content, now)[k]
         == CharRecord(lines[line][column], UniqueId(now(line, column), line, column), line, column)
  {
    var lines := Split(content, '\n');
    var rows := EncodeLines(lines, now);
    FlattenAt(rows, line, column);
    SameShapeTotalLength(rows[..line], lines[..line]);
  }

  /** Every record lies inside the text and carries the character it names. */
  lemma RecordsInBounds(content: string, now: Clock)
    ensures var lines, records := Split(content, '\n'), PayloadContent(content, now);
      forall k :: 0 <= k < |records| ==>
        && records[k].lineNumber < |lines|
        && records[k].columnNumber < |lines[records[k].lineNumber]|
        && records[k].value == lines[records[k].lineNumber][records[k].columnNumber]
  {
    var records := PayloadContent(content, now);
    forall k | 0 <= k < |records| {
      RecordAt(content, now, k);
    }
  }

  /** Newlines produce no records. */
  lemma NoNewlineRecords(content: string, now: Clock)
    ensures var records := PayloadContent(content, now);
      forall k :: 0 <= k < |records| ==> records[k].value != '\n'
  {
    RecordsInBounds(content, now);
    SplitPiecesFree(content, '\n');
  }

  /** Each identifier is built from the record's own coordinate and the
      clock reading taken for it. */
  lemma UniqueIdOfRecord(content: string, now: Clock)
    ensures var records := PayloadContent(content, now);
      forall k :: 0 <= k < |records| ==>
        records[k].uniqueId
        == UniqueId(now(records[k].lineNumber, records[k].columnNumber),
                    records[k].lineNumber, records[k].columnNumber)
  {
    var records := PayloadContent(content, now);
    forall k | 0 <= k < |records| {
      RecordAt(content, now, k);
    }
  }

  /** Lexicographic order on (line, column) coordinates. */
  predicate Before(a: CharRecord, b: CharRecord) {
    a.lineNumber < b.lineNumber
    || (a.lineNumber == b.lineNumber && a.columnNumber < b.columnNumber)
  }

  /** Records appear in strict row-major order. */
  lemma RowMajorOrder(content: string, now: Clock)
    ensures var records := PayloadContent(content, now);
      forall i, j :: 0 <= i < j < |records| ==> Before(records[i], records[j])
  {
    var lines, records := Split(content, '\n'), PayloadContent(content, now);
    forall i, j | 0 <= i < j < |records| ensures Before(records[i], records[j]) {
      RecordAt(content, now, i);
      RecordAt(content, now, j);
      var li, lj := records[i].lineNumber, records[j].lineNumber;
      if lj < li {
        TotalLengthPrefix(lines, lj);
        TotalLengthMonotone(lines, lj + 1, li);
        assert false;
      }
    }
  }

  /** Within a line the columns run 0, 1, 2, ... with no gaps: a record with
      a non-zero column comes straight after the record of the previous
      column on the same line. */
  lemma ColumnsContiguous(content: string, now: Clock)
    ensures var records := PayloadContent(content, now);
      forall k :: 0 <= k < |records| && records[k].columnNumber > 0 ==>
        && k > 0
        && records[k - 1].lineNumber == records[k].lineNumber
        && records[k - 1].columnNumber + 1 == records[k].columnNumber
  {
    var records := PayloadContent(content, now);
    forall k | 0 <= k < |records| && records[k].columnNumber > 0
      ensures k > 0
      ensures records[k - 1].lineNumber == records[k].lineNumber
      ensures records[k - 1].columnNumber + 1 == records[k].columnNumber
    {
      RecordAt(content, now, k);
      RecordOf(content, now, records[k].lineNumber, records[k].columnNumber - 1);
    }
  }

  /** All identifiers in the payload are pairwise distinct, whatever the
      clock reads. */
  lemma UniqueIdsDistinct(content: string, now: Clock)
    ensures var records := PayloadContent(content, now);
      forall i, j :: 0 <= i < j < |records| ==> records[i].uniqueId != records[j].uniqueId
  {
    var records := PayloadContent(content, now);
    RowMajorOrder(content, now);
    UniqueIdOfRecord(content, now);
    forall i, j | 0 <= i < j < |records| ensures records[i].uniqueId != records[j].uniqueId {
      var a, b := records[i], records[j];
      assert Before(a, b);
      UniqueIdInjective(now(a.lineNumber, a.columnNumber), a.lineNumber, a.columnNumber,
                        now(b.lineNumber, b.columnNumber), b.lineNumber, b.columnNumber);
    }
  }

  /** The values of the records on line `line`, in list order. */
  function LineValues(records: seq<CharRecord>, line: nat): string {
    if records == [] then []
    else (if records[0].lineNumber == line then [records[0].value] else []) + LineValues(records[1..], line)
  }

  /** Rebuilds `lineCount` lines from a record list by grouping the record
      values by line number. */
  function Rebuild(records: seq<CharRecord>, lineCount: nat): (lines: seq<string>)
    ensures |lines| == lineCount
  {
    if lineCount == 0 then [] else Rebuild(records, lineCount - 1) + [LineValues(records, lineCount - 1)]
  }

  /** Grouping by line distributes over concatenation of record lists. */
  lemma {:induction false} LineValuesAppend(a: seq<CharRecord>, b: seq<CharRecord>, line: nat)
    ensures LineValues(a + b, line) == LineValues(a, line) + LineValues(b, line)
  {
    if a == [] {
      assert a + b == b;
    } else {
      var head := if a[0].lineNumber == line then [a[0].value] else [];
      assert (a + b)[0] == a[0];
      assert (a + b)[1..] == a[1..] + b;
      assert LineValues(a + b, line) == head + LineValues(a[1..] + b, line);
      LineValuesAppend(a[1..], b, line);
      assert LineValues(a, line) == head + LineValues(a[1..], line);
    }
  }

  /** `row` holds the records of line `m`, whose text is `text`. */
  predicate RowOf(row: seq<CharRecord>, text: string, m: nat) {
    |row| == |text| && forall j :: 0 <= j < |row| ==> row[j].lineNumber == m && row[j].value == text[j]
  }

  /** A row of records whose line numbers are all `m` and whose values
      spell `text` gives `text` for line `m` and nothing for any other. */
  lemma {:induction false} LineValuesOfRow(row: seq<CharRecord>, text: string, m: nat, line: nat)
    requires RowOf(row, text, m)
    ensures LineValues(row, line) == if m == line then text else []
  {
    if row != [] {
      LineValuesOfRow(row[1..], text[1..], m, line);
      if m == line {
        assert [text[0]] + text[1..] == text;
      }
    }
  }

  /** `rows` hold, in order, lines base, base + 1, ... whose texts are `lines`. */
  predicate RowsFrom(rows: seq<seq<CharRecord>>, lines: seq<string>, base: nat) {
    |rows| == |lines|
    && (rows != [] ==> RowOf(rows[0], lines[0], base) && RowsFrom(rows[1..], lines[1..], base + 1))
  }

  /** The encoding of lines m, m + 1, ... holds those lines in order. */
  lemma {:induction false} EncodedRowsFrom(lines: seq<string>, now: Clock, m: nat)
    requires m <= |lines|
    ensures RowsFrom(EncodeLines(lines, now)[m..], lines[m..], m)
    decreases |lines| - m
  {
    var rows := EncodeLines(lines, now);
    if m < |lines| {
      EncodedRowsFrom(lines, now, m + 1);
      assert rows[m..][1..] == rows[m + 1..];
      assert lines[m..][1..] == lines[m + 1..];
      assert rows[m..][0] == EncodeLine(lines[m], m, now);
    }
  }

  /** Rows that hold lines base, base + 1, ... in order, flattened, give for
      each line its text if it is among those rows and nothing otherwise. */
  lemma {:induction false} LineValuesFrom(rows: seq<seq<CharRecord>>, lines: seq<string>, base: nat, line: nat)
    requires RowsFrom(rows, lines, base)
    ensures LineValues(Flatten(rows), line)
            == if base <= line < base + |rows| then lines[line - base] else []
  {
    if rows != [] {
      var head, tail := LineValues(rows[0], line), LineValues(Flatten(rows[1..]), line);
      LineValuesFrom(rows[1..], lines[1..], base + 1, line);
      LineValuesAppend(rows[0], Flatten(rows[1..]), line);
      LineValuesOfRow(rows[0], lines[0], base, line);
      assert LineValues(Flatten(rows), line) == head + tail;
      if line == base {
        assert head + tail == lines[0] + [];
      } else {
        assert head + tail == tail;
        if base < line < base + |rows| {
          assert lines[1..][line - (base + 1)] == lines[line - base];
        }
      }
    }
  }

  /** The values of the records on one line spell that line. */
  lemma LineValuesOfPayload(content: string, now: Clock, line: nat)
    requires line < |Split(content, '\n')|
    ensures LineValues(PayloadContent(content, now), line) == Split(content, '\n')[line]
  {
    var lines := Split(content, '\n');
    var rows := EncodeLines(lines, now);
    assert PayloadContent(content, now) == Flatten(rows);
    EncodedRowsFrom(lines, now, 0);
    assert rows[0..] == rows && lines[0..] == lines;
    LineValuesFrom(rows, lines, 0, line);
  }

  /** Grouping the record values by line number, for the first `n` lines,
      yields exactly those lines of the text. */
  lemma {:induction false} RebuildPrefix(content: string, now: Clock, n: nat)
    requires n <= |Split(content, '\n')|
    ensures Rebuild(PayloadContent(content, now), n) == Split(content, '\n')[..n]
  {
    if n > 0 {
      var lines := Split(content, '\n');
      RebuildPrefix(content, now, n - 1);
      LineValuesOfPayload(content, now, n - 1);
      assert lines[..n] == lines[..n - 1] + [lines[n - 1]];
    }
  }

  /** Grouping the record values by line number, given the original number
      of lines, yields exactly the lines of the text. */
  lemma RebuildLines(content: string, now: Clock)
    ensures Rebuild(PayloadContent(content, now), |Split(content, '\n')|) == Split(content, '\n')
  {
    RebuildPrefix(content, now, |Split(content, '\n')|);
    assert Split(content, '\n')[..|Split(content, '\n')|] == Split(content, '\n');
  }

  /** Partial rebuild: the records together with the original line count
      give the text back. */
  lemma RebuildContent(content: string, now: Clock)
    ensures Join(Rebuild(PayloadContent(content, now), Count(content, '\n') + 1), '\n') == content
  {
    RebuildLines(content, now);
    JoinSplit(content, '\n');
  }

  /** The records alone do not determine the text: a trailing newline (an
      empty last line) contributes no record, so it is not recorded. */
  lemma TrailingNewlineNotRecorded(content: string, now: Clock)
    ensures PayloadContent(content + "\n", now) == PayloadContent(content, now)
  {
    var lines := Split(content, '\n');
    SplitAppendSeparator(content, '\n');
    assert EncodeLines(lines + [[]], now) == EncodeLines(lines, now) + [[]];
    FlattenAppend(EncodeLines(lines, now), [[]]);
    assert Flatten<CharRecord>([[]]) == [];
  }
}
