/**
 * The comma-separated-values reader the catalog loaders share. It has no
 * quoting: every comma separates two cells.
 */
module Csv {
  import opened Text

  /** A parsed record: the object built for one data line, header -> cell. */
  type Row = map<string, string>

  /**
   * Assigning to the key `__proto__` of an object literal runs the
   * prototype setter, which ignores a string value: no property is made.
   */
  const ProtoKey: string := "__proto__"

  /** The lines whose trimmed text is not empty, in order. */
  function NonBlank(ls: seq<string>): (r: seq<string>)
    ensures |r| <= |ls|
    ensures forall i :: 0 <= i < |r| ==> Trim(r[i]) != [] && r[i] in ls
    ensures forall i :: 0 <= i < |ls| && Trim(ls[i]) != [] ==> ls[i] in r
  {
    if ls == [] then []
    else
      assert ls == [ls[0]] + ls[1..];
      (if Trim(ls[0]) != [] then [ls[0]] else []) + NonBlank(ls[1..])
  }

  /** Filtering a concatenation filters each part, keeping their order. */
  lemma {:induction false} NonBlankAppend(a: seq<string>, b: seq<string>)
    ensures NonBlank(a + b) == NonBlank(a) + NonBlank(b)
    decreases |a|
  {
    if a == [] {
      assert a + b == b;
    } else {
      assert (a + b)[1..] == a[1..] + b;
      NonBlankAppend(a[1..], b);
    }
  }

  /** One line is kept exactly when its trimmed text is not empty. */
  lemma NonBlankOne(l: string)
    ensures NonBlank([l]) == if Trim(l) != [] then [l] else []
  {
  }

  /** The non-blank lines of `text.trim()`. */
  function Lines(text: string): seq<string> {
    NonBlank(SplitLines(Trim(text)))
  }

  function TrimAll(cells: seq<string>): (r: seq<string>)
    ensures |r| == |cells|
    ensures forall j :: 0 <= j < |cells| ==> r[j] == Trim(cells[j])
  {
    seq(|cells|, j requires 0 <= j < |cells| => Trim(cells[j]))
  }

  /** `currentLine[j] ? currentLine[j].trim() : ''`. */
  function Cell(cells: seq<string>, j: nat): string {
    if j < |cells| && cells[j] != [] then Trim(cells[j]) else []
  }

  /** The properties a row gets: every header except `__proto__`. */
  function KeySet(headers: seq<string>): set<string> {
    set j | 0 <= j < |headers| && headers[j] != ProtoKey :: headers[j]
  }

  /** Header `j` is the last one with its name. */
  ghost predicate LastOfName(headers: seq<string>, j: int) {
    0 <= j < |headers| && forall k :: j < k < |headers| ==> headers[k] != headers[j]
  }

  /**
   * The object for one data line: each header in turn is assigned its
   * cell, so a repeated header keeps the cell of its last position.
   */
  function MakeRow(headers: seq<string>, cells: seq<string>): Row
    decreases |headers|
  {
    if headers == [] then map[]
    else
      var n := |headers| - 1;
      var row := MakeRow(headers[..n], cells);
      if headers[n] == ProtoKey then row else row[headers[n] := Cell(cells, n)]
  }

  /** A row has one property per distinct header other than `__proto__`. */
  lemma {:induction false} MakeRowKeys(headers: seq<string>, cells: seq<string>)
    ensures MakeRow(headers, cells).Keys == KeySet(headers)
    decreases |headers|
  {
    if headers != [] {
      var n := |headers| - 1;
      var prefix := headers[..n];
      MakeRowKeys(prefix, cells);
      assert forall j :: 0 <= j < n ==> prefix[j] == headers[j];
      if headers[n] == ProtoKey {
        assert KeySet(headers) == KeySet(prefix);
      } else {
        assert KeySet(headers) == KeySet(prefix) + {headers[n]};
      }
    }
  }

  /** The value under a header is the cell at the header's last position. */
  lemma {:induction false} MakeRowValue(headers: seq<string>, cells: seq<string>, j: nat)
    requires LastOfName(headers, j) && headers[j] != ProtoKey
    ensures headers[j] in MakeRow(headers, cells)
    ensures MakeRow(headers, cells)[headers[j]] == Cell(cells, j)
    decreases |headers|
  {
    var n := |headers| - 1;
    var prefix := headers[..n];
    if j < n {
      assert prefix[j] == headers[j];
      assert LastOfName(prefix, j);
      MakeRowValue(prefix, cells, j);
    }
  }

  /**
   * `parseCSV(text)`: the first non-blank line of the trimmed text names
   * the columns; every further non-blank line becomes one Row.
   */
  function ParseCSV(text: string): (rows: seq<Row>)
    ensures |rows| == if |Lines(text)| == 0 then 0 else |Lines(text)| - 1
  {
    if text == [] then [] else RowsOf(Lines(text))
  }

  /** The trimmed cells of a header line. */
  function HeaderCells(line: string): seq<string> {
    TrimAll(Split(line, ','))
  }

  /** The header line and the data lines after it, as rows. */
  function RowsOf(lines: seq<string>): (rows: seq<Row>)
    ensures |rows| == if |lines| == 0 then 0 else |lines| - 1
    ensures forall i :: 0 <= i < |rows| ==> rows[i] == DataRow(lines, i)
  {
    if |lines| == 0 then []
    else seq(|lines| - 1, i requires 0 <= i < |lines| - 1 => DataRow(lines, i))
  }

  /** The row data line `i + 1` becomes under the header line. */
  function DataRow(lines: seq<string>, i: nat): Row
    requires i + 1 < |lines|
  {
    MakeRow(HeaderCells(lines[0]), Split(lines[i + 1], ','))
  }

  /** The column names of a text (none when it has no line). */
  function Headers(text: string): seq<string> {
    var lines := Lines(text);
    if |lines| == 0 then [] else HeaderCells(lines[0])
  }

  lemma RowsOfText(text: string)
    ensures ParseCSV(text) == RowsOf(Lines(text))
  {
    if text == [] {
      assert Split([], '\n') == [[]];
    }
  }

  lemma RowsOfCell(lines: seq<string>, i: nat, j: nat)
    requires i < |RowsOf(lines)|
    requires LastOfName(HeaderCells(lines[0]), j) && HeaderCells(lines[0])[j] != ProtoKey
    ensures HeaderCells(lines[0])[j] in RowsOf(lines)[i]
    ensures RowsOf(lines)[i][HeaderCells(lines[0])[j]] == Cell(Split(lines[i + 1], ','), j)
  {
    assert RowsOf(lines)[i] == DataRow(lines, i);
    MakeRowValue(HeaderCells(lines[0]), Split(lines[i + 1], ','), j);
  }

  lemma RowsOfKeys(lines: seq<string>, i: nat)
    requires i < |RowsOf(lines)|
    ensures RowsOf(lines)[i].Keys == KeySet(HeaderCells(lines[0]))
  {
    assert RowsOf(lines)[i] == DataRow(lines, i);
    MakeRowKeys(HeaderCells(lines[0]), Split(lines[i + 1], ','));
  }

  /**
   * Each value of a row is the trimmed cell under its header's last
   * position, or '' when the line has fewer cells.
   */
  lemma ParseCSVCell(text: string, i: nat, j: nat)
    requires i < |ParseCSV(text)|
    requires LastOfName(Headers(text), j) && Headers(text)[j] != ProtoKey
    ensures Headers(text)[j] in ParseCSV(text)[i]
    ensures ParseCSV(text)[i][Headers(text)[j]] == Cell(Split(Lines(text)[i + 1], ','), j)
  {
    RowsOfText(text);
    RowsOfCell(Lines(text), i, j);
  }

  /** Every row has the same properties: the distinct headers. */
  lemma ParseCSVKeys(text: string, i: nat)
    requires i < |ParseCSV(text)|
    ensures ParseCSV(text)[i].Keys == KeySet(Headers(text))
  {
    RowsOfText(text);
    RowsOfKeys(Lines(text), i);
  }

  /** An empty or all-blank text has no non-blank line, so no rows. */
  lemma BlankTextHasNoRows(text: string)
    requires AllSpace(text)
    ensures |Lines(text)| == 0 && ParseCSV(text) == []
  {
    TrimEmptyIffBlank(text);
    assert Split([], '\n') == [[]];
  }

  /** A text yields no rows exactly when it has at most the header line. */
  lemma NoRowsIffHeaderOnly(text: string)
    ensures ParseCSV(text) == [] <==> |Lines(text)| <= 1
  {
  }
}
