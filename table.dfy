/**
 * `parse_data`: a tab-delimited text, already split into lines, becomes a
 * column table mapping each header name to the list of that column's raw
 * string cells.
 */
module Table {
  import opened Results
  import opened Text

  /** The only error `parse_data` raises on text: a data line with fewer fields than the header. */
  datatype ParseError = IndexError

  type ColumnTable = map<string, seq<string>>

  const Tab: char := '\t'

  /** The fields of one line: `line.strip().split("\t")`. */
  function Fields(line: string): (r: seq<string>)
    ensures |r| >= 1
  {
    Split(Strip(line), Tab)
  }

  /** The fields of every line, in order. */
  function Rows(lines: seq<string>): (r: seq<seq<string>>)
    ensures |r| == |lines|
  {
    seq(|lines|, k requires 0 <= k < |lines| => Fields(lines[k]))
  }

  /** Every row has at least one field per header name. */
  predicate LongEnough(header: seq<string>, rows: seq<seq<string>>)
  {
    forall k :: 0 <= k < |rows| ==> |rows[k]| >= |header|
  }

  /**
   * The cells one row gives column `name`: the row's field at every header
   * position that carries `name`, left to right (more than one only when the
   * header repeats a name).
   */
  function Picks(header: seq<string>, row: seq<string>, name: string): seq<string>
    requires |row| >= |header|
  {
    if header == [] then []
    else
      var j := |header| - 1;
      Picks(header[..j], row, name) + (if header[j] == name then [row[j]] else [])
  }

  /** Column `name` of the table: the picks of every row, row after row. */
  function Column(header: seq<string>, rows: seq<seq<string>>, name: string): seq<string>
    requires LongEnough(header, rows)
  {
    if rows == [] then []
    else
      var i := |rows| - 1;
      Column(header, rows[..i], name) + Picks(header, rows[i], name)
  }

  /** The whole table: every header name mapped to its column. */
  function Columns(header: seq<string>, rows: seq<seq<string>>): ColumnTable
    requires LongEnough(header, rows)
  {
    map name | name in header :: Column(header, rows, name)
  }

  /**
   * What `parse_data` returns for a text: no lines give the empty table; a
   * data line shorter than the header raises; otherwise every header name
   * maps to its column.
   */
  function ParseSpec(lines: seq<string>): (r: Result<ColumnTable, ParseError>)
    ensures |lines| == 0 ==> r == Ok(map[])
    ensures r.Ok? && |lines| > 0 ==> r.value.Keys == set name | name in Fields(lines[0])
  {
    if |lines| == 0 then Ok(map[]) else ParseRows(Fields(lines[0]), Rows(lines[1..]))
  }

  /** The table a header and the split data lines give: an IndexError if some row is short, else the columns. */
  function ParseRows(header: seq<string>, rows: seq<seq<string>>): Result<ColumnTable, ParseError>
  {
    if LongEnough(header, rows) then Ok(Columns(header, rows)) else Err(IndexError)
  }

  /**
   * The table part-way through `parse_data`: rows `done` appended in full and
   * the first `j` fields of `row`.
   */
  ghost function Partial(header: seq<string>, done: seq<seq<string>>, row: seq<string>, j: nat): ColumnTable
    requires LongEnough(header, done)
    requires j <= |header| && j <= |row|
  {
    map name | name in header :: Column(header, done, name) + Picks(header[..j], row, name)
  }

  /** One `append`: field `j` of the row goes to the end of column `header[j]`. */
  lemma AppendField(header: seq<string>, done: seq<seq<string>>, row: seq<string>, j: nat)
    requires LongEnough(header, done)
    requires j < |header| && j < |row|
    ensures var t := Partial(header, done, row, j);
      t[header[j] := t[header[j]] + [row[j]]] == Partial(header, done, row, j + 1)
  {
    assert header[..j + 1][..j] == header[..j];
    var t := Partial(header, done, row, j);
    var u := t[header[j] := t[header[j]] + [row[j]]];
    var v := Partial(header, done, row, j + 1);
    assert u.Keys == v.Keys;
    forall name | name in u.Keys
      ensures u[name] == v[name]
    {
    }
  }

  /** A row whose every field has been appended is one more row done. */
  lemma RowDone(header: seq<string>, done: seq<seq<string>>, row: seq<string>)
    requires LongEnough(header, done) && |row| >= |header|
    ensures LongEnough(header, done + [row])
    ensures Partial(header, done, row, |header|) == Partial(header, done + [row], [], 0)
  {
    assert header[..|header|] == header;
    assert (done + [row])[..|done|] == done;
    var t := Partial(header, done, row, |header|);
    var u := Partial(header, done + [row], [], 0);
    assert t.Keys == u.Keys;
    forall name | name in t.Keys
      ensures t[name] == u[name]
    {
      assert Picks(header[..0], [], name) == [];
    }
  }

  /** The table before any data line: every header name maps to an empty column. */
  lemma NoRowsDone(header: seq<string>, dataframe: ColumnTable)
    requires dataframe.Keys == set name | name in header
    requires forall name :: name in dataframe ==> dataframe[name] == []
    ensures dataframe == Partial(header, [], [], 0)
  {
    var t := Partial(header, [], [], 0);
    forall name | name in t.Keys
      ensures t[name] == []
    {
      assert Picks(header[..0], [], name) == [];
    }
    assert t.Keys == dataframe.Keys;
  }

  /** Once every data line is done, the partial table is what the specification says. */
  lemma AllRowsDone(header: seq<string>, done: seq<seq<string>>, dataframe: ColumnTable)
    requires LongEnough(header, done)
    requires dataframe == Partial(header, done, [], 0)
    ensures ParseRows(header, done) == Ok(dataframe)
  {
    var u := Columns(header, done);
    forall name | name in dataframe.Keys
      ensures dataframe[name] == u[name]
    {
      assert Picks(header[..0], [], name) == [];
    }
    assert dataframe.Keys == u.Keys;
    assert dataframe == u;
  }

  /** A data line with fewer fields than the header makes the whole parse fail. */
  lemma ShortLineFails(lines: seq<string>, i: nat)
    requires 1 <= i < |lines|
    requires |Fields(lines[i])| < |Fields(lines[0])|
    ensures ParseSpec(lines) == Err(IndexError)
  {
    RowOfLine(lines, i);
  }

  /** The first loop of `parse_data`: an empty column for every header name. */
  method EmptyColumns(header: seq<string>) returns (dataframe: ColumnTable)
    ensures dataframe.Keys == set name | name in header
    ensures forall name :: name in dataframe ==> dataframe[name] == []
  {
    dataframe := map[];
    for j := 0 to |header|
      invariant dataframe == map name | name in header[..j] :: []
    {
      dataframe := dataframe[header[j] := []];
      assert header[..j + 1] == header[..j] + [header[j]];
    }
    assert header[..|header|] == header;
  }

  /**
   * The inner loop of `parse_data`: field `j` of one data line is appended to
   * column `header[j]` for every header position; `None` is the IndexError
   * of a line with fewer fields than the header.
   */
  method AppendRow(header: seq<string>, ghost done: seq<seq<string>>, dataframe: ColumnTable, fields: seq<string>)
    returns (r: Option<ColumnTable>)
    requires LongEnough(header, done)
    requires dataframe == Partial(header, done, [], 0)
    ensures r.None? <==> |fields| < |header|
    ensures r.Some? ==> LongEnough(header, done + [fields]) && r.value == Partial(header, done + [fields], [], 0)
  {
    var df := dataframe;
    assert df == Partial(header, done, fields, 0);
    for j := 0 to |header|
      invariant j <= |fields|
      invariant df == Partial(header, done, fields, j)
    {
      if j >= |fields| {
        return None;
      }
      AppendField(header, done, fields, j);
      df := df[header[j] := df[header[j]] + [fields[j]]];
    }
    RowDone(header, done, fields);
    r := Some(df);
  }

  /** `parse_data` on the lines of a file: the header's empty columns, then every data line appended in turn. */
  method ParseData(lines: seq<string>) returns (r: Result<ColumnTable, ParseError>)
    ensures r == ParseSpec(lines)
  {
    if |lines| == 0 {
      return Ok(map[]);
    }
    var header := Fields(lines[0]);
    ghost var rows := Rows(lines[1..]);
    var dataframe := EmptyColumns(header);
    NoRowsDone(header, dataframe);
    for i := 1 to |lines|
      invariant LongEnough(header, rows[..i - 1])
      invariant dataframe == Partial(header, rows[..i - 1], [], 0)
    {
      var fields := Fields(lines[i]);
      RowOfLine(lines, i);
      var next := AppendRow(header, rows[..i - 1], dataframe, fields);
      if next.None? {
        ShortLineFails(lines, i);
        return Err(IndexError);
      }
      assert rows[..i] == rows[..i - 1] + [fields];
      dataframe := next.value;
    }
    assert rows[..|lines| - 1] == rows;
    AllRowsDone(header, rows, dataframe);
    r := Ok(dataframe);
  }

  // ---------------------------------------------------------------------
  // What parse_data promises

  /** No header name occurs twice. */
  predicate Distinct(header: seq<string>)
  {
    forall a, b :: 0 <= a < b < |header| ==> header[a] != header[b]
  }

  /** A header line alone gives one empty column per header field, and nothing else. */
  lemma ParseHeaderOnly(line: string)
    ensures ParseSpec([line]).Ok?
    ensures ParseSpec([line]).value.Keys == set name | name in Fields(line)
    ensures forall name :: name in ParseSpec([line]).value ==> ParseSpec([line]).value[name] == []
  {
    assert Rows([line][1..]) == [];
  }

  lemma {:induction false} PicksAbsent(header: seq<string>, row: seq<string>, name: string)
    requires |row| >= |header|
    requires name !in header
    ensures Picks(header, row, name) == []
    decreases |header|
  {
    if header != [] {
      PicksAbsent(header[..|header| - 1], row, name);
    }
  }

  /** With distinct header names, a row gives column `header[j]` exactly its field `j`. */
  lemma {:induction false} PicksDistinct(header: seq<string>, row: seq<string>, j: nat)
    requires Distinct(header)
    requires j < |header| <= |row|
    ensures Picks(header, row, header[j]) == [row[j]]
    decreases |header|
  {
    var last := |header| - 1;
    var init := header[..last];
    if j == last {
      assert header[j] !in init by {
        forall a | 0 <= a < |init| ensures init[a] != header[j] {
          assert init[a] == header[a];
        }
      }
      PicksAbsent(init, row, header[j]);
    } else {
      assert init[j] == header[j];
      PicksDistinct(init, row, j);
    }
  }

  /** With distinct header names, column `header[j]` is field `j` of every row, in row order. */
  lemma {:induction false} ColumnDistinct(header: seq<string>, rows: seq<seq<string>>, j: nat)
    requires Distinct(header) && LongEnough(header, rows)
    requires j < |header|
    ensures |Column(header, rows, header[j])| == |rows|
    ensures forall k :: 0 <= k < |rows| ==> Column(header, rows, header[j])[k] == rows[k][j]
    decreases |rows|
  {
    if rows != [] {
      var i := |rows| - 1;
      var init := rows[..i];
      assert LongEnough(header, init);
      var before := Column(header, init, header[j]);
      ColumnDistinct(header, init, j);
      PicksDistinct(header, rows[i], j);
      assert Column(header, rows, header[j]) == before + [rows[i][j]];
      forall k | 0 <= k < |rows| ensures Column(header, rows, header[j])[k] == rows[k][j] {
        if k < i {
          assert before[k] == init[k][j];
        }
      }
    }
  }

  /** Data line `i` of the text is row `i - 1` of the table being parsed. */
  lemma RowOfLine(lines: seq<string>, i: nat)
    requires 1 <= i < |lines|
    ensures |Rows(lines[1..])| == |lines| - 1
    ensures Rows(lines[1..])[i - 1] == Fields(lines[i])
  {
    assert lines[1..][i - 1] == lines[i];
  }

  /** With no short data line, `parse_data` succeeds with every header name mapped to its column. */
  lemma ParseSucceeds(lines: seq<string>)
    requires |lines| >= 1
    requires forall i :: 1 <= i < |lines| ==> |Fields(lines[i])| >= |Fields(lines[0])|
    ensures LongEnough(Fields(lines[0]), Rows(lines[1..]))
    ensures ParseSpec(lines) == Ok(Columns(Fields(lines[0]), Rows(lines[1..])))
  {
    var rows := Rows(lines[1..]);
    forall k | 0 <= k < |rows| ensures |rows[k]| >= |Fields(lines[0])| {
      RowOfLine(lines, k + 1);
    }
  }

  /**
   * Over split rows, with distinct header names and no short row: the
   * columns are the header's names, each as long as there are rows, and
   * entry `k` of column `header[j]` is field `j` of row `k`.
   */
  lemma ParseRowsColumns(header: seq<string>, rows: seq<seq<string>>)
    requires Distinct(header) && LongEnough(header, rows)
    ensures ParseRows(header, rows) == Ok(Columns(header, rows))
    ensures Columns(header, rows).Keys == set name | name in header
    ensures forall j :: 0 <= j < |header| ==> |Columns(header, rows)[header[j]]| == |rows|
    ensures forall k, j :: 0 <= k < |rows| && 0 <= j < |header| ==>
      Columns(header, rows)[header[j]][k] == rows[k][j]
  {
    forall j | 0 <= j < |header|
      ensures |Columns(header, rows)[header[j]]| == |rows|
      ensures forall k :: 0 <= k < |rows| ==> Columns(header, rows)[header[j]][k] == rows[k][j]
    {
      ColumnDistinct(header, rows, j);
    }
  }

  /**
   * With distinct header names and no short data line: the columns are the
   * header's names, each as long as there are data lines, and entry `i - 1`
   * of column `header[j]` is field `j` of line `i`.
   */
  lemma ParseColumns(lines: seq<string>, header: seq<string>)
    requires |lines| >= 1 && header == Fields(lines[0])
    requires Distinct(header)
    requires forall i :: 1 <= i < |lines| ==> |Fields(lines[i])| >= |header|
    ensures ParseSpec(lines).Ok?
    ensures ParseSpec(lines).value.Keys == set name | name in header
    ensures forall j :: 0 <= j < |header| ==> |ParseSpec(lines).value[header[j]]| == |lines| - 1
    ensures forall i, j :: 1 <= i < |lines| && 0 <= j < |header| ==>
      ParseSpec(lines).value[header[j]][i - 1] == Fields(lines[i])[j]
  {
    var rows := Rows(lines[1..]);
    ParseSucceeds(lines);
    ParseRowsColumns(header, rows);
    forall i | 1 <= i < |lines| ensures rows[i - 1] == Fields(lines[i]) {
      RowOfLine(lines, i);
    }
  }

  /** `parse_data` fails exactly when some data line has fewer fields than the header. */
  lemma ParseFails(lines: seq<string>)
    ensures ParseSpec(lines).Err? <==>
      |lines| >= 1 && exists i :: 1 <= i < |lines| && |Fields(lines[i])| < |Fields(lines[0])|
  {
    if |lines| >= 1 {
      var header := Fields(lines[0]);
      var rows := Rows(lines[1..]);
      if !LongEnough(header, rows) {
        var k :| 0 <= k < |rows| && |rows[k]| < |header|;
        RowOfLine(lines, k + 1);
      } else {
        forall i | 1 <= i < |lines| ensures |Fields(lines[i])| >= |header| {
          RowOfLine(lines, i);
        }
      }
    }
  }

  lemma {:induction false} PicksAgree(header: seq<string>, r1: seq<string>, r2: seq<string>, name: string)
    requires |r1| >= |header| && |r2| >= |header|
    requires r1[..|header|] == r2[..|header|]
    ensures Picks(header, r1, name) == Picks(header, r2, name)
    decreases |header|
  {
    if header != [] {
      var j := |header| - 1;
      assert r1[..j] == r1[..|header|][..j] && r2[..j] == r2[..|header|][..j];
      assert r1[j] == r1[..|header|][j] && r2[j] == r2[..|header|][j];
      PicksAgree(header[..j], r1, r2, name);
    }
  }

  lemma {:induction false} ColumnAgree(header: seq<string>, rows1: seq<seq<string>>, rows2: seq<seq<string>>, name: string)
    requires LongEnough(header, rows1) && LongEnough(header, rows2) && |rows1| == |rows2|
    requires forall k :: 0 <= k < |rows1| ==> rows1[k][..|header|] == rows2[k][..|header|]
    ensures Column(header, rows1, name) == Column(header, rows2, name)
    decreases |rows1|
  {
    if rows1 != [] {
      var i := |rows1| - 1;
      assert LongEnough(header, rows1[..i]) && LongEnough(header, rows2[..i]);
      ColumnAgree(header, rows1[..i], rows2[..i], name);
      PicksAgree(header, rows1[i], rows2[i], name);
    }
  }

  /**
   * Fields beyond the header's count are never read: two texts with the same
   * header whose data lines agree on the first header-count fields parse to
   * the same table.
   */
  lemma ParseIgnoresExtraFields(lines1: seq<string>, lines2: seq<string>)
    requires |lines1| == |lines2| >= 1
    requires Fields(lines1[0]) == Fields(lines2[0])
    requires forall i :: 1 <= i < |lines1| ==>
      |Fields(lines1[i])| >= |Fields(lines1[0])| && |Fields(lines2[i])| >= |Fields(lines1[0])|
    requires forall i :: 1 <= i < |lines1| ==>
      Fields(lines1[i])[..|Fields(lines1[0])|] == Fields(lines2[i])[..|Fields(lines1[0])|]
    ensures ParseSpec(lines1) == ParseSpec(lines2)
  {
    var header := Fields(lines1[0]);
    var rows1, rows2 := Rows(lines1[1..]), Rows(lines2[1..]);
    forall k | 0 <= k < |rows1|
      ensures |rows1[k]| >= |header| && |rows2[k]| >= |header|
      ensures rows1[k][..|header|] == rows2[k][..|header|]
    {
      RowOfLine(lines1, k + 1);
      RowOfLine(lines2, k + 1);
    }
    var t1, t2 := Columns(header, rows1), Columns(header, rows2);
    forall name | name in header ensures t1[name] == t2[name] {
      ColumnAgree(header, rows1, rows2, name);
    }
    assert t1 == t2;
  }

  /**
   * Because the line is stripped before it is split, a trailing tab is lost
   * with the line end: a line ending in an empty field yields one field fewer
   * than splitting the unstripped text would.
   */
  lemma TrailingEmptyFieldLost(t: string)
    requires Trimmed(t)
    ensures Split(t + [Tab], Tab) == Split(t, Tab) + [[]]
    ensures Fields(t + [Tab, '\n']) == Split(t, Tab)
  {
    SplitTrailingSeparator(t, Tab);
    assert AllSpace([]) && AllSpace([Tab, '\n']);
    StripOfSpaced([], t, [Tab, '\n']);
    assert [] + t + [Tab, '\n'] == t + [Tab, '\n'];
  }

  /**
   * The strip removes a leading tab too: a line whose first cell is empty
   * loses that cell, and every later cell moves one column to the left,
   * where a plain split would keep the empty first field.
   */
  lemma LeadingEmptyFieldLost(t: string)
    requires Trimmed(t)
    ensures Split([Tab] + t, Tab) == [[]] + Split(t, Tab)
    ensures Fields([Tab] + t + ['\n']) == Split(t, Tab)
  {
    var s := [Tab] + t;
    assert IndexOf(s, Tab) == 0;
    assert s[..0] == [] && s[1..] == t;
    assert AllSpace([Tab]) && AllSpace(['\n']);
    StripOfSpaced([Tab], t, ['\n']);
  }

  /**
   * Writing fields joined by tabs, followed by a line break, and reading the
   * line back gives the same fields, as long as the joined text does not
   * start or end with whitespace (which the strip would remove).
   */
  lemma FieldsOfJoinedLine(fields: seq<string>)
    requires |fields| >= 1
    requires forall k :: 0 <= k < |fields| ==> Tab !in fields[k]
    requires Trimmed(Join(fields, Tab))
    ensures Fields(Join(fields, Tab) + ['\n']) == fields
  {
    var t := Join(fields, Tab);
    assert AllSpace([]) && AllSpace(['\n']);
    StripOfSpaced([], t, ['\n']);
    assert [] + t + ['\n'] == t + ['\n'];
    SplitJoin(fields, Tab);
  }
}
