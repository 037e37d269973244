/** The text the matrix programs write to their result files: a title line
    `<title>:`, then one line per row holding the row's values in decimal,
    separated by `,`. The MPI programs and the OpenMP program write the same
    text with differently shaped loops. Reading the text back, line by line
    and field by field, gives the matrix again. */
module MatrixText {
  import opened Wrappers
  import opened Decimal
  import opened TrafficRows
  import opened Matrices

  /** Non-empty fields separated by commas. */
  function JoinFields(fields: seq<string>): string
    requires fields != []
  {
    if |fields| == 1 then fields[0] else fields[0] + "," + JoinFields(fields[1..])
  }

  /** The values of a row in decimal, as `operator<<` prints them. */
  function Decimals(row: seq<int>): (fields: seq<string>)
    ensures |fields| == |row|
    ensures forall i :: 0 <= i < |row| ==> fields[i] == IntToDecimal(row[i])
  {
    seq(|row|, i requires 0 <= i < |row| => IntToDecimal(row[i]))
  }

  /** The printed line of a non-empty row, without its line end. */
  function Joined(row: seq<int>): string
    requires row != []
  {
    JoinFields(Decimals(row))
  }

  /** Every row is non-empty, as the rows of a matrix of size at least 1
      are, and a matrix of size 0 has no rows at all. */
  predicate PrintableRows(m: Matrix) {
    forall r :: 0 <= r < |m| ==> m[r] != []
  }

  /** The printed lines of `m`, without their line ends. */
  function RowLines(m: Matrix): (lines: seq<string>)
    requires PrintableRows(m)
    ensures |lines| == |m|
  {
    seq(|m|, r requires 0 <= r < |m| => Joined(m[r]))
  }

  /** The text of a titled matrix: the title line, then every row's line. */
  function MatrixText(title: string, m: Matrix): string
    requires PrintableRows(m)
  {
    title + ":\n" + RowsText(RowLines(m))
  }

  /** What has been written of a line once `col` of its fields are out:
      those fields, each followed by `,`. */
  function Partial(fields: seq<string>, col: nat): string
    requires col <= |fields|
  {
    if col == 0 then "" else JoinFields(fields[..col]) + ","
  }

  lemma {:induction false} JoinSnoc(fields: seq<string>, f: string)
    requires fields != []
    ensures JoinFields(fields + [f]) == JoinFields(fields) + "," + f
    decreases |fields|
  {
    if |fields| == 1 {
      assert (fields + [f])[1..] == [f];
    } else {
      assert (fields + [f])[1..] == fields[1..] + [f];
      JoinSnoc(fields[1..], f);
    }
  }

  /** Writing the next field of a line followed by `,`. */
  lemma {:induction false} PartialNext(fields: seq<string>, col: nat)
    requires col < |fields|
    ensures Partial(fields, col) + (fields[col] + ",") == Partial(fields, col + 1)
  {
    assert fields[..col + 1] == fields[..col] + [fields[col]];
    if col > 0 {
      JoinSnoc(fields[..col], fields[col]);
    }
  }

  /** Writing the last field of a line followed by `\n` completes it. */
  lemma {:induction false} PartialLast(fields: seq<string>)
    requires fields != []
    ensures Partial(fields, |fields| - 1) + (fields[|fields| - 1] + "\n") == JoinFields(fields) + "\n"
  {
    var k := |fields| - 1;
    if k > 0 {
      assert fields == fields[..k] + [fields[k]];
      JoinSnoc(fields[..k], fields[k]);
    }
  }

  /** The lines of the first `row + 1` rows: those of the first `row`, then
      row `row`'s. */
  lemma {:induction false} LinesSnoc(m: Matrix, row: nat)
    requires PrintableRows(m) && row < |m|
    ensures PrintableRows(m[..row]) && PrintableRows(m[..row + 1])
    ensures RowsText(RowLines(m[..row + 1])) == RowsText(RowLines(m[..row])) + Joined(m[row]) + "\n"
  {
    var before, after := RowLines(m[..row]), RowLines(m[..row + 1]);
    assert forall k :: 0 <= k < row ==> after[k] == before[k];
    assert after == before + [Joined(m[row])];
    RowsTextSnoc(before, Joined(m[row]));
  }

  /** The column loop of the MPI programs' print: every value of the row is
      followed by `,`, except the last, which is followed by `\n`. */
  method WriteRow(row: seq<int>) returns (line: string)
    requires row != []
    ensures line == Joined(row) + "\n"
  {
    ghost var fields := Decimals(row);
    line := "";
    var col := 0;
    while col < |row|
      invariant 0 <= col <= |row|
      invariant col < |row| ==> line == Partial(fields, col)
      invariant col == |row| ==> line == JoinFields(fields) + "\n"
    {
      var text := IntToDecimal(row[col]) + (if col < |row| - 1 then "," else "\n");
      if col < |row| - 1 {
        PartialNext(fields, col);
      } else {
        PartialLast(fields);
      }
      line := line + text;
      col := col + 1;
    }
  }

  /** The MPI programs' print loop over a size-by-size matrix, row by row. */
  method WriteRows(m: Matrix, size: nat) returns (out: string)
    requires IsMatrix(m, size, size)
    ensures PrintableRows(m) && out == RowsText(RowLines(m))
  {
    out := "";
    var row := 0;
    while row < size
      invariant 0 <= row <= size
      invariant PrintableRows(m[..row]) && out == RowsText(RowLines(m[..row]))
    {
      var line := WriteRow(m[row]);
      LinesSnoc(m, row);
      out := out + line;
      row := row + 1;
    }
    assert m[..size] == m;
  }

  /** The column part of the OpenMP program's `print_matrix`: the first
      `size - 1` values each followed by `,`, then the last followed by
      `\n`. */
  method PrintRow(row: seq<int>) returns (line: string)
    requires row != []
    ensures line == Joined(row) + "\n"
  {
    ghost var fields := Decimals(row);
    var size := |row|;
    line := "";
    var c := 0;
    while c < size - 1
      invariant 0 <= c <= size - 1
      invariant line == Partial(fields, c)
    {
      PartialNext(fields, c);
      line := line + (IntToDecimal(row[c]) + ",");
      c := c + 1;
    }
    PartialLast(fields);
    line := line + (IntToDecimal(row[size - 1]) + "\n");
  }

  /** The OpenMP program's `print_matrix`: nothing when the file is not
      open; otherwise the title line, then the line of every row. */
  method PrintMatrix(m: Matrix, title: string, size: nat, fileOpen: bool) returns (out: string)
    requires IsMatrix(m, size, size)
    ensures PrintableRows(m)
    ensures out == if fileOpen then MatrixText(title, m) else ""
  {
    out := "";
    if fileOpen {
      var rows := "";
      var r := 0;
      while r < size
        invariant 0 <= r <= size
        invariant PrintableRows(m[..r]) && rows == RowsText(RowLines(m[..r]))
      {
        var line := PrintRow(m[r]);
        LinesSnoc(m, r);
        rows := rows + line;
        r := r + 1;
      }
      assert m[..size] == m;
      out := title + ":\n" + rows;
    }
  }

  /** The fields of a line: the text between its commas. */
  function SplitFields(s: string): (fields: seq<string>)
    ensures fields != []
    decreases |s|
  {
    match IndexOf(s, ',')
    case None => [s]
    case Some(i) => [s[..i]] + SplitFields(s[i + 1..])
  }

  /** Reading a row back: every field converted with `stoi`, the first
      failure ending the read. */
  function ReadFields(fields: seq<string>): (r: Result<seq<int>, ConversionError>)
    ensures r.Ok? ==> |r.value| == |fields|
  {
    if fields == [] then Ok([])
    else match ParseInteger(fields[0], INT_MIN, INT_MAX)
      case Err(e) => Err(e)
      case Ok(v) =>
        match ReadFields(fields[1..])
        case Err(e) => Err(e)
        case Ok(vs) => Ok([v] + vs)
  }

  function ReadRow(line: string): Result<seq<int>, ConversionError> {
    ReadFields(SplitFields(line))
  }

  /** Reading every line of a text as a row. */
  function ReadRows(lines: seq<string>): (r: Result<Matrix, ConversionError>)
    ensures r.Ok? ==> |r.value| == |lines|
  {
    if lines == [] then Ok([])
    else match ReadRow(lines[0])
      case Err(e) => Err(e)
      case Ok(row) =>
        match ReadRows(lines[1..])
        case Err(e) => Err(e)
        case Ok(rows) => Ok([row] + rows)
  }

  /** Reading a printed matrix body back: its lines, each read as a row. */
  function ReadMatrix(text: string): Result<Matrix, ConversionError> {
    ReadRows(ReadLines(Stream(text, true)))
  }

  /** Every value fits a C++ `int`, so it reads back with `stoi`. */
  predicate IntValues(m: Matrix) {
    forall r, c :: 0 <= r < |m| && 0 <= c < |m[r]| ==> INT_MIN <= m[r][c] <= INT_MAX
  }

  /** Joined fields that hold no comma: exactly `|fields| - 1` commas, and
      a line end only if some field holds one. */
  lemma {:induction false} JoinShape(fields: seq<string>)
    requires fields != [] && forall k :: 0 <= k < |fields| ==> ',' !in fields[k] && '\n' !in fields[k]
    ensures multiset(JoinFields(fields))[','] == |fields| - 1
    ensures '\n' !in JoinFields(fields)
    decreases |fields|
  {
    assert multiset(fields[0])[','] == 0;
    if |fields| > 1 {
      JoinShape(fields[1..]);
      assert multiset(JoinFields(fields)) == multiset(fields[0]) + multiset{','} + multiset(JoinFields(fields[1..]));
    }
  }

  /** Splitting joined comma-free fields at the commas gives them back. */
  lemma {:induction false} SplitJoin(fields: seq<string>)
    requires fields != [] && forall k :: 0 <= k < |fields| ==> ',' !in fields[k]
    ensures SplitFields(JoinFields(fields)) == fields
    decreases |fields|
  {
    var f := fields[0];
    if |fields| == 1 {
      assert IndexOf(f, ',') == None;
    } else {
      var rest := JoinFields(fields[1..]);
      assert JoinFields(fields) == f + [','] + rest;
      IndexOfAfter(f, ',', rest);
      assert (f + [','] + rest)[..|f|] == f && (f + [','] + rest)[|f| + 1..] == rest;
      SplitJoin(fields[1..]);
      assert [f] + fields[1..] == fields;
    }
  }

  /** The decimals of a row hold no comma and no line end. */
  lemma {:induction false} DecimalsPlain(row: seq<int>)
    ensures forall k :: 0 <= k < |row| ==> ',' !in Decimals(row)[k] && '\n' !in Decimals(row)[k]
  {
    forall k | 0 <= k < |row|
      ensures ',' !in Decimals(row)[k] && '\n' !in Decimals(row)[k]
    {
      DecimalCharacters(row[k]);
    }
  }

  /** A printed line holds exactly `|row| - 1` commas and no line end. */
  lemma {:induction false} JoinedShape(row: seq<int>)
    requires row != []
    ensures multiset(Joined(row))[','] == |row| - 1
    ensures '\n' !in Joined(row)
  {
    DecimalsPlain(row);
    JoinShape(Decimals(row));
  }

  /** Fields that each convert read back as the values they convert to. */
  lemma {:induction false} ReadFieldsOk(fields: seq<string>, row: seq<int>)
    requires |fields| == |row|
    requires forall k :: 0 <= k < |row| ==> ParseInteger(fields[k], INT_MIN, INT_MAX) == Ok(row[k])
    ensures ReadFields(fields) == Ok(row)
    decreases |row|
  {
    if row != [] {
      var rest, tail := fields[1..], row[1..];
      forall k | 0 <= k < |tail|
        ensures ParseInteger(rest[k], INT_MIN, INT_MAX) == Ok(tail[k])
      {
        assert rest[k] == fields[k + 1] && tail[k] == row[k + 1];
      }
      ReadFieldsOk(rest, tail);
      assert ParseInteger(fields[0], INT_MIN, INT_MAX) == Ok(row[0]);
      assert ReadFields(fields) == Ok([row[0]] + tail);
      assert [row[0]] + tail == row;
    }
  }

  lemma {:induction false} ReadDecimals(row: seq<int>)
    requires forall c :: 0 <= c < |row| ==> INT_MIN <= row[c] <= INT_MAX
    ensures ReadFields(Decimals(row)) == Ok(row)
  {
    var fields := Decimals(row);
    forall k | 0 <= k < |row|
      ensures ParseInteger(fields[k], INT_MIN, INT_MAX) == Ok(row[k])
    {
      ParseIntegerRoundTrip(row[k], INT_MIN, INT_MAX);
    }
    ReadFieldsOk(fields, row);
  }

  /** A printed row reads back as the row. */
  lemma {:induction false} ReadPrintedRow(row: seq<int>)
    requires row != [] && forall c :: 0 <= c < |row| ==> INT_MIN <= row[c] <= INT_MAX
    ensures ReadRow(Joined(row)) == Ok(row)
  {
    DecimalsPlain(row);
    SplitJoin(Decimals(row));
    ReadDecimals(row);
  }

  /** Lines that each read as a row read back as those rows. */
  lemma {:induction false} ReadRowsOk(lines: seq<string>, m: Matrix)
    requires |lines| == |m|
    requires forall k :: 0 <= k < |m| ==> ReadRow(lines[k]) == Ok(m[k])
    ensures ReadRows(lines) == Ok(m)
    decreases |m|
  {
    if m != [] {
      assert ReadRow(lines[0]) == Ok(m[0]);
      ReadRowsOk(lines[1..], m[1..]);
      assert [m[0]] + m[1..] == m;
    }
  }

  lemma {:induction false} ReadPrintedRows(m: Matrix)
    requires PrintableRows(m) && IntValues(m)
    ensures ReadRows(RowLines(m)) == Ok(m)
  {
    var lines := RowLines(m);
    forall k | 0 <= k < |m|
      ensures ReadRow(lines[k]) == Ok(m[k])
    {
      ReadPrintedRow(m[k]);
    }
    ReadRowsOk(lines, m);
  }

  /** The round trip of the result files: the rows the print loops write
      read back, line by line and field by field, as the matrix. */
  lemma {:induction false} MatrixRoundTrip(m: Matrix, size: nat)
    requires IsMatrix(m, size, size) && IntValues(m)
    ensures PrintableRows(m) && ReadMatrix(RowsText(RowLines(m))) == Ok(m)
  {
    var lines := RowLines(m);
    forall k | 0 <= k < |lines|
      ensures '\n' !in lines[k]
    {
      JoinedShape(m[k]);
    }
    ReadLinesOfText(lines);
    ReadPrintedRows(m);
  }
}
