/** The text side of the traffic pipeline: the generator writes one
    `id,ts,cars` line per light and sample, and each producer reads a line
    with `getline` and splits it into a `buf_t` record with `getline` on a
    `stringstream` followed by `stoi`/`stol`. */
module TrafficRows {
  import opened Wrappers
  import opened Decimal
  import Layout

  /** One sensor record, the source's `buf_t`: light id, epoch seconds, car count. */
  datatype Reading = Reading(id: int, ts: int, cars: int)

  /** An input stream as `getline` sees it: the unread characters and whether
      the stream is still good (neither end-of-file nor failure flagged). */
  datatype Stream = Stream(rest: string, good: bool)

  /** Outcome of one `getline` call: whether it succeeded, the target string
      afterwards, and the stream afterwards. */
  datatype Got = Got(ok: bool, text: string, stream: Stream)

  /** Position of the first `c` in `s`, if any. */
  function IndexOf(s: string, c: char): (r: Option<nat>)
    ensures r.Some? ==> r.value < |s| && s[r.value] == c && c !in s[..r.value]
    ensures r.None? ==> c !in s
  {
    if s == [] then None
    else if s[0] == c then Some(0)
    else match IndexOf(s[1..], c)
      case None => None
      case Some(i) =>
        assert s[..i + 1] == [s[0]] + s[1..][..i];
        Some(i + 1)
  }

  /** `std::getline(in, str, delim)`. A stream that is no longer good fails at
      once and leaves `str` as it was. Otherwise `str` is cleared and the
      characters up to the delimiter are moved into it; the delimiter is
      consumed but not stored. Running out of input sets end-of-file, and
      extracting nothing at all (the input was already used up) fails. */
  function GetLine(st: Stream, delim: char, str: string): (g: Got)
    ensures g.ok ==> st.good && delim !in g.text
    ensures g.ok ==>
      ((st.rest == g.text + [delim] + g.stream.rest && g.stream.good)
       || (st.rest == g.text && g.stream == Stream([], false)))
    ensures !g.ok ==> !g.stream.good && (g.text == str || (st.good && g.text == []))
  {
    if !st.good then Got(false, str, st)
    else if st.rest == [] then Got(false, "", Stream([], false))
    else match IndexOf(st.rest, delim)
      case Some(k) =>
        assert st.rest == st.rest[..k] + [delim] + st.rest[k + 1..];
        Got(true, st.rest[..k], Stream(st.rest[k + 1..], true))
      case None => Got(true, st.rest, Stream([], false))
  }

  /** A field that `stoi`/`stol` rejected: which field (0, 1 or 2) and why. */
  datatype RowError = BadField(field: nat, error: ConversionError)

  function Field(text: string, field: nat, lo: int, hi: int): (r: Result<int, RowError>)
    ensures r.Ok? <==> ParseInteger(text, lo, hi).Ok?
    ensures r.Ok? ==> r.value == ParseInteger(text, lo, hi).value
    ensures r.Err? ==> r.error == BadField(field, ParseInteger(text, lo, hi).error)
  {
    match ParseInteger(text, lo, hi)
    case Ok(v) => Ok(v)
    case Err(e) => Err(BadField(field, e))
  }

  /** The producer's parse of one line: `getline(ss, col, ',')` then `stoi`
      for the id, `getline(ss, col, ',')` then `stol` for the timestamp,
      `getline(ss, col)` then `stoi` for the car count. A conversion that
      throws ends the parse with that field's error. */
  function ParseRow(row: string): (r: Result<Reading, RowError>)
    ensures r.Ok? ==> INT_MIN <= r.value.id <= INT_MAX && LONG_MIN <= r.value.ts <= LONG_MAX
    ensures r.Ok? ==> INT_MIN <= r.value.cars <= INT_MAX
  {
    var f1 := GetLine(Stream(row, true), ',', "");
    var id :- Field(f1.text, 0, INT_MIN, INT_MAX);
    var f2 := GetLine(f1.stream, ',', f1.text);
    var ts :- Field(f2.text, 1, LONG_MIN, LONG_MAX);
    var f3 := GetLine(f2.stream, '\n', f2.text);
    var cars :- Field(f3.text, 2, INT_MIN, INT_MAX);
    Ok(Reading(id, ts, cars))
  }

  /** The generator's line for one record, `j << "," << ts << "," << cars`
      (the `endl` after it is added by `RowsText`). */
  function RenderReading(rd: Reading): string {
    IntToDecimal(rd.id) + "," + IntToDecimal(rd.ts) + "," + IntToDecimal(rd.cars)
  }

  /** The values each field's conversion accepts. */
  predicate Representable(rd: Reading) {
    INT_MIN <= rd.id <= INT_MAX && LONG_MIN <= rd.ts <= LONG_MAX && INT_MIN <= rd.cars <= INT_MAX
  }

  lemma IndexOfAfter(a: string, c: char, b: string)
    requires c !in a
    ensures IndexOf(a + [c] + b, c) == Some(|a|)
  {
    var s := a + [c] + b;
    assert s[|a|] == c;
    assert s[..|a|] == a;
    assert forall v :: |a| < v <= |s| ==> s[..v][|a|] == c;
  }

  /** `getline` on a good stream whose next delimiter ends `a` yields `a`
      and leaves the stream good just after the delimiter. */
  lemma GetLineBefore(a: string, delim: char, b: string, str: string)
    requires delim !in a
    ensures GetLine(Stream(a + [delim] + b, true), delim, str) == Got(true, a, Stream(b, true))
  {
    var s := a + [delim] + b;
    IndexOfAfter(a, delim, b);
    assert s[..|a|] == a;
    assert s[|a| + 1..] == b;
  }

  /** `getline` on a good stream with no delimiter left yields the whole rest
      and flags end-of-file. */
  lemma GetLineLast(a: string, delim: char, str: string)
    requires delim !in a && a != []
    ensures GetLine(Stream(a, true), delim, str) == Got(true, a, Stream([], false))
  {
  }

  lemma FieldRoundTrip(n: int, field: nat, lo: int, hi: int)
    requires lo <= n <= hi
    ensures Field(IntToDecimal(n), field, lo, hi) == Ok(n)
  {
    ParseIntegerRoundTrip(n, lo, hi);
  }

  /** Round trip: the producer's parser reads back exactly the record the
      generator rendered, in the field order id, ts, cars. */
  lemma ParseRenderedRow(rd: Reading)
    requires Representable(rd)
    ensures ParseRow(RenderReading(rd)) == Ok(rd)
  {
    var a, b, c := IntToDecimal(rd.id), IntToDecimal(rd.ts), IntToDecimal(rd.cars);
    DecimalCharacters(rd.id);
    DecimalCharacters(rd.ts);
    DecimalCharacters(rd.cars);
    assert RenderReading(rd) == a + [','] + (b + [','] + c);
    GetLineBefore(a, ',', b + [','] + c, "");
    GetLineBefore(b, ',', c, a);
    GetLineLast(c, '\n', b);
    FieldRoundTrip(rd.id, 0, INT_MIN, INT_MAX);
    FieldRoundTrip(rd.ts, 1, LONG_MIN, LONG_MAX);
    FieldRoundTrip(rd.cars, 2, INT_MIN, INT_MAX);
  }

  /** A line whose first field holds no digit makes `stoi` throw
      `invalid_argument` before anything else is read. */
  lemma NonNumericIdRejected(id: string, rest: string)
    requires ',' !in id
    requires forall i :: 0 <= i < |id| ==> !IsDigit(id[i])
    ensures ParseRow(id + "," + rest) == Err(BadField(0, InvalidArgument))
  {
    IndexOfAfter(id, ',', rest);
    assert id + "," + rest == id + [','] + rest;
    ParseIntegerNoDigits(id, INT_MIN, INT_MAX);
  }

  /** The producers' `getline(fin, row)` loop: lines are taken in order until
      a `getline` fails. */
  function ReadLines(st: Stream): (rows: seq<string>)
    decreases |st.rest|, st.good
  {
    var g := GetLine(st, '\n', "");
    if !g.ok then [] else [g.text] + ReadLines(g.stream)
  }

  /** The file the generator writes: every line followed by `endl`. */
  function RowsText(rows: seq<string>): string {
    if rows == [] then "" else rows[0] + "\n" + RowsText(rows[1..])
  }

  /** Writing one more line appends it, with its line end, to the file. */
  lemma {:induction false} RowsTextSnoc(lines: seq<string>, line: string)
    ensures RowsText(lines + [line]) == RowsText(lines) + line + "\n"
    decreases |lines|
  {
    if lines != [] {
      assert (lines + [line])[1..] == lines[1..] + [line];
      RowsTextSnoc(lines[1..], line);
    } else {
      assert RowsText([line]) == line + "\n" + RowsText([]);
    }
  }

  /** Reading the generator's file line by line gives back its lines. */
  lemma {:induction false} ReadLinesOfText(rows: seq<string>)
    requires forall k :: 0 <= k < |rows| ==> '\n' !in rows[k]
    ensures ReadLines(Stream(RowsText(rows), true)) == rows
  {
    if rows != [] {
      var rest := RowsText(rows[1..]);
      assert RowsText(rows) == rows[0] + ['\n'] + rest;
      IndexOfAfter(rows[0], '\n', rest);
      var g := GetLine(Stream(RowsText(rows), true), '\n', "");
      assert g == Got(true, rows[0], Stream(rest, true));
      ReadLinesOfText(rows[1..]);
      assert ReadLines(Stream(RowsText(rows), true)) == [rows[0]] + ReadLines(Stream(rest, true));
    }
  }

  /** The producers' loop over the lines of a file with row parser `parse`:
      lines are parsed in order and the first one that throws stops the parse. */
  function ParseLines<R>(rows: seq<string>, parse: string -> Result<R, RowError>): (r: Result<seq<R>, RowError>)
    ensures r.Ok? ==> |r.value| == |rows|
  {
    if rows == [] then Ok([])
    else
      var first :- parse(rows[0]);
      var others :- ParseLines(rows[1..], parse);
      Ok([first] + others)
  }

  /** The producers' whole job on a file. */
  function ParseAll(rows: seq<string>): (r: Result<seq<Reading>, RowError>)
    ensures r.Ok? ==> |r.value| == |rows|
  {
    ParseLines(rows, ParseRow)
  }

  function RenderAll(records: seq<Reading>): (rows: seq<string>)
    ensures |rows| == |records|
    ensures forall k :: 0 <= k < |rows| ==> rows[k] == RenderReading(records[k])
  {
    if records == [] then [] else [RenderReading(records[0])] + RenderAll(records[1..])
  }

  /** Rendering one more record appends its row. */
  lemma RenderAllSnoc(records: seq<Reading>, rd: Reading)
    ensures RenderAll(records + [rd]) == RenderAll(records) + [RenderReading(rd)]
  {
    var rows := RenderAll(records + [rd]);
    assert forall k :: 0 <= k < |records| ==> rows[k] == RenderAll(records)[k];
  }

  /** End-to-end round trip: the records the generator writes are the records
      the producers read back from the file. */
  lemma {:induction false} ParseGeneratedFile(records: seq<Reading>)
    requires forall k :: 0 <= k < |records| ==> Representable(records[k])
    ensures ParseAll(ReadLines(Stream(RowsText(RenderAll(records)), true))) == Ok(records)
  {
    var rows := RenderAll(records);
    forall k | 0 <= k < |rows|
      ensures '\n' !in rows[k]
    {
      DecimalCharacters(records[k].id);
      DecimalCharacters(records[k].ts);
      DecimalCharacters(records[k].cars);
    }
    ReadLinesOfText(rows);
    ParseAllRendered(records);
  }

  /** Parsing a whole file succeeds with the values its lines parse to one by one. */
  lemma {:induction false} ParseLinesOk<R>(rows: seq<string>, parse: string -> Result<R, RowError>, values: seq<R>)
    requires |rows| == |values|
    requires forall k :: 0 <= k < |rows| ==> parse(rows[k]) == Ok(values[k])
    ensures ParseLines(rows, parse) == Ok(values)
  {
    if rows != [] {
      ParseLinesOk(rows[1..], parse, values[1..]);
      assert values == [values[0]] + values[1..];
    }
  }

  lemma ParseAllRendered(records: seq<Reading>)
    requires forall k :: 0 <= k < |records| ==> Representable(records[k])
    ensures ParseAll(RenderAll(records)) == Ok(records)
  {
    var rows := RenderAll(records);
    forall k | 0 <= k < |rows|
      ensures ParseRow(rows[k]) == Ok(records[k])
    {
      ParseRenderedRow(records[k]);
    }
    ParseLinesOk(rows, ParseRow, records);
  }

  /** Generator constants: `SAMPLES` five-minute samples (24 hours), cars
      drawn below `MAX_CARS`, consecutive samples `SAMPLE_STEP` seconds apart. */
  const SAMPLES: nat := 288
  const MAX_CARS: nat := 100
  const SAMPLE_STEP: nat := 300

  /** Record k is light k % n of sample k / n, stamped `ts0 + 300 * (k / n)`
      and carrying the k-th draw of `rand()` reduced below `MAX_CARS`. */
  predicate GeneratedPrefix(records: seq<Reading>, n: nat, ts0: int, draws: seq<nat>) {
    |records| <= |draws| && (records == [] || n > 0) &&
    forall k :: 0 <= k < |records| ==>
      records[k] == Reading(k % n, ts0 + SAMPLE_STEP * (k / n), draws[k] % MAX_CARS)
  }

  lemma ExtendGenerated(records: seq<Reading>, n: nat, i: nat, j: nat, ts0: int, draws: seq<nat>)
    requires j < n && |records| == i * n + j < |draws|
    requires GeneratedPrefix(records, n, ts0, draws)
    ensures GeneratedPrefix(records + [Reading(j, ts0 + SAMPLE_STEP * i, draws[i * n + j] % MAX_CARS)], n, ts0, draws)
  {
    Layout.CellOfFlatIndex(i, j, n);
  }

  /** The generator's loops: for each sample i and each light j it emits
      `j,ts,rand() % MAX_CARS`, then advances ts by 300 seconds. `draws` are
      the successive values of `rand()`, one per line; each line is written
      as soon as its record is made. A non-positive light count emits
      nothing. */
  method Generate(lights: int, ts0: int, draws: seq<nat>) returns (records: seq<Reading>, text: string)
    requires |draws| >= SAMPLES * (if lights > 0 then lights else 0)
    ensures |records| == SAMPLES * (if lights > 0 then lights else 0)
    ensures GeneratedPrefix(records, if lights > 0 then lights else 0, ts0, draws)
    ensures text == RowsText(RenderAll(records))
  {
    var n: nat := if lights > 0 then lights else 0;
    records, text := [], "";
    var i := 0;
    while i < SAMPLES
      invariant 0 <= i <= SAMPLES
      invariant |records| == i * n
      invariant GeneratedPrefix(records, n, ts0, draws)
      invariant text == RowsText(RenderAll(records))
    {
      records, text := GenerateSample(records, text, n, i, ts0, draws);
      i := i + 1;
    }
  }

  /** One pass of the generator's inner loop: sample `i` of every light,
      each line written as soon as its record is made. */
  method GenerateSample(records0: seq<Reading>, text0: string, n: nat, i: nat, ts0: int, draws: seq<nat>)
    returns (records: seq<Reading>, text: string)
    requires i < SAMPLES && |draws| >= SAMPLES * n && |records0| == i * n
    requires GeneratedPrefix(records0, n, ts0, draws)
    requires text0 == RowsText(RenderAll(records0))
    ensures |records| == (i + 1) * n
    ensures GeneratedPrefix(records, n, ts0, draws)
    ensures text == RowsText(RenderAll(records))
  {
    Layout.RowFits(i, SAMPLES, n);
    records, text := records0, text0;
    var j := 0;
    while j < n
      invariant 0 <= j <= n
      invariant |records| == i * n + j
      invariant GeneratedPrefix(records, n, ts0, draws)
      invariant text == RowsText(RenderAll(records))
    {
      records, text := GenerateReading(records, text, n, i, j, ts0, draws);
      j := j + 1;
    }
  }

  /** The inner loop's body: light `j` at sample `i` gets the next draw
      modulo `MAX_CARS`, and its line is written at once. */
  method GenerateReading(records0: seq<Reading>, text0: string, n: nat, i: nat, j: nat, ts0: int, draws: seq<nat>)
    returns (records: seq<Reading>, text: string)
    requires j < n && |records0| == i * n + j < |draws|
    requires GeneratedPrefix(records0, n, ts0, draws)
    requires text0 == RowsText(RenderAll(records0))
    ensures |records| == |records0| + 1
    ensures GeneratedPrefix(records, n, ts0, draws)
    ensures text == RowsText(RenderAll(records))
  {
    var rd := Reading(j, ts0 + SAMPLE_STEP * i, draws[i * n + j] % MAX_CARS);
    ExtendGenerated(records0, n, i, j, ts0, draws);
    text := WriteRecord(records0, text0, rd);
    records := records0 + [rd];
  }

  /** Writes a record's line after the file of the earlier records, giving
      the file of all of them. */
  method WriteRecord(records: seq<Reading>, text0: string, rd: Reading) returns (text: string)
    requires text0 == RowsText(RenderAll(records))
    ensures text == RowsText(RenderAll(records + [rd]))
  {
    RenderAllSnoc(records, rd);
    RowsTextSnoc(RenderAll(records), RenderReading(rd));
    text := text0 + RenderReading(rd) + "\n";
  }

  /** Whatever `rand()` returns, the generated records survive the trip
      through the file: every id (below the light count), every timestamp
      (as long as the last sample's stamp fits in a `long`) and every car
      count (below `MAX_CARS`) is read back by the producers unchanged. */
  lemma GeneratedFileParses(records: seq<Reading>, n: nat, ts0: int, draws: seq<nat>)
    requires GeneratedPrefix(records, n, ts0, draws) && |records| == SAMPLES * n
    requires n <= INT_MAX
    requires LONG_MIN <= ts0 && ts0 + SAMPLE_STEP * (SAMPLES - 1) <= LONG_MAX
    ensures ParseAll(ReadLines(Stream(RowsText(RenderAll(records)), true))) == Ok(records)
  {
    forall k | 0 <= k < |records|
      ensures Representable(records[k])
    {
      Layout.CellOfBounds(k, SAMPLES, n);
    }
    ParseGeneratedFile(records);
  }
}
