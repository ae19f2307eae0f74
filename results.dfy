/** The match record and the report (cmd/result.go): a result's CSV row, the
    header row, writing the report, and draining the result channel. The CSV
    encoding itself (quoting, CRLF) belongs to encoding/csv and is not
    modelled: a written row is its list of fields. */
module Results {
  import opened Base

  /** One match: which glyph was found, and in which record. */
  datatype Result = Result(moji: char, codepoint: string, id: string, attr: string, value: string)

  /** `Result.Csv`: code, character, identifier, attribute and, when asked
      for, the value. */
  function Csv(r: Result, isOutputValue: bool): (row: seq<string>)
  {
    if isOutputValue then [r.codepoint, [r.moji], r.id, r.attr, r.value]
    else [r.codepoint, [r.moji], r.id, r.attr]
  }

  /** `ResultHeaderAry`: the five column titles (code, character, identifier,
      attribute, value). */
  function Header(): (h: seq<string>)
  {
    ["コード", "文字", "識別番号", "属性", "値"]
  }

  /** Reads a five-field row back into a result. */
  function FromCsv(row: seq<string>): Option<Result>
  {
    if |row| == 5 && |row[1]| == 1 then Some(Result(row[1][0], row[0], row[2], row[3], row[4]))
    else None
  }

  /** A row with the value column loses nothing: it reads back as the result. */
  lemma CsvRoundTrip(r: Result)
    ensures FromCsv(Csv(r, true)) == Some(r)
  {
  }

  /** The row without the value column is the first four fields of the full
      row, and the header always keeps its five titles. */
  lemma CsvWithoutValueIsPrefix(r: Result)
    ensures Csv(r, false) == Csv(r, true)[..4]
    ensures |Csv(r, false)| == 4 && |Header()| == 5
  {
  }

  /** Two results give the same short row exactly when they differ at most in
      their value. */
  lemma CsvWithoutValueForgetsOnlyValue(a: Result, b: Result)
    ensures Csv(a, false) == Csv(b, false) <==> a.(value := b.value) == b
  {
    if Csv(a, false) == Csv(b, false) {
      assert [a.moji][0] == [b.moji][0];
    }
  }

  /** `WriteOutputFile`. `create` is the error `os.Create` returns, if any;
      `rows` are the rows handed to the CSV writer, and `written` is the row
      counter `i`. A failed create writes nothing and returns its error;
      otherwise the header comes first exactly when `isOutputHeader`, then one
      row per result, in the given order. */
  method WriteOutputFile(create: Option<Error>, results: seq<Result>, isOutputHeader: bool, isOutputValue: bool)
    returns (rows: seq<seq<string>>, written: nat, err: Option<Error>)
    ensures create.Some? ==> rows == [] && written == 0 && err == create
    ensures create.None? ==> err == None && written == |results|
    ensures create.None? ==> |rows| == |results| + (if isOutputHeader then 1 else 0)
    ensures create.None? && isOutputHeader ==> rows[0] == Header()
    ensures create.None? ==> forall k :: 0 <= k < |results| ==>
              rows[k + (if isOutputHeader then 1 else 0)] == Csv(results[k], isOutputValue)
  {
    rows, written := [], 0;
    if create.Some? {
      return rows, written, create;
    }
    if isOutputHeader {
      rows := rows + [Header()];
    }
    var h := |rows|;
    for k := 0 to |results|
      invariant |rows| == h + k && written == k
      invariant isOutputHeader ==> rows[0] == Header()
      invariant forall m :: 0 <= m < k ==> rows[h + m] == Csv(results[m], isOutputValue)
    {
      rows := rows + [Csv(results[k], isOutputValue)];
      written := written + 1;
    }
    return rows, written, None;
  }

  /** `CollectResults`: drains the channel, which delivered `received`, keeping
      every item in arrival order, with no filtering and no deduplication. */
  method CollectResults<T>(received: seq<T>) returns (results: seq<T>, count: nat)
    ensures results == received
    ensures count == |received|
  {
    results, count := [], 0;
    for k := 0 to |received|
      invariant results == received[..k] && count == k
    {
      results := results + [received[k]];
      count := count + 1;
    }
    assert received[..|received|] == received;
  }
}
