/** The older `find` command of the root package (find.go): records have two
    comma fields, a key and a value, and the report always starts with a
    four-column header. Its `validate`, `createJobs`, `collectResults` and
    `checkError` are the same as the newer command's and are modelled once,
    by `Find.Validate`, `Find.CreateJobs`, `Results.CollectResults` and
    `ErrorQueue.CheckError`. */
module LegacyFind {
  import opened Base
  import opened Text
  import opened Gaiji
  import opened Sorting
  import Find

  /** One match of the older command. */
  datatype LegacyResult = LegacyResult(moji: char, codepoint: string, key: string, value: string)

  function Hit(g: Gaiji, f: seq<string>): LegacyResult
    requires |f| == 2
  {
    LegacyResult(g.moji, g.codepoint, f[0], f[1])
  }

  /** What the worker sends for one record of two fields: a result for each
      catalog glyph contained in the value, in catalog order. */
  function LineMatches(catalog: seq<Gaiji>, f: seq<string>): (rs: seq<LegacyResult>)
    requires |f| == 2
    ensures |rs| <= |catalog|
  {
    if catalog == [] then []
    else
      var g := catalog[|catalog| - 1];
      LineMatches(catalog[..|catalog| - 1], f) + (if Contains(f[1], [g.moji]) then [Hit(g, f)] else [])
  }

  /** The glyphs a run of results names, in order. */
  function GlyphsOf(rs: seq<LegacyResult>): (gs: seq<Gaiji>)
    ensures |gs| == |rs|
  {
    if rs == [] then [] else GlyphsOf(rs[..|rs| - 1]) + [Gaiji(rs[|rs| - 1].moji, rs[|rs| - 1].codepoint)]
  }

  /** A record's results follow catalog order. */
  lemma {:induction false} LineMatchesInCatalogOrder(catalog: seq<Gaiji>, f: seq<string>)
    requires |f| == 2
    ensures Find.IsSubsequence(GlyphsOf(LineMatches(catalog, f)), catalog)
  {
    if catalog != [] {
      var init := catalog[..|catalog| - 1];
      var g := catalog[|catalog| - 1];
      LineMatchesInCatalogOrder(init, f);
      var rs := LineMatches(init, f);
      assert catalog[..|catalog| - 1] == init;
      if Contains(f[1], [g.moji]) {
        var all := rs + [Hit(g, f)];
        assert all[..|all| - 1] == rs;
        var ga := GlyphsOf(all);
        assert ga == GlyphsOf(rs) + [g];
        assert ga[..|ga| - 1] == GlyphsOf(rs) && ga[|ga| - 1] == catalog[|catalog| - 1];
        assert LineMatches(catalog, f) == all;
      } else {
        assert LineMatches(catalog, f) == rs;
      }
    }
  }

  function Matches(catalog: seq<Gaiji>, lines: seq<string>): seq<LegacyResult>
    requires forall i :: 0 <= i < |lines| ==> Find.WellFormed(lines[i], 2)
  {
    if lines == [] then []
    else
      assert Find.WellFormed(lines[|lines| - 1], 2);
      Matches(catalog, lines[..|lines| - 1]) + LineMatches(catalog, Split(lines[|lines| - 1], ','))
  }

  /** The inner loop of the worker: one result for each catalog glyph whose
      character occurs in the record's second field, in catalog order. */
  method MatchLine(catalog: seq<Gaiji>, a: seq<string>) returns (found: seq<LegacyResult>)
    requires |a| == 2
    ensures found == LineMatches(catalog, a)
  {
    found := [];
    for n := 0 to |catalog|
      invariant found == LineMatches(catalog[..n], a)
    {
      var g := catalog[n];
      assert catalog[..n + 1][..n] == catalog[..n];
      if Contains(a[1], [g.moji]) {
        found := found + [LegacyResult(g.moji, g.codepoint, a[0], a[1])];
      }
    }
    assert catalog[..|catalog|] == catalog;
  }

  /** `worker` of find.go: as the newer worker, with records of exactly two
      fields and the value as the field searched. */
  method Worker(catalog: seq<Gaiji>, jobs: seq<string>, cancelFrom: nat) returns (results: seq<LegacyResult>, err: Option<Error>)
    ensures var k := Find.FirstStop(jobs, cancelFrom, 2, 0);
      (forall i :: 0 <= i < k ==> Find.WellFormed(jobs[i], 2))
      && results == Matches(catalog, jobs[..k]) && err == Find.StopError(jobs, cancelFrom, k)
  {
    results := [];
    var k := 0;
    while k < |jobs|
      invariant 0 <= k <= Find.FirstStop(jobs, cancelFrom, 2, 0)
      invariant forall i :: 0 <= i < k ==> Find.WellFormed(jobs[i], 2)
      invariant results == Matches(catalog, jobs[..k])
    {
      var line := jobs[k];
      if k >= cancelFrom {
        assert !Find.Passes(jobs, cancelFrom, 2, k);
        return results, Some(Canceled);
      }
      var a := Split(line, ',');
      if |a| != 2 {
        assert !Find.Passes(jobs, cancelFrom, 2, k);
        return results, Some(ColumnCount(line));
      }
      assert Find.Passes(jobs, cancelFrom, 2, k);
      var found := MatchLine(catalog, a);
      results := results + found;
      assert jobs[..k + 1][..k] == jobs[..k];
      k := k + 1;
    }
    assert jobs[..k] == jobs;
    return results, None;
  }

  /** A result is sent for a record exactly when a catalog glyph's character
      occurs in its value, and it carries that glyph, the key and the value. */
  lemma {:induction false} LineMatchesMembership(catalog: seq<Gaiji>, f: seq<string>, x: LegacyResult)
    requires |f| == 2
    ensures x in LineMatches(catalog, f) <==>
      exists i :: 0 <= i < |catalog| && catalog[i].moji in f[1] && x == Hit(catalog[i], f)
  {
    if catalog != [] {
      var init := catalog[..|catalog| - 1];
      var g := catalog[|catalog| - 1];
      LineMatchesMembership(init, f, x);
      ContainsChar(f[1], g.moji);
      if x in LineMatches(init, f) {
        var i :| 0 <= i < |init| && init[i].moji in f[1] && x == Hit(init[i], f);
        assert catalog[i] == init[i];
      }
      if exists i :: 0 <= i < |catalog| && catalog[i].moji in f[1] && x == Hit(catalog[i], f) {
        var i :| 0 <= i < |catalog| && catalog[i].moji in f[1] && x == Hit(catalog[i], f);
        if i < |init| {
          assert init[i] == catalog[i];
        }
      }
    }
  }

  /** The older worker stops on a record of three fields, which the newer one
      accepts, and the newer one stops on a record of two fields: the two
      commands read different input formats. */
  lemma FormatsDiffer()
    ensures Find.FirstStop(["k,v"], 1, 2, 0) == 1 && Find.FirstStop(["k,v"], 1, 3, 0) == 0
    ensures Find.FirstStop(["i,a,v"], 1, 2, 0) == 0 && Find.FirstStop(["i,a,v"], 1, 3, 0) == 1
  {
    assert Count("k,v", ',') == 1 && |Split("k,v", ',')| == 2;
    assert Count("i,a,v", ',') == 2 && |Split("i,a,v", ',')| == 3;
  }

  // ---------------------------------------------------------------------------
  // Report

  function ResultKey(r: LegacyResult): Key
  {
    (r.codepoint, r.key)
  }

  /** The sort in `Execute` of find.go: a permutation of the results ordered by
      code string, and by key string among equal codes. */
  function SortResults(rs: seq<LegacyResult>): (sorted: seq<LegacyResult>)
    ensures multiset(sorted) == multiset(rs)
    ensures forall i, j :: 0 <= i < j < |sorted| ==> !StrLess(sorted[j].codepoint, sorted[i].codepoint)
    ensures forall i, j :: 0 <= i < j < |sorted| && sorted[i].codepoint == sorted[j].codepoint ==>
              !StrLess(sorted[j].key, sorted[i].key)
  {
    var s := SortBy(rs, ResultKey);
    forall i, j | 0 <= i < j < |s| ensures !StrLess(s[j].codepoint, s[i].codepoint) {
      if s[i].codepoint == s[j].codepoint { StrLessIrreflexive(s[i].codepoint); }
    }
    s
  }

  /** The four column titles of the older report: code, character, key, value. */
  function Header(): seq<string>
  {
    ["コード", "文字", "キー", "値"]
  }

  function Row(r: LegacyResult): seq<string>
  {
    [r.codepoint, [r.moji], r.key, r.value]
  }

  /** A report row reads back as the result it was written from. */
  lemma RowRoundTrip(r: LegacyResult)
    ensures |Row(r)| == 4 && |Row(r)[1]| == 1
    ensures LegacyResult(Row(r)[1][0], Row(r)[0], Row(r)[2], Row(r)[3]) == r
  {
  }

  /** `writeOutputFile` of find.go: a failed create writes nothing and returns
      its error; otherwise the header, then one row per result in the given
      order. `written` is the row counter `i`. */
  method WriteOutputFile(create: Option<Error>, results: seq<LegacyResult>)
    returns (rows: seq<seq<string>>, written: nat, err: Option<Error>)
    ensures create.Some? ==> rows == [] && written == 0 && err == create
    ensures create.None? ==> err == None && written == |results| && |rows| == |results| + 1
    ensures create.None? ==> rows[0] == Header() && forall k :: 0 <= k < |results| ==> rows[k + 1] == Row(results[k])
  {
    if create.Some? {
      return [], 0, create;
    }
    rows, written := [Header()], 0;
    for k := 0 to |results|
      invariant |rows| == k + 1 && written == k && rows[0] == Header()
      invariant forall m :: 0 <= m < k ==> rows[m + 1] == Row(results[m])
    {
      var r := results[k];
      rows := rows + [[r.codepoint, [r.moji], r.key, r.value]];
      written := written + 1;
    }
    return rows, written, None;
  }
}
