/** The `find` command (cmd/find/cmdFind.go): flag validation, the job source
    that queues the input file's lines, the worker that matches each line
    against the glyph catalog, and the report order. Channels are sequences:
    what a stage sends is returned as a sequence. The shared cancellation
    context is `cancelFrom`, the position of the first line at whose dequeue
    (or scan) `ctx.Done()` is already closed; a value at or beyond the number
    of lines means the context is never seen cancelled. */
module Find {
  import opened Base
  import opened Text
  import opened Gaiji
  import opened Results
  import opened Sorting

  /** The command's flags. */
  datatype FindCmd = FindCmd(input: string, output: string, gaiji: string, workerCount: int,
                             header: bool, value: bool)

  /** `validate`: input, output and catalog paths must be given and the worker
      count must be positive, checked in that order; the first failure is
      reported. */
  function Validate(p: FindCmd): (err: Option<Error>)
    ensures err == None <==> p.input != [] && p.output != [] && p.gaiji != [] && p.workerCount > 0
    ensures p.input == [] ==> err == Some(MissingFlag("-i"))
    ensures p.input != [] && p.output == [] ==> err == Some(MissingFlag("-o"))
    ensures p.input != [] && p.output != [] && p.gaiji == [] ==> err == Some(MissingFlag("-g"))
    ensures err == Some(BadWorkerCount(p.workerCount)) <==>
              p.input != [] && p.output != [] && p.gaiji != [] && p.workerCount <= 0
  {
    if p.input == [] then Some(MissingFlag("-i"))
    else if p.output == [] then Some(MissingFlag("-o"))
    else if p.gaiji == [] then Some(MissingFlag("-g"))
    else if p.workerCount <= 0 then Some(BadWorkerCount(p.workerCount))
    else None
  }

  // ---------------------------------------------------------------------------
  // Job source

  /** `createJobs`: queues the scanned lines in file order, stopping without
      error at the first line scanned after cancellation; otherwise returns the
      scanner's error. `count` is the job counter `i`. */
  method CreateJobs(file: LineFile, cancelFrom: nat) returns (queue: seq<string>, count: nat, err: Option<Error>)
    ensures file.Unopenable? ==> queue == [] && count == 0 && err == Some(file.openErr)
    ensures file.Lines? && cancelFrom < |file.lines| ==> queue == file.lines[..cancelFrom] && err == None
    ensures file.Lines? && cancelFrom >= |file.lines| ==> queue == file.lines && err == file.scanErr
    ensures count == |queue|
  {
    queue, count := [], 0;
    match file
    case Unopenable(e) =>
      return queue, count, Some(e);
    case Lines(lines, scanErr) =>
      var k := 0;
      while k < |lines|
        invariant 0 <= k <= |lines| && k <= cancelFrom
        invariant queue == lines[..k] && count == k
      {
        if k >= cancelFrom {
          return queue, count, None;
        }
        queue := queue + [lines[k]];
        count := count + 1;
        k := k + 1;
      }
      assert lines[..k] == lines;
      return queue, count, scanErr;
  }

  // ---------------------------------------------------------------------------
  // Worker

  /** The line splits on commas into exactly `width` fields. */
  predicate WellFormed(line: string, width: nat)
  {
    |Split(line, ',')| == width
  }

  /** The worker goes past the line at `i`: the context was not yet
      cancelled when it was dequeued and it has the expected field count. */
  predicate Passes(jobs: seq<string>, cancelFrom: nat, width: nat, i: nat)
    requires i < |jobs|
  {
    i < cancelFrom && WellFormed(jobs[i], width)
  }

  /** Where a worker that dequeues `jobs` (from position `from` on) stops: at
      the first line dequeued after cancellation or the first line with the
      wrong field count, or at the end of the queue. */
  function FirstStop(jobs: seq<string>, cancelFrom: nat, width: nat, from: nat): (k: nat)
    requires from <= |jobs|
    ensures from <= k <= |jobs|
    ensures forall i :: from <= i < k ==> Passes(jobs, cancelFrom, width, i)
    ensures k < |jobs| ==> !Passes(jobs, cancelFrom, width, k)
    decreases |jobs| - from
  {
    if from == |jobs| || !Passes(jobs, cancelFrom, width, from) then from
    else FirstStop(jobs, cancelFrom, width, from + 1)
  }

  /** The error a worker returns when it stops at `k`: nil at the end of the
      queue, the context's error if cancellation was observed, otherwise the
      format error naming the line. */
  function StopError(jobs: seq<string>, cancelFrom: nat, k: nat): Option<Error>
    requires k <= |jobs|
  {
    if k == |jobs| then None
    else if k >= cancelFrom then Some(Canceled)
    else Some(ColumnCount(jobs[k]))
  }

  /** The result for glyph `g` found in the record with fields `f`: the fields
      are carried over untrimmed. */
  function Hit(g: Gaiji, f: seq<string>): Result
    requires |f| == 3
  {
    Result(g.moji, g.codepoint, f[0], f[1], f[2])
  }

  /** What the worker sends for one well-formed record: a result for each
      catalog glyph contained in the third field, in catalog order. */
  function LineMatches(catalog: seq<Gaiji>, f: seq<string>): (rs: seq<Result>)
    requires |f| == 3
    ensures |rs| <= |catalog|
  {
    if catalog == [] then []
    else
      var g := catalog[|catalog| - 1];
      LineMatches(catalog[..|catalog| - 1], f) + (if Contains(f[2], [g.moji]) then [Hit(g, f)] else [])
  }

  /** What the worker sends for a run of well-formed lines, line after line. */
  function Matches(catalog: seq<Gaiji>, lines: seq<string>): seq<Result>
    requires forall i :: 0 <= i < |lines| ==> WellFormed(lines[i], 3)
  {
    if lines == [] then []
    else
      assert WellFormed(lines[|lines| - 1], 3);
      Matches(catalog, lines[..|lines| - 1]) + LineMatches(catalog, Split(lines[|lines| - 1], ','))
  }

  /** The inner loop of the worker: one result for each catalog glyph whose
      character occurs in the record's third field, in catalog order. */
  method MatchLine(catalog: seq<Gaiji>, a: seq<string>) returns (found: seq<Result>)
    requires |a| == 3
    ensures found == LineMatches(catalog, a)
  {
    found := [];
    for n := 0 to |catalog|
      invariant found == LineMatches(catalog[..n], a)
    {
      var g := catalog[n];
      assert catalog[..n + 1][..n] == catalog[..n];
      if Contains(a[2], [g.moji]) {
        found := found + [Result(g.moji, g.codepoint, a[0], a[1], a[2])];
      }
    }
    assert catalog[..|catalog|] == catalog;
  }

  /** `worker`: dequeues `jobs` in order. On each line it first checks the
      context and returns its error if cancelled; then a line that does not
      split into exactly 3 comma fields ends the worker with a format error;
      otherwise one result per matching catalog glyph is sent. The results
      are exactly those of the lines before the stopping point. */
  method Worker(catalog: seq<Gaiji>, jobs: seq<string>, cancelFrom: nat) returns (results: seq<Result>, err: Option<Error>)
    ensures var k := FirstStop(jobs, cancelFrom, 3, 0);
      (forall i :: 0 <= i < k ==> WellFormed(jobs[i], 3))
      && results == Matches(catalog, jobs[..k]) && err == StopError(jobs, cancelFrom, k)
  {
    results := [];
    var k := 0;
    while k < |jobs|
      invariant 0 <= k <= FirstStop(jobs, cancelFrom, 3, 0)
      invariant forall i :: 0 <= i < k ==> WellFormed(jobs[i], 3)
      invariant results == Matches(catalog, jobs[..k])
    {
      var line := jobs[k];
      if k >= cancelFrom {
        assert !Passes(jobs, cancelFrom, 3, k);
        return results, Some(Canceled);
      }
      var a := Split(line, ',');
      if |a| != 3 {
        assert !Passes(jobs, cancelFrom, 3, k);
        return results, Some(ColumnCount(line));
      }
      assert Passes(jobs, cancelFrom, 3, k);
      var found := MatchLine(catalog, a);
      results := results + found;
      assert jobs[..k + 1][..k] == jobs[..k];
      k := k + 1;
    }
    assert jobs[..k] == jobs;
    return results, None;
  }

  // ---------------------------------------------------------------------------
  // Properties of the worker's output

  /** A result is sent for a record exactly when a catalog glyph's character
      occurs in its third field, and it carries that glyph and the record's
      fields unchanged. */
  lemma {:induction false} LineMatchesMembership(catalog: seq<Gaiji>, f: seq<string>, x: Result)
    requires |f| == 3
    ensures x in LineMatches(catalog, f) <==>
      exists i :: 0 <= i < |catalog| && catalog[i].moji in f[2] && x == Hit(catalog[i], f)
  {
    if catalog != [] {
      var init := catalog[..|catalog| - 1];
      var g := catalog[|catalog| - 1];
      LineMatchesMembership(init, f, x);
      ContainsChar(f[2], g.moji);
      if x in LineMatches(init, f) {
        var i :| 0 <= i < |init| && init[i].moji in f[2] && x == Hit(init[i], f);
        assert catalog[i] == init[i];
      }
      if exists i :: 0 <= i < |catalog| && catalog[i].moji in f[2] && x == Hit(catalog[i], f) {
        var i :| 0 <= i < |catalog| && catalog[i].moji in f[2] && x == Hit(catalog[i], f);
        if i < |init| {
          assert init[i] == catalog[i];
        }
      }
    }
  }

  /** The glyphs of a run of results. */
  function GlyphsOf(rs: seq<Result>): (gs: seq<Gaiji>)
    ensures |gs| == |rs|
  {
    if rs == [] then [] else GlyphsOf(rs[..|rs| - 1]) + [Gaiji(rs[|rs| - 1].moji, rs[|rs| - 1].codepoint)]
  }

  /** `a` can be obtained from `b` by deleting elements. */
  predicate IsSubsequence<T(==)>(a: seq<T>, b: seq<T>)
  {
    a == [] || (b != [] && ((a[|a| - 1] == b[|b| - 1] && IsSubsequence(a[..|a| - 1], b[..|b| - 1]))
                            || IsSubsequence(a, b[..|b| - 1])))
  }

  /** A record's results follow catalog order. */
  lemma {:induction false} LineMatchesInCatalogOrder(catalog: seq<Gaiji>, f: seq<string>)
    requires |f| == 3
    ensures IsSubsequence(GlyphsOf(LineMatches(catalog, f)), catalog)
  {
    if catalog != [] {
      var init := catalog[..|catalog| - 1];
      var g := catalog[|catalog| - 1];
      LineMatchesInCatalogOrder(init, f);
      var rs := LineMatches(init, f);
      assert catalog[..|catalog| - 1] == init;
      if Contains(f[2], [g.moji]) {
        var all := rs + [Hit(g, f)];
        assert all[..|all| - 1] == rs;
        var ga := GlyphsOf(all);
        assert ga == GlyphsOf(rs) + [g];
        assert ga[..|ga| - 1] == GlyphsOf(rs) && ga[|ga| - 1] == catalog[|catalog| - 1];
        assert LineMatches(catalog, f) == all;
      } else {
        assert LineMatches(catalog, f) == rs;
      }
    }
  }

  /** The characters of a catalog. */
  function Mojis(catalog: seq<Gaiji>): set<char>
  {
    if catalog == [] then {} else Mojis(catalog[..|catalog| - 1]) + {catalog[|catalog| - 1].moji}
  }

  predicate DistinctMojis(catalog: seq<Gaiji>)
  {
    forall i, j :: 0 <= i < j < |catalog| ==> catalog[i].moji != catalog[j].moji
  }

  lemma {:induction false} MojisMembership(catalog: seq<Gaiji>, c: char)
    ensures c in Mojis(catalog) <==> exists i :: 0 <= i < |catalog| && catalog[i].moji == c
  {
    if catalog != [] {
      var init := catalog[..|catalog| - 1];
      MojisMembership(init, c);
      if exists i :: 0 <= i < |init| && init[i].moji == c {
        var i :| 0 <= i < |init| && init[i].moji == c;
        assert catalog[i] == init[i];
      }
      if exists i :: 0 <= i < |catalog| && catalog[i].moji == c {
        var i :| 0 <= i < |catalog| && catalog[i].moji == c;
        if i < |init| { assert init[i] == catalog[i]; }
      }
    }
  }

  /** With a catalog of distinct characters, a record whose third field
      contains exactly K of them yields exactly K results, however often each
      occurs. */
  lemma {:induction false} LineMatchesCount(catalog: seq<Gaiji>, f: seq<string>)
    requires |f| == 3
    requires DistinctMojis(catalog)
    ensures |LineMatches(catalog, f)| == |Mojis(catalog) * (set c | c in f[2])|
  {
    if catalog != [] {
      var init := catalog[..|catalog| - 1];
      var g := catalog[|catalog| - 1];
      var v := set c | c in f[2];
      LineMatchesCount(init, f);
      MojisMembership(init, g.moji);
      assert g.moji !in Mojis(init);
      ContainsChar(f[2], g.moji);
      if g.moji in f[2] {
        assert Mojis(catalog) * v == (Mojis(init) * v) + {g.moji};
      } else {
        assert Mojis(catalog) * v == Mojis(init) * v;
      }
    }
  }

  /** Catalog entry `j` occurs in the third field of `line`, a record of
      three fields, and `x` is the result sent for it. */
  predicate HitAt(catalog: seq<Gaiji>, line: string, j: int, x: Result)
  {
    var f := Split(line, ',');
    |f| == 3 && 0 <= j < |catalog| && catalog[j].moji in f[2] && x == Hit(catalog[j], f)
  }

  /** Across a run of lines, a result is sent exactly for a (line, glyph) pair
      whose glyph occurs in the line's third field. */
  lemma {:induction false} MatchesMembership(catalog: seq<Gaiji>, lines: seq<string>, x: Result)
    requires forall i :: 0 <= i < |lines| ==> WellFormed(lines[i], 3)
    ensures x in Matches(catalog, lines) <==> exists i, j :: 0 <= i < |lines| && HitAt(catalog, lines[i], j, x)
  {
    if lines != [] {
      var init := lines[..|lines| - 1];
      var line := lines[|lines| - 1];
      assert WellFormed(line, 3);
      var last := Split(line, ',');
      MatchesMembership(catalog, init, x);
      LineMatchesMembership(catalog, last, x);
      if x in Matches(catalog, init) {
        var i, j :| 0 <= i < |init| && HitAt(catalog, init[i], j, x);
        assert lines[i] == init[i];
      }
      if x in LineMatches(catalog, last) {
        var j :| 0 <= j < |catalog| && catalog[j].moji in last[2] && x == Hit(catalog[j], last);
        assert HitAt(catalog, lines[|lines| - 1], j, x);
      }
      if exists i, j :: 0 <= i < |lines| && HitAt(catalog, lines[i], j, x) {
        var i, j :| 0 <= i < |lines| && HitAt(catalog, lines[i], j, x);
        if i < |init| {
          assert init[i] == lines[i];
        } else {
          assert catalog[j].moji in last[2] && x == Hit(catalog[j], last);
        }
      }
    }
  }

  /** A worker that sees the context cancelled on its first dequeue sends
      nothing and reports the context's error. */
  lemma CancelledWorkerSendsNothing(catalog: seq<Gaiji>, jobs: seq<string>)
    requires jobs != []
    ensures FirstStop(jobs, 0, 3, 0) == 0 && StopError(jobs, 0, 0) == Some(Canceled)
    ensures Matches(catalog, jobs[..0]) == []
  {
  }

  // ---------------------------------------------------------------------------
  // Report order

  function ResultKey(r: Result): Key
  {
    (r.codepoint, r.id)
  }

  /** The sort in `Execute`: a permutation of the results ordered by code
      string, and by identifier string among equal codes. */
  function SortResults(rs: seq<Result>): (sorted: seq<Result>)
    ensures multiset(sorted) == multiset(rs)
    ensures forall i, j :: 0 <= i < j < |sorted| ==> !StrLess(sorted[j].codepoint, sorted[i].codepoint)
    ensures forall i, j :: 0 <= i < j < |sorted| && sorted[i].codepoint == sorted[j].codepoint ==>
              !StrLess(sorted[j].id, sorted[i].id)
  {
    var s := SortBy(rs, ResultKey);
    forall i, j | 0 <= i < j < |s| ensures !StrLess(s[j].codepoint, s[i].codepoint) {
      if s[i].codepoint == s[j].codepoint { StrLessIrreflexive(s[i].codepoint); }
    }
    s
  }

  /** Codes are compared as text, not as numbers: the code of U+20B9F sorts
      before the code of U+5799 although its code point is larger. */
  lemma CodesCompareAsText()
    ensures Hex(0x20B9F, true) == "20B9F" && Hex(0x5799, true) == "5799"
    ensures StrLess(Hex(0x20B9F, true), Hex(0x5799, true)) && 0x20B9F > 0x5799
  {
    assert Hex(0x2, true) == "2";
    assert Hex(0x20, true) == "20";
    assert Hex(0x20B, true) == "20B";
    assert Hex(0x20B9, true) == "20B9";
    assert Hex(0x5, true) == "5";
    assert Hex(0x57, true) == "57";
    assert Hex(0x579, true) == "579";
  }
}
