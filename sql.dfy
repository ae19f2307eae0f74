/** The `sql` command (cmd/sql/cmdSql.go): one unload job per catalog glyph,
    each running `rdbunlsql` with the SQL template filled in with the glyph,
    and a worker that turns every row of the unload file into a result. The
    external command is not run: what a job's command did (its error, and the
    unload file it left) is an input of the worker, one per dequeued job.
    `cancelFrom` has the meaning it has in the `find` command. */
module Sql {
  import opened Base
  import opened Text
  import opened Gaiji
  import opened Results

  /** The command's flags. */
  datatype UnlsqlCmd = UnlsqlCmd(db: string, sql: string, output: string, gaiji: string, tmpdir: string,
                                 workerCount: int, header: bool, value: bool)

  /** A unit of work: the glyph, the command line, and the unload file it writes. */
  datatype Job = Job(moji: char, codepoint: string, cmd: string, unload: string)

  /** `validate`: database and SQL must be given, the SQL must contain `%s`,
      output, catalog and work folder must be given and the worker count must
      be positive, checked in that order. */
  function Validate(p: UnlsqlCmd): (err: Option<Error>)
    ensures err == None <==> p.db != [] && p.sql != [] && Contains(p.sql, "%s") && p.output != []
                             && p.gaiji != [] && p.tmpdir != [] && p.workerCount > 0
    ensures p.db == [] ==> err == Some(MissingFlag("-db"))
    ensures p.db != [] && p.sql == [] ==> err == Some(MissingFlag("-sql"))
    ensures err == Some(NoPlaceholder) <==> p.db != [] && p.sql != [] && !Contains(p.sql, "%s")
    ensures p.db != [] && p.sql != [] && Contains(p.sql, "%s") && p.output == [] ==>
              err == Some(MissingFlag("-o"))
    ensures p.db != [] && p.sql != [] && Contains(p.sql, "%s") && p.output != [] && p.gaiji == [] ==>
              err == Some(MissingFlag("-g"))
    ensures (p.db != [] && p.sql != [] && Contains(p.sql, "%s") && p.output != [] && p.gaiji != []
             && p.tmpdir == []) ==> err == Some(MissingFlag("-tmpdir"))
    ensures err == Some(BadWorkerCount(p.workerCount)) <==>
              p.db != [] && p.sql != [] && Contains(p.sql, "%s") && p.output != [] && p.gaiji != []
              && p.tmpdir != [] && p.workerCount <= 0
  {
    if p.db == [] then Some(MissingFlag("-db"))
    else if p.sql == [] then Some(MissingFlag("-sql"))
    else if !Contains(p.sql, "%s") then Some(NoPlaceholder)
    else if p.output == [] then Some(MissingFlag("-o"))
    else if p.gaiji == [] then Some(MissingFlag("-g"))
    else if p.tmpdir == [] then Some(MissingFlag("-tmpdir"))
    else if p.workerCount <= 0 then Some(BadWorkerCount(p.workerCount))
    else None
  }

  /** The check `validate` evidently intends: the template's only verb is one
      `%s` (with `%%` escapes allowed), so that every job's SQL carries the
      glyph in its place. Otherwise as `Validate`. */
  function ValidateStrict(p: UnlsqlCmd): (err: Option<Error>)
    ensures err == None <==> p.db != [] && p.sql != [] && OneStringVerb(p.sql, false) && p.output != []
                             && p.gaiji != [] && p.tmpdir != [] && p.workerCount > 0
    ensures err == Some(NoPlaceholder) <==> p.db != [] && p.sql != [] && !OneStringVerb(p.sql, false)
  {
    if p.db == [] then Some(MissingFlag("-db"))
    else if p.sql == [] then Some(MissingFlag("-sql"))
    else if !OneStringVerb(p.sql, false) then Some(NoPlaceholder)
    else if p.output == [] then Some(MissingFlag("-o"))
    else if p.gaiji == [] then Some(MissingFlag("-g"))
    else if p.tmpdir == [] then Some(MissingFlag("-tmpdir"))
    else if p.workerCount <= 0 then Some(BadWorkerCount(p.workerCount))
    else None
  }

  // ---------------------------------------------------------------------------
  // Jobs

  /** `filepath.Join(tmpdir, code + ".txt")` for a non-empty folder. */
  function UnloadPath(tmpdir: string, code: string): string
  {
    tmpdir + "/" + code + ".txt"
  }

  /** The job's SQL: the template in double quotes, formatted with the glyph. */
  function JobSql(baseSql: string, moji: char): string
  {
    Sprintf1("\"" + baseSql + "\"", [moji])
  }

  /** The `rdbunlsql -d DB -s SQL -t FILE` command line. Its three arguments
      are strings printed by `%s`, so they appear verbatim. */
  function Command(db: string, sql: string, unload: string): string
  {
    "rdbunlsql -d " + db + " -s " + sql + " -t " + unload
  }

  function MakeJob(db: string, baseSql: string, tmpdir: string, g: Gaiji): Job
  {
    var unload := UnloadPath(tmpdir, g.codepoint);
    Job(g.moji, g.codepoint, Command(db, JobSql(baseSql, g.moji), unload), unload)
  }

  /** `createJobs`: one job per catalog glyph, in catalog order, duplicates
      included; it never fails. `count` is the job counter `i`. */
  method CreateJobs(db: string, baseSql: string, tmpdir: string, gaijiList: seq<Gaiji>)
    returns (jobs: seq<Job>, count: nat, err: Option<Error>)
    ensures |jobs| == |gaijiList| && count == |gaijiList| && err == None
    ensures forall i :: 0 <= i < |jobs| ==> jobs[i] == MakeJob(db, baseSql, tmpdir, gaijiList[i])
  {
    jobs, count := [], 0;
    for k := 0 to |gaijiList|
      invariant |jobs| == k && count == k
      invariant forall i :: 0 <= i < k ==> jobs[i] == MakeJob(db, baseSql, tmpdir, gaijiList[i])
    {
      var g := gaijiList[k];
      var unload := UnloadPath(tmpdir, g.codepoint);
      var sql := Sprintf1("\"" + baseSql + "\"", [g.moji]);
      var cmd := "rdbunlsql -d " + db + " -s " + sql + " -t " + unload;
      jobs := jobs + [Job(g.moji, g.codepoint, cmd, unload)];
      count := count + 1;
    }
    return jobs, count, None;
  }

  /** Two jobs of one run share their unload file exactly when their glyphs
      have the same code; with catalog glyphs, exactly when they are the same
      character. Workers delete and rewrite these files concurrently, so only
      a catalog without repeated characters keeps them apart. */
  lemma {:induction false} UnloadFileIffSameCharacter(db: string, baseSql: string, tmpdir: string, a: string, b: string)
    requires a != [] && b != []
    ensures MakeJob(db, baseSql, tmpdir, GaijiOf(a, true)).unload == MakeJob(db, baseSql, tmpdir, GaijiOf(b, true)).unload
            <==> a[0] == b[0]
  {
    var ca, cb := GaijiOf(a, true).codepoint, GaijiOf(b, true).codepoint;
    SameCodeIffSameCharacter(a, b, true);
    if UnloadPath(tmpdir, ca) == UnloadPath(tmpdir, cb) {
      var n := |tmpdir| + 1;
      assert |ca| == |cb|;
      assert ca == UnloadPath(tmpdir, ca)[n..n + |ca|];
      assert cb == UnloadPath(tmpdir, cb)[n..n + |cb|];
    }
  }

  /** The check as written lets every template containing `%s` through. */
  lemma {:induction false} OneStringVerbContainsPlaceholder(f: string, placed: bool)
    requires OneStringVerb(f, placed)
    ensures !placed ==> Contains(f, "%s")
    decreases |f|
  {
    if f != [] {
      if f[0] != '%' {
        OneStringVerbContainsPlaceholder(f[1..], placed);
        if !placed {
          ContainsCons([f[0]], f[1..], "%s");
          assert [f[0]] + f[1..] == f;
        }
      } else if f[1] == '%' && OneStringVerb(f[2..], placed) {
        OneStringVerbContainsPlaceholder(f[2..], placed);
        if !placed {
          ContainsCons(f[..2], f[2..], "%s");
          assert f[..2] + f[2..] == f;
        }
      } else if !placed {
        assert f[..2] == "%s";
      }
    }
  }

  /** Whatever the corrected check accepts, the check as written accepts too. */
  lemma ValidateStrictImpliesValidate(p: UnlsqlCmd)
    ensures ValidateStrict(p) == None ==> Validate(p) == None
  {
    if ValidateStrict(p) == None {
      OneStringVerbContainsPlaceholder(p.sql, false);
    }
  }

  /** Under the corrected check, every job's SQL is the formatted template in
      double quotes with nothing appended, and it holds the glyph. */
  lemma JobSqlPlacesGlyph(p: UnlsqlCmd, moji: char)
    requires ValidateStrict(p) == None
    ensures JobSql(p.sql, moji) == "\"" + FormatArg(p.sql, [moji], false).out + "\""
    ensures Contains(JobSql(p.sql, moji), [moji])
  {
    var f := "\"" + p.sql + "\"";
    FormatOneStringVerb(p.sql, "\"", [moji], false);
    assert f[1..] == p.sql + "\"";
    var o := FormatArg(p.sql, [moji], false).out;
    ContainsCons("\"", o, [moji]);
    ContainsAppend("\"" + o, "\"", [moji]);
  }

  /** A template `pre%spost` with no other `%` passes the corrected check's
      template test, and its job's SQL is the template in double quotes with
      the glyph exactly where `%s` was. */
  lemma JobSqlOfTemplate(pre: string, post: string, moji: char)
    requires '%' !in pre && '%' !in post
    ensures OneStringVerb(pre + "%s" + post, false)
    ensures JobSql(pre + "%s" + post, moji) == "\"" + pre + [moji] + post + "\""
  {
    var q := "\"";
    FormatTemplate(pre, post, [moji]);
    FormatTemplate(q + pre, post + q, [moji]);
    Regroup(q, pre, "%s", post, q);
    Regroup(q, pre, [moji], post, q);
  }

  /** The template `%%s` formats to `"%s"` followed by Go's complaint about
      an unused argument: the glyph never takes the place of a verb. */
  lemma EscapedPercentFormat()
    ensures JobSql("%%s", '垠') == "\"%s\"" + "%!(EXTRA string=" + "垠" + ")"
  {
    var a := "垠";
    var q := "\"";
    EscapeFormat("s\"", a, false);
    LiteralPrefix(q, "%%" + "s\"", a, false);
    assert q + "%%s" + q == q + ("%%" + "s\"");
    var out := q + ("%" + "s\"");
    assert Sprintf1(q + "%%s" + q, a) == out + "%!(EXTRA string=" + a + ")";
    assert out == "\"%s\"";
  }

  /** The check as written accepts the template `%%s`, which holds no verb at
      all, so every job's SQL is the same text with Go's complaint appended;
      the corrected check rejects the template. */
  lemma EscapedPercentPassesValidate()
    ensures Validate(UnlsqlCmd("db", "%%s", "out.csv", "gaiji.txt", "tmp", 1, false, false)) == None
    ensures JobSql("%%s", '垠') == "\"%s\"" + "%!(EXTRA string=" + "垠" + ")"
    ensures ValidateStrict(UnlsqlCmd("db", "%%s", "out.csv", "gaiji.txt", "tmp", 1, false, false)) == Some(NoPlaceholder)
  {
    var s := "%%s";
    assert s[1..] == "%s" && s[1..][..2] == "%s";
    assert Contains(s[1..], "%s");
    assert Contains(s, "%s");
    assert !OneStringVerb(s[2..], false);
    EscapedPercentFormat();
  }

  // ---------------------------------------------------------------------------
  // Worker

  /** What running a job's command left behind: the error `runCmdStr`
      returned, and the unload file the worker then opens and scans. */
  datatype JobRun = JobRun(cmdErr: Option<Error>, unload: LineFile)

  /** One unload row, split on commas into at least three fields: identifier
      and attribute with all surrounding double quotes trimmed, and the value
      made of every further field joined by " | " with every double quote
      removed; the glyph comes from the job. */
  function ParseRow(job: Job, a: seq<string>): (r: Result)
    requires |a| >= 3
    ensures r.moji == job.moji && r.codepoint == job.codepoint
    ensures r.id == Trim(a[0], '"') && r.attr == Trim(a[1], '"')
    ensures '"' !in r.value
  {
    Result(job.moji, job.codepoint, Trim(a[0], '"'), Trim(a[1], '"'), RemoveAll(Join(a[2..], " | "), '"'))
  }

  /** The rows of an unload file from row `n` on: each row of three or more
      fields is sent; the first shorter row stops the worker with an error;
      after the last row the scanner's error is returned. */
  function RowsFrom(job: Job, lines: seq<string>, scanErr: Option<Error>, n: nat): WorkerRun<Result>
    requires n <= |lines|
    decreases |lines| - n
  {
    if n == |lines| then WorkerRun([], scanErr)
    else
      var a := Split(lines[n], ',');
      if |a| < 3 then WorkerRun([], Some(TooFewColumns(lines[n])))
      else
        var rest := RowsFrom(job, lines, scanErr, n + 1);
        WorkerRun([ParseRow(job, a)] + rest.results, rest.err)
  }

  /** One job: a failed command or an unopenable unload file ends the worker
      with that error before anything is sent; otherwise the rows are sent. */
  function JobOutput(job: Job, run: JobRun): WorkerRun<Result>
  {
    if run.cmdErr.Some? then WorkerRun([], run.cmdErr)
    else match run.unload
      case Unopenable(e) => WorkerRun([], Some(e))
      case Lines(lines, scanErr) => RowsFrom(job, lines, scanErr, 0)
  }

  /** The worker from its `k`-th dequeue on: the context is checked first on
      every job; a job that ends in an error ends the worker. */
  function WorkFrom(tasks: seq<(Job, JobRun)>, cancelFrom: nat, k: nat): WorkerRun<Result>
    requires k <= |tasks|
    decreases |tasks| - k
  {
    if k == |tasks| then WorkerRun([], None)
    else if k >= cancelFrom then WorkerRun([], Some(Canceled))
    else
      var o := JobOutput(tasks[k].0, tasks[k].1);
      if o.err.Some? then o
      else
        var rest := WorkFrom(tasks, cancelFrom, k + 1);
        WorkerRun(o.results + rest.results, rest.err)
  }

  /** One row of three or more fields moves from what is left to what was
      sent. */
  lemma RowsFromStep(job: Job, lines: seq<string>, scanErr: Option<Error>, n: nat, sent: seq<Result>, r: Result)
    requires n < |lines| && |Split(lines[n], ',')| >= 3 && r == ParseRow(job, Split(lines[n], ','))
    ensures sent + RowsFrom(job, lines, scanErr, n).results == (sent + [r]) + RowsFrom(job, lines, scanErr, n + 1).results
    ensures RowsFrom(job, lines, scanErr, n).err == RowsFrom(job, lines, scanErr, n + 1).err
  {
    var rest := RowsFrom(job, lines, scanErr, n + 1).results;
    assert RowsFrom(job, lines, scanErr, n).results == [r] + rest;
    assert sent + ([r] + rest) == (sent + [r]) + rest;
  }

  /** The scan loop of `worker` over one unload file: each row of three or
      more fields is sent as soon as it is read. */
  method SendRows(job: Job, lines: seq<string>, scanErr: Option<Error>) returns (sent: seq<Result>, err: Option<Error>)
    ensures WorkerRun(sent, err) == RowsFrom(job, lines, scanErr, 0)
  {
    sent := [];
    var n := 0;
    while n < |lines|
      invariant 0 <= n <= |lines|
      invariant RowsFrom(job, lines, scanErr, 0) == WorkerRun(sent + RowsFrom(job, lines, scanErr, n).results,
                                                              RowsFrom(job, lines, scanErr, n).err)
    {
      var line := lines[n];
      var a := Split(line, ',');
      if |a| < 3 {
        assert sent + [] == sent;
        return sent, Some(TooFewColumns(line));
      }
      var v := RemoveAll(Join(a[2..], " | "), '"');
      var r := Result(job.moji, job.codepoint, Trim(a[0], '"'), Trim(a[1], '"'), v);
      RowsFromStep(job, lines, scanErr, n, sent, r);
      sent := sent + [r];
      n := n + 1;
    }
    assert sent + [] == sent;
    return sent, scanErr;
  }

  /** A job that ends cleanly moves its rows from what is left to what was
      sent. */
  lemma WorkFromStep(tasks: seq<(Job, JobRun)>, cancelFrom: nat, k: nat, results: seq<Result>, sent: seq<Result>)
    requires k < |tasks| && k < cancelFrom
    requires JobOutput(tasks[k].0, tasks[k].1) == WorkerRun(sent, None)
    ensures results + WorkFrom(tasks, cancelFrom, k).results == (results + sent) + WorkFrom(tasks, cancelFrom, k + 1).results
    ensures WorkFrom(tasks, cancelFrom, k).err == WorkFrom(tasks, cancelFrom, k + 1).err
  {
    var rest := WorkFrom(tasks, cancelFrom, k + 1).results;
    assert WorkFrom(tasks, cancelFrom, k).results == sent + rest;
    assert results + (sent + rest) == (results + sent) + rest;
  }

  /** `worker`: dequeues the jobs in order together with what their commands
      left behind, and sends one result per unload row. */
  method Worker(tasks: seq<(Job, JobRun)>, cancelFrom: nat) returns (results: seq<Result>, err: Option<Error>)
    ensures WorkerRun(results, err) == WorkFrom(tasks, cancelFrom, 0)
  {
    results := [];
    var k := 0;
    while k < |tasks|
      invariant 0 <= k <= |tasks|
      invariant WorkFrom(tasks, cancelFrom, 0) == WorkerRun(results + WorkFrom(tasks, cancelFrom, k).results,
                                                            WorkFrom(tasks, cancelFrom, k).err)
    {
      var (job, run) := tasks[k];
      if k >= cancelFrom {
        assert results + [] == results;
        return results, Some(Canceled);
      }
      var sent, jobErr;
      if run.cmdErr.Some? {
        sent, jobErr := [], run.cmdErr;
      } else if run.unload.Unopenable? {
        sent, jobErr := [], Some(run.unload.openErr);
      } else {
        sent, jobErr := SendRows(job, run.unload.lines, run.unload.scanErr);
      }
      assert WorkerRun(sent, jobErr) == JobOutput(job, run);
      if jobErr.Some? {
        return results + sent, jobErr;
      }
      WorkFromStep(tasks, cancelFrom, k, results, sent);
      results := results + sent;
      k := k + 1;
    }
    assert results + [] == results;
    return results, None;
  }

  // ---------------------------------------------------------------------------
  // Properties of the worker's output

  /** The rows of an unload file end without error exactly when every row
      has at least three fields and the scan ended cleanly. */
  lemma {:induction false} RowsFromSucceedsIff(job: Job, lines: seq<string>, scanErr: Option<Error>, n: nat)
    requires n <= |lines|
    ensures RowsFrom(job, lines, scanErr, n).err == None <==>
              (forall i :: n <= i < |lines| ==> |Split(lines[i], ',')| >= 3) && scanErr == None
    decreases |lines| - n
  {
    if n < |lines| {
      RowsFromSucceedsIff(job, lines, scanErr, n + 1);
      var a := Split(lines[n], ',');
      if |a| >= 3 {
        assert RowsFrom(job, lines, scanErr, n).err == RowsFrom(job, lines, scanErr, n + 1).err;
      } else {
        assert RowsFrom(job, lines, scanErr, n).err.Some?;
      }
    }
  }

  /** When every row has at least three fields, one result was sent per row,
      in row order, each the parse of its row. */
  lemma {:induction false} RowsFromOnePerRow(job: Job, lines: seq<string>, scanErr: Option<Error>, n: nat)
    requires n <= |lines|
    requires forall i :: n <= i < |lines| ==> |Split(lines[i], ',')| >= 3
    ensures |RowsFrom(job, lines, scanErr, n).results| == |lines| - n
    ensures forall i :: n <= i < |lines| ==>
              RowsFrom(job, lines, scanErr, n).results[i - n] == ParseRow(job, Split(lines[i], ','))
    decreases |lines| - n
  {
    if n < |lines| {
      var a := Split(lines[n], ',');
      RowsFromOnePerRow(job, lines, scanErr, n + 1);
      var rest := RowsFrom(job, lines, scanErr, n + 1).results;
      var here := RowsFrom(job, lines, scanErr, n).results;
      RowsFromStep(job, lines, scanErr, n, [], ParseRow(job, a));
      assert [] + here == here && [] + [ParseRow(job, a)] == [ParseRow(job, a)];
      forall i | n < i < |lines|
        ensures here[i - n] == ParseRow(job, Split(lines[i], ','))
      {
        assert here[i - n] == rest[i - (n + 1)];
      }
    }
  }

  /** A row is too short exactly when it has fewer than two commas. */
  lemma ShortRowHasFewerThanTwoCommas(line: string)
    ensures |Split(line, ',')| < 3 <==> Count(line, ',') < 2
  {
  }

  /** Everything a worker sends belongs to a job it dequeued before any
      cancellation, names that job's glyph, and has a value free of double
      quotes. */
  lemma {:induction false} WorkerResultsComeFromJobs(tasks: seq<(Job, JobRun)>, cancelFrom: nat, k: nat, x: Result)
    requires k <= |tasks|
    requires x in WorkFrom(tasks, cancelFrom, k).results
    ensures exists i :: k <= i < |tasks| && i < cancelFrom
              && x.moji == tasks[i].0.moji && x.codepoint == tasks[i].0.codepoint
    ensures '"' !in x.value
    decreases |tasks| - k
  {
    var o := JobOutput(tasks[k].0, tasks[k].1);
    if x in o.results {
      var run := tasks[k].1;
      RowsCarryJob(tasks[k].0, run.unload.lines, run.unload.scanErr, 0, x);
    } else {
      WorkerResultsComeFromJobs(tasks, cancelFrom, k + 1, x);
    }
  }

  /** Every result of a job's rows names that job's glyph. */
  lemma {:induction false} RowsCarryJob(job: Job, lines: seq<string>, scanErr: Option<Error>, n: nat, x: Result)
    requires n <= |lines|
    requires x in RowsFrom(job, lines, scanErr, n).results
    ensures x.moji == job.moji && x.codepoint == job.codepoint && '"' !in x.value
    decreases |lines| - n
  {
    var a := Split(lines[n], ',');
    if x != ParseRow(job, a) {
      RowsCarryJob(job, lines, scanErr, n + 1, x);
    }
  }

  /** A row of comma-free, quote-free fields (identifier, attribute and one
      or more value fields) reads back as the identifier, the attribute and
      the value fields joined by " | ". */
  lemma RowRoundTrip(job: Job, id: string, attr: string, vs: seq<string>)
    requires vs != []
    requires ',' !in id && ',' !in attr && '"' !in id && '"' !in attr
    requires forall i :: 0 <= i < |vs| ==> ',' !in vs[i] && '"' !in vs[i]
    ensures var a := Split(Join([id, attr] + vs, ","), ',');
      |a| == 2 + |vs| && ParseRow(job, a) == Result(job.moji, job.codepoint, id, attr, Join(vs, " | "))
  {
    var parts := [id, attr] + vs;
    forall i | 0 <= i < |parts| ensures ',' !in parts[i] {
      if i >= 2 {
        assert parts[i] == vs[i - 2];
      }
    }
    SplitOfJoin(parts, ',');
    assert parts[2..] == vs;
    TrimNothing(id, '"');
    TrimNothing(attr, '"');
    JoinAvoids(vs, " | ", '"');
    RemoveNothing(Join(vs, " | "), '"');
  }
}
