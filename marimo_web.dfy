/**
 * src/marimo_extra/marimo_web.py: the export of one notebook chosen by its type,
 * the export of every notebook (from the index table, or from the discovered
 * notebooks) stopping at the first failure, and the index table `record_csv` writes.
 * Directory discovery and file access are inputs: `discovered` is the list of
 * (directory, path) pairs the walk yields, `index` the table read from the index
 * file when it exists.
 */
module MarimoWeb {
  import opened Outcomes
  import opened Text
  import opened Seqs
  import opened MarimoExport
  import opened Utils

  /** The four ways `export_notebook` can export a notebook. */
  datatype NotebookKind = App | Editable | Executable | Page

  const AppTypes: seq<string> := ["apps", "app"]
  const EditableTypes: seq<string> := ["edit", "editable", "editables"]
  const ExecutableTypes: seq<string> := ["run", "exe", "executable", "executables"]

  /** The export a notebook type selects, ignoring case; an unknown type gets the plain page export. */
  function KindOf(notebookType: string): (k: NotebookKind)
    ensures k == App <==> Lower(notebookType) in AppTypes
    ensures k == Editable <==> Lower(notebookType) in EditableTypes
    ensures k == Executable <==> Lower(notebookType) in ExecutableTypes
    ensures k == Page <==> Lower(notebookType) !in AppTypes + EditableTypes + ExecutableTypes
  {
    var t := Lower(notebookType);
    if t in AppTypes then App
    else if t in EditableTypes then Editable
    else if t in ExecutableTypes then Executable
    else Page
  }

  /** The choice does not depend on the case of the type. */
  lemma KindOfIgnoresCase(notebookType: string)
    ensures KindOf(Lower(notebookType)) == KindOf(notebookType)
    ensures KindOf(Capitalize(notebookType)) == KindOf(notebookType)
  {
    LowerIdempotent(notebookType);
  }

  /** Where a notebook's page goes: under `outDir`, with ".py" replaced by ".html". */
  function NotebookOutput(notebookPath: string, outDir: string): string {
    Join(outDir, PyToHtml(notebookPath))
  }

  /** The command each kind of export issues, written out in full. */
  function NotebookCommand(notebookPath: string, kind: NotebookKind, outDir: string): (cmd: Command)
    ensures |cmd| >= 8 && cmd[..2] == ["marimo", "export"]
    ensures cmd[3] == notebookPath && cmd[4] == "-o" && cmd[5] == NotebookOutput(notebookPath, outDir)
    ensures cmd[6] == "--no-watch"
    ensures cmd[2] == (if kind == Page then "html" else "html-wasm")
  {
    var out := NotebookOutput(notebookPath, outDir);
    match kind
    case App => ["marimo", "export", "html-wasm", notebookPath, "-o", out, "--no-watch", "--mode", "run", "--no-show-code"]
    case Editable => ["marimo", "export", "html-wasm", notebookPath, "-o", out, "--no-watch", "--mode", "edit", "--show-code"]
    case Executable => ["marimo", "export", "html-wasm", notebookPath, "-o", out, "--no-watch", "--mode", "run", "--show-code"]
    case Page => ["marimo", "export", "html", notebookPath, "-o", out, "--no-watch", "--include-code"]
  }

  /**
   * `export_notebook`: the preset the type selects, with the output path set. An
   * output without a directory part raises FileNotFoundError (see `ExportAsWritten`);
   * otherwise the result is whether the command it issues succeeds.
   */
  function ExportNotebook(notebookPath: string, notebookType: string, outDir: string, runs: Command -> bool): (r: Result<bool>)
    ensures Dirname(NotebookOutput(notebookPath, outDir)) == "" ==> r == Failure(FileNotFound)
    ensures Dirname(NotebookOutput(notebookPath, outDir)) != "" ==>
      r == Success(runs(NotebookCommand(notebookPath, KindOf(notebookType), outDir)))
  {
    var out := Some(NotebookOutput(notebookPath, outDir));
    match KindOf(notebookType)
    case App => ExportApp(notebookPath, out, runs)
    case Editable => ExportEditable(notebookPath, out, false, runs)
    case Executable => ExportExecutable(notebookPath, out, false, false, runs)
    case Page =>
      DefaultCommandWords(notebookPath, out);
      ExportAsWritten(DefaultRequest(notebookPath, out), runs)
  }

  /**
   * With a non-empty output directory, the page path always has a directory part,
   * so creating that directory before the export succeeds.
   */
  lemma NotebookOutputHasDirectory(notebookPath: string, outDir: string)
    requires outDir != ""
    ensures Dirname(NotebookOutput(notebookPath, outDir)) != ""
  {
    var page := PyToHtml(notebookPath);
    var out := NotebookOutput(notebookPath, outDir);
    if |page| > 0 && page[0] == '/' {
      assert out[0] == '/';
    } else if outDir[|outDir| - 1] == '/' {
      assert out[|outDir| - 1] == '/';
    } else {
      assert out == outDir + "/" + page;
      assert out[|outDir|] == '/';
    }
    DirnameNonEmpty(out);
  }

  /** A discovered notebook: the directory searched and the path found under it. */
  datatype Notebook = Notebook(dir: string, path: string)

  /** One call of `export_notebook`: the path to export and the type that picks the preset. */
  datatype Job = Job(path: string, notebookType: string)

  /**
   * A row of the index as `export_all_notebooks` reads it, by position: fewer than
   * five columns raise IndexError; a missing path or type cell (NaN, a float) raises
   * AttributeError when a string method is called on it.
   */
  function RowJob(columns: seq<string>, row: Record): (r: Result<Job>)
    ensures r.Success? <==> |columns| >= 5 && columns[1] in row && columns[2] in row
    ensures r.Success? ==> r.value == Job(HtmlToPy(row[columns[1]]), row[columns[2]])
  {
    if |columns| < 5 then Failure(IndexError)
    else if columns[1] !in row || columns[2] !in row then Failure(AttributeError)
    else Success(Job(HtmlToPy(row[columns[1]]), row[columns[2]]))
  }

  /**
   * The exports `export_all_notebooks` attempts, in order: one per index row when the
   * index exists, otherwise one per discovered notebook, typed by its directory.
   */
  function Jobs(index: Option<Table>, discovered: seq<Notebook>): (jobs: seq<Result<Job>>)
    ensures index.Some? ==> |jobs| == |index.value.rows|
    ensures index.Some? ==> forall i :: 0 <= i < |jobs| ==> jobs[i] == RowJob(index.value.columns, index.value.rows[i])
    ensures index.None? ==> |jobs| == |discovered|
    ensures index.None? ==> forall i :: 0 <= i < |discovered| ==> jobs[i] == Success(Job(discovered[i].path, discovered[i].dir))
  {
    match index
    case Some(t) => seq(|t.rows|, i requires 0 <= i < |t.rows| => RowJob(t.columns, t.rows[i]))
    case None => seq(|discovered|, i requires 0 <= i < |discovered| => Success(Job(discovered[i].path, discovered[i].dir)))
  }

  /** The command a job issues. */
  function JobCommand(job: Job, outDir: string): Command {
    NotebookCommand(job.path, KindOf(job.notebookType), outDir)
  }

  /** The job's page path has a directory part, so `export` gets as far as running its command. */
  predicate HasOutputDir(job: Job, outDir: string) {
    '/' in NotebookOutput(job.path, outDir)
  }

  /**
   * The outcome of exporting `jobs` in order, and the commands issued: a failing
   * export returns False at once; a row that cannot be read raises its exception,
   * and so does an export whose page path has no directory part, before its command
   * is issued (`ExportNotebook`'s contract).
   */
  function RunJobs(jobs: seq<Result<Job>>, outDir: string, runs: Command -> bool): (Result<bool>, seq<Command>)
    decreases |jobs|
  {
    if jobs == [] then (Success(true), [])
    else match jobs[0]
      case Failure(e) => (Failure(e), [])
      case Success(job) =>
        if !HasOutputDir(job, outDir) then (Failure(FileNotFound), [])
        else if !runs(JobCommand(job, outDir)) then (Success(false), [JobCommand(job, outDir)])
        else
          var (r, rest) := RunJobs(jobs[1..], outDir, runs);
          (r, [JobCommand(job, outDir)] + rest)
  }

  /** `issued` are the commands of the first `|issued|` jobs, each of them readable. */
  predicate IssuedFrom(issued: seq<Command>, jobs: seq<Result<Job>>, outDir: string) {
    && |issued| <= |jobs|
    && forall k :: 0 <= k < |issued| ==> jobs[k].Success? && issued[k] == JobCommand(jobs[k].value, outDir)
  }

  /** The commands issued are those of a prefix of the jobs, each of them readable. */
  lemma {:induction false} RunJobsIssuesPrefix(jobs: seq<Result<Job>>, outDir: string, runs: Command -> bool)
    ensures IssuedFrom(RunJobs(jobs, outDir, runs).1, jobs, outDir)
    decreases |jobs|
  {
    if jobs != [] && jobs[0].Success? && HasOutputDir(jobs[0].value, outDir) && runs(JobCommand(jobs[0].value, outDir)) {
      RunJobsIssuesPrefix(jobs[1..], outDir, runs);
      var rest := RunJobs(jobs[1..], outDir, runs).1;
      var issued := RunJobs(jobs, outDir, runs).1;
      assert issued == [JobCommand(jobs[0].value, outDir)] + rest;
      forall k | 0 <= k < |issued| ensures jobs[k].Success? && issued[k] == JobCommand(jobs[k].value, outDir) {
        if k > 0 {
          assert issued[k] == rest[k - 1] && jobs[k] == jobs[1..][k - 1];
        }
      }
    }
  }

  /** Every command of `issued` but the last one succeeded. */
  predicate EarlierSucceeded(issued: seq<Command>, runs: Command -> bool) {
    forall k :: 0 <= k < |issued| - 1 ==> runs(issued[k])
  }

  /** Every command issued before the last one succeeded. */
  lemma {:induction false} RunJobsEarlierSucceeded(jobs: seq<Result<Job>>, outDir: string, runs: Command -> bool)
    ensures EarlierSucceeded(RunJobs(jobs, outDir, runs).1, runs)
    decreases |jobs|
  {
    if jobs != [] && jobs[0].Success? && HasOutputDir(jobs[0].value, outDir) && runs(JobCommand(jobs[0].value, outDir)) {
      RunJobsEarlierSucceeded(jobs[1..], outDir, runs);
      var first := JobCommand(jobs[0].value, outDir);
      var rest := RunJobs(jobs[1..], outDir, runs).1;
      var issued := RunJobs(jobs, outDir, runs).1;
      assert issued == [first] + rest;
      forall k | 0 <= k < |issued| - 1 ensures runs(issued[k]) {
        if k > 0 {
          assert issued[k] == rest[k - 1];
        }
      }
    }
  }

  /** Job `k` is readable, gets past the directory creation and its command succeeds. */
  predicate JobExports(jobs: seq<Result<Job>>, k: int, outDir: string, runs: Command -> bool)
    requires 0 <= k < |jobs|
  {
    jobs[k].Success? && HasOutputDir(jobs[k].value, outDir) && runs(JobCommand(jobs[k].value, outDir))
  }

  /** The result is True exactly when every job is readable and every export succeeds, and then all were issued. */
  lemma {:induction false} RunJobsAllSucceed(jobs: seq<Result<Job>>, outDir: string, runs: Command -> bool)
    ensures var (r, issued) := RunJobs(jobs, outDir, runs);
      && (r == Success(true) <==> forall k :: 0 <= k < |jobs| ==> JobExports(jobs, k, outDir, runs))
      && (r == Success(true) ==> |issued| == |jobs|)
    decreases |jobs|
  {
    if jobs != [] && JobExports(jobs, 0, outDir, runs) {
      var tail := jobs[1..];
      RunJobsAllSucceed(tail, outDir, runs);
      if forall k :: 0 <= k < |tail| ==> JobExports(tail, k, outDir, runs) {
        forall k | 0 <= k < |jobs| ensures JobExports(jobs, k, outDir, runs) {
          if k > 0 {
            assert JobExports(tail, k - 1, outDir, runs) && tail[k - 1] == jobs[k];
          }
        }
      }
      if forall k :: 0 <= k < |jobs| ==> JobExports(jobs, k, outDir, runs) {
        forall k | 0 <= k < |tail| ensures JobExports(tail, k, outDir, runs) {
          assert JobExports(jobs, k + 1, outDir, runs) && tail[k] == jobs[k + 1];
        }
      }
    }
  }

  /**
   * The exception raised by job `k`: that of reading its row, or FileNotFoundError
   * when its page path has no directory part.
   */
  predicate RaisedBy(jobs: seq<Result<Job>>, k: int, outDir: string, e: Fault)
    requires 0 <= k < |jobs|
  {
    || jobs[k] == Failure(e)
    || (jobs[k].Success? && !HasOutputDir(jobs[k].value, outDir) && e == FileNotFound)
  }

  /**
   * False means the last command issued failed; an exception is raised by the job
   * right after the issued ones.
   */
  lemma RunJobsStopsAtFirstFailure(jobs: seq<Result<Job>>, outDir: string, runs: Command -> bool)
    ensures var res := RunJobs(jobs, outDir, runs);
      && (res.0 == Success(false) ==> |res.1| > 0 && !runs(res.1[|res.1| - 1]))
      && (res.0.Failure? ==> |res.1| < |jobs| && RaisedBy(jobs, |res.1|, outDir, res.0.error))
  {
    RunJobsFalseLastFailed(jobs, outDir, runs);
    RunJobsRaisedAt(jobs, outDir, runs);
  }

  lemma {:induction false} RunJobsFalseLastFailed(jobs: seq<Result<Job>>, outDir: string, runs: Command -> bool)
    ensures var res := RunJobs(jobs, outDir, runs);
      res.0 == Success(false) ==> |res.1| > 0 && !runs(res.1[|res.1| - 1])
    decreases |jobs|
  {
    if jobs != [] {
      RunJobsStep(jobs, outDir, runs);
      if jobs[0].Success? && HasOutputDir(jobs[0].value, outDir) && runs(JobCommand(jobs[0].value, outDir)) {
        RunJobsFalseLastFailed(jobs[1..], outDir, runs);
        var res := RunJobs(jobs[1..], outDir, runs);
        if res.0 == Success(false) {
          var issued := [JobCommand(jobs[0].value, outDir)] + res.1;
          assert issued[|issued| - 1] == res.1[|res.1| - 1];
        }
      }
    }
  }

  lemma {:induction false} RunJobsRaisedAt(jobs: seq<Result<Job>>, outDir: string, runs: Command -> bool)
    ensures var res := RunJobs(jobs, outDir, runs);
      res.0.Failure? ==> |res.1| < |jobs| && RaisedBy(jobs, |res.1|, outDir, res.0.error)
    decreases |jobs|
  {
    if jobs != [] {
      RunJobsStep(jobs, outDir, runs);
      if jobs[0].Failure? || !HasOutputDir(jobs[0].value, outDir) {
        assert RunJobs(jobs, outDir, runs).1 == [];
      } else if runs(JobCommand(jobs[0].value, outDir)) {
        var res := RunJobs(jobs[1..], outDir, runs);
        assert RunJobs(jobs, outDir, runs) == (res.0, [JobCommand(jobs[0].value, outDir)] + res.1);
        if res.0.Failure? {
          RunJobsRaisedAt(jobs[1..], outDir, runs);
          RaisedByShift(jobs, |res.1|, outDir, res.0.error);
        }
      }
    }
  }

  lemma RaisedByShift(jobs: seq<Result<Job>>, k: nat, outDir: string, e: Fault)
    requires k + 1 < |jobs|
    ensures RaisedBy(jobs[1..], k, outDir, e) == RaisedBy(jobs, k + 1, outDir, e)
  {
    assert jobs[1..][k] == jobs[k + 1];
  }

  /** One step of `RunJobs`: the first job decides whether the rest are run. */
  lemma RunJobsStep(jobs: seq<Result<Job>>, outDir: string, runs: Command -> bool)
    requires jobs != []
    ensures jobs[0].Failure? ==> RunJobs(jobs, outDir, runs) == (Failure(jobs[0].error), [])
    ensures jobs[0].Success? && !HasOutputDir(jobs[0].value, outDir) ==> RunJobs(jobs, outDir, runs) == (Failure(FileNotFound), [])
    ensures jobs[0].Success? && HasOutputDir(jobs[0].value, outDir) ==>
      var job := jobs[0].value;
      var res := RunJobs(jobs[1..], outDir, runs);
      RunJobs(jobs, outDir, runs) ==
        if runs(JobCommand(job, outDir)) then (res.0, [JobCommand(job, outDir)] + res.1)
        else (Success(false), [JobCommand(job, outDir)])
  {
  }

  /**
   * `export_all_notebooks`: exports the jobs one by one and stops at the first
   * failure. `issued` records the commands issued, in order.
   */
  method ExportAllNotebooks(index: Option<Table>, discovered: seq<Notebook>, outDir: string, runs: Command -> bool)
    returns (r: Result<bool>, ghost issued: seq<Command>)
    ensures (r, issued) == RunJobs(Jobs(index, discovered), outDir, runs)
  {
    r, issued := ExportJobs(Jobs(index, discovered), outDir, runs);
  }

  /** The loop of `export_all_notebooks` over the jobs, with its early return. */
  method ExportJobs(jobs: seq<Result<Job>>, outDir: string, runs: Command -> bool)
    returns (r: Result<bool>, ghost issued: seq<Command>)
    ensures (r, issued) == RunJobs(jobs, outDir, runs)
  {
    issued := [];
    var rest := jobs;
    ResumeStart(jobs, outDir, runs);
    while rest != []
      invariant RunJobs(jobs, outDir, runs) == Resume(issued, rest, outDir, runs)
      decreases |rest|
    {
      ResumeStep(issued, rest, outDir, runs);
      if rest[0].Failure? {
        return Failure(rest[0].error), issued;
      }
      var job := rest[0].value;
      var out := ExportJob(job, outDir, runs);
      if out.Failure? {
        return Failure(out.error), issued;
      }
      issued := issued + [JobCommand(job, outDir)];
      if !out.value {
        return Success(false), issued;
      }
      rest := rest[1..];
    }
    ResumeDone(issued, outDir, runs);
    return Success(true), issued;
  }

  /** The outcome of the loop once `issued` are out and `rest` is left to export. */
  ghost function Resume(issued: seq<Command>, rest: seq<Result<Job>>, outDir: string, runs: Command -> bool): (Result<bool>, seq<Command>) {
    var (r, more) := RunJobs(rest, outDir, runs);
    (r, issued + more)
  }

  lemma ResumeStart(jobs: seq<Result<Job>>, outDir: string, runs: Command -> bool)
    ensures RunJobs(jobs, outDir, runs) == Resume([], jobs, outDir, runs)
  {
    assert [] + RunJobs(jobs, outDir, runs).1 == RunJobs(jobs, outDir, runs).1;
  }

  lemma ResumeDone(issued: seq<Command>, outDir: string, runs: Command -> bool)
    ensures Resume(issued, [], outDir, runs) == (Success(true), issued)
  {
    assert issued + [] == issued;
  }

  /** One job of the loop: a failed read stops it, and so does a failed command. */
  lemma ResumeStep(issued: seq<Command>, rest: seq<Result<Job>>, outDir: string, runs: Command -> bool)
    requires rest != []
    ensures rest[0].Failure? ==> Resume(issued, rest, outDir, runs) == (Failure(rest[0].error), issued)
    ensures rest[0].Success? && !HasOutputDir(rest[0].value, outDir) ==>
      Resume(issued, rest, outDir, runs) == (Failure(FileNotFound), issued)
    ensures rest[0].Success? && HasOutputDir(rest[0].value, outDir) && !runs(JobCommand(rest[0].value, outDir)) ==>
      Resume(issued, rest, outDir, runs) == (Success(false), issued + [JobCommand(rest[0].value, outDir)])
    ensures rest[0].Success? && HasOutputDir(rest[0].value, outDir) && runs(JobCommand(rest[0].value, outDir)) ==>
      Resume(issued, rest, outDir, runs) == Resume(issued + [JobCommand(rest[0].value, outDir)], rest[1..], outDir, runs)
  {
    RunJobsStep(rest, outDir, runs);
    assert issued + [] == issued;
    if rest[0].Success? && HasOutputDir(rest[0].value, outDir) {
      var c := JobCommand(rest[0].value, outDir);
      var more := RunJobs(rest[1..], outDir, runs).1;
      assert issued + ([c] + more) == (issued + [c]) + more;
    }
  }

  /**
   * One call of `export_notebook` in the loop: FileNotFoundError for a page path
   * without a directory part, otherwise whether the job's command succeeds.
   */
  method ExportJob(job: Job, outDir: string, runs: Command -> bool) returns (r: Result<bool>)
    ensures !HasOutputDir(job, outDir) ==> r == Failure(FileNotFound)
    ensures HasOutputDir(job, outDir) ==> r == Success(runs(JobCommand(job, outDir)))
  {
    DirnameEmpty(NotebookOutput(job.path, outDir));
    r := ExportNotebook(job.path, job.notebookType, outDir, runs);
  }

  /** With no index and notebooks discovered, every export is attempted while they succeed. */
  lemma ExportAllDiscovered(discovered: seq<Notebook>, outDir: string, runs: Command -> bool)
    ensures RunJobs(Jobs(None, discovered), outDir, runs).0 == Success(true) <==>
      forall i :: 0 <= i < |discovered| ==>
        && Dirname(NotebookOutput(discovered[i].path, outDir)) != ""
        && runs(NotebookCommand(discovered[i].path, KindOf(discovered[i].dir), outDir))
  {
    var jobs := Jobs(None, discovered);
    RunJobsAllSucceed(jobs, outDir, runs);
    forall i | 0 <= i < |discovered|
      ensures JobExports(jobs, i, outDir, runs) <==>
        && Dirname(NotebookOutput(discovered[i].path, outDir)) != ""
        && runs(NotebookCommand(discovered[i].path, KindOf(discovered[i].dir), outDir))
    {
      assert jobs[i] == Success(Job(discovered[i].path, discovered[i].dir));
      DirnameEmpty(NotebookOutput(discovered[i].path, outDir));
    }
  }

  /**
   * With a non-empty output directory (the default is "_site") no export raises, so
   * an exception can only come from an index row that cannot be read.
   */
  lemma RunJobsWithOutputDir(jobs: seq<Result<Job>>, outDir: string, runs: Command -> bool)
    requires outDir != ""
    ensures var res := RunJobs(jobs, outDir, runs);
      res.0.Failure? ==> |res.1| < |jobs| && jobs[|res.1|] == Failure(res.0.error)
  {
    RunJobsStopsAtFirstFailure(jobs, outDir, runs);
    var res := RunJobs(jobs, outDir, runs);
    if res.0.Failure? && jobs[|res.1|].Success? {
      NotebookOutputHasDirectory(jobs[|res.1|].value.path, outDir);
      DirnameEmpty(NotebookOutput(jobs[|res.1|].value.path, outDir));
    }
  }

  /** The columns of the index table `record_csv` writes. */
  const IndexColumns: seq<string> := ["Name", "Path", "Type", "Thumbnail", "Tags"]

  /** The file name of a page with ".py" and ".html" removed. */
  function Stem(page: string): (r: string)
    ensures '/' !in r
  {
    ReplaceKeepsOut(Basename(page), ".py", "", '/');
    ReplaceKeepsOut(Replace(Basename(page), ".py", ""), ".html", "", '/');
    Replace(Replace(Basename(page), ".py", ""), ".html", "")
  }

  /** The five cells `record_csv` writes for one discovered notebook. */
  function IndexRowValues(nb: Notebook): (r: seq<string>)
    ensures |r| == |IndexColumns|
    ensures r[1] == PyToHtml(nb.path) && r[2] == nb.dir && r[4] == ""
  {
    var page := PyToHtml(nb.path);
    var stem := Stem(page);
    [Capitalize(stem), page, nb.dir, JoinAll(Dirname(page), ["public", "thumbnail", stem + ".png"]), ""]
  }

  /**
   * The name is the stem capitalised: same letters up to case, no '/', first letter not
   * lower-case and no later letter upper-case.
   */
  lemma IndexRowName(nb: Notebook)
    ensures var name := IndexRowValues(nb)[0];
      var stem := Stem(PyToHtml(nb.path));
      && Lower(name) == Lower(stem) && |name| == |stem| && '/' !in name
      && (|name| > 0 ==> !IsLower(name[0]))
      && (forall i :: 1 <= i < |name| ==> !IsUpper(name[i]))
  {
    var stem := Stem(PyToHtml(nb.path));
    var name := Capitalize(stem);
    forall i | 0 <= i < |name| ensures name[i] != '/' {
      assert LowerChar(name[i]) == Lower(name)[i] == Lower(stem)[i] == LowerChar(stem[i]);
      assert stem[i] != '/';
    }
  }

  /** The thumbnail lies in public/thumbnail beside the page, named after the stem. */
  lemma IndexRowThumbnail(nb: Notebook)
    ensures var page := PyToHtml(nb.path);
      IndexRowValues(nb)[3] == JoinPrefix(Dirname(page)) + "public/thumbnail/" + Stem(page) + ".png"
  {
    var page := PyToHtml(nb.path);
    var stem := Stem(page);
    var file := stem + ".png";
    assert IndexRowValues(nb)[3] == JoinAll(Dirname(page), ["public", "thumbnail", file]);
    assert file[0] != '/' by {
      if |stem| > 0 { assert file[0] == stem[0]; } else { assert file == ".png"; }
    }
    ThumbnailPath(Dirname(page), file);
  }

  /** The page of `d/n.py` is `d/n.html` when neither part holds a '.'. */
  lemma PageOfFile(d: string, n: string)
    requires '.' !in d && '.' !in n
    ensures PyToHtml(d + "/" + n + ".py") == d + "/" + (n + ".html")
  {
    var dn := d + "/" + n;
    assert '.' !in dn;
    ReplaceAfterPlain(dn, ".py", ".py", ".html");
    assert Replace(".py", ".py", ".html") == ".html" by {
      assert ".py"[..3] == ".py";
      assert ".py"[3..] == [];
    }
  }

  /** ".html" holds no ".py". */
  lemma NoPyInHtml()
    ensures Replace(".html", ".py", "") == ".html"
  {
    var h := ".html";
    ReplacePlain(h[1..], ".py", "");
    assert h[..3] != ".py" by { assert h[..3][1] == 'h'; }
    assert [h[0]] + h[1..] == h;
  }

  /** Removing ".html" from ".html" leaves nothing. */
  lemma HtmlRemoved()
    ensures Replace(".html", ".html", "") == ""
  {
    var h := ".html";
    assert h[..5] == h;
    assert h[5..] == [];
  }

  /** The stem of `d/n.html` is `n` when `n` holds no '.'. */
  lemma StemOfFile(d: string, n: string)
    requires d != [] && d[|d| - 1] != '/' && '.' !in n && '/' !in n
    ensures Stem(d + "/" + (n + ".html")) == n
  {
    SplitJoined(d, n + ".html");
    ReplaceAfterPlain(n, ".html", ".py", "");
    NoPyInHtml();
    ReplaceAfterPlain(n, ".html", ".html", "");
    HtmlRemoved();
    assert n + [] == n;
  }

  /** The name cell of `d/n.py` is `n` capitalised. */
  lemma NameOfFile(d: string, n: string)
    requires d != [] && d[|d| - 1] != '/' && '.' !in d && '.' !in n && '/' !in n
    ensures IndexRowValues(Notebook(d, d + "/" + n + ".py"))[0] == Capitalize(n)
  {
    PageOfFile(d, n);
    StemOfFile(d, n);
  }

  /** The thumbnail cell of `d/n.py` is `d/public/thumbnail/n.png`. */
  lemma ThumbnailOfFile(d: string, n: string)
    requires d != [] && d[|d| - 1] != '/' && '.' !in d && '.' !in n && '/' !in n
    ensures IndexRowValues(Notebook(d, d + "/" + n + ".py"))[3] == d + "/" + "public/thumbnail/" + n + ".png"
  {
    var nb := Notebook(d, d + "/" + n + ".py");
    PageOfFile(d, n);
    StemOfFile(d, n);
    SplitJoined(d, n + ".html");
    IndexRowThumbnail(nb);
    assert JoinPrefix(d) == d + "/";
  }

  /**
   * A notebook `n.py` directly in a directory `d` (no '.' in either) is recorded with
   * the name `n` capitalised and the thumbnail `d/public/thumbnail/n.png`.
   */
  lemma IndexRowOfFile(d: string, n: string)
    requires d != [] && d[|d| - 1] != '/' && '.' !in d && '.' !in n && '/' !in n
    ensures var r := IndexRowValues(Notebook(d, d + "/" + n + ".py"));
      && r[0] == Capitalize(n)
      && r[1] == d + "/" + n + ".html"
      && r[3] == d + "/" + "public/thumbnail/" + n + ".png"
  {
    NameOfFile(d, n);
    PageOfFile(d, n);
    ThumbnailOfFile(d, n);
  }

  /** "apps/fib.py" is recorded as "Fib", with its page and its thumbnail beside it. */
  lemma IndexRowFib()
    ensures var r := IndexRowValues(Notebook("apps", "apps/fib.py"));
      && r[0] == "Fib" && r[1] == "apps/fib.html" && r[2] == "apps"
      && r[3] == "apps/public/thumbnail/fib.png" && r[4] == ""
  {
    FibPaths();
    IndexRowOfFile("apps", "fib");
    CapitalizeFib();
  }

  lemma CapitalizeFib()
    ensures Capitalize("fib") == "Fib"
  {
    assert "fib"[1..] == "ib";
    assert Lower("ib") == "ib";
  }

  lemma FibPaths()
    ensures "apps" + "/" + "fib" + ".py" == "apps/fib.py"
    ensures "apps" + "/" + "fib" + ".html" == "apps/fib.html"
    ensures "apps" + "/" + "public/thumbnail/" + "fib" + ".png" == "apps/public/thumbnail/fib.png"
  {
    FibThumbnail();
  }

  lemma FibThumbnail()
    ensures "apps" + "/" + "public/thumbnail/" + "fib" + ".png" == "apps/public/thumbnail/fib.png"
  {
  }

  /** Joining "public", "thumbnail" and a relative file name onto a directory. */
  lemma ThumbnailPath(dir: string, file: string)
    requires file != [] && file[0] != '/'
    ensures JoinAll(dir, ["public", "thumbnail", file]) == JoinPrefix(dir) + "public/thumbnail/" + file
  {
    var p := JoinPrefix(dir);
    JoinAllThree(dir, "public", "thumbnail", file);
    JoinRelative(dir, "public");
    PublicThumbnail(p, file);
  }

  lemma PublicThumbnail(p: string, file: string)
    requires file != [] && file[0] != '/'
    ensures Join(Join(p + "public", "thumbnail"), file) == p + "public/thumbnail/" + file
  {
    var j1 := p + "public";
    assert j1[|j1| - 1] == 'c';
    JoinAfterName(j1, "thumbnail");
    var j2 := j1 + "/" + "thumbnail";
    assert j2[|j2| - 1] == 'l';
    JoinAfterName(j2, file);
    assert j2 + "/" + file == p + ("public" + "/" + "thumbnail" + "/") + file;
    assert "public" + "/" + "thumbnail" + "/" == "public/thumbnail/";
  }

  lemma IndexColumnsDistinct()
    ensures Distinct(IndexColumns)
  {
    var c := IndexColumns;
    assert c[0][0] == 'N' && c[1][0] == 'P' && c[2][0] == 'T' && c[3][0] == 'T' && c[4][0] == 'T';
    assert |c[3]| == 9 && |c[2]| == 4 && |c[4]| == 4;
    assert c[2][1] == 'y' && c[4][1] == 'a';
  }

  /** The record `record_csv` appends for one notebook. */
  function IndexRecord(nb: Notebook): Record {
    IndexColumnsDistinct();
    RowRecord(IndexColumns, IndexRowValues(nb))
  }

  /** The table `record_csv` writes for the discovered notebooks. */
  function IndexTable(discovered: seq<Notebook>): (t: Table)
    ensures t.columns == IndexColumns && |t.rows| == |discovered|
    ensures forall i :: 0 <= i < |discovered| ==> t.rows[i] == IndexRecord(discovered[i])
  {
    Table(IndexColumns, Map(IndexRecord, discovered))
  }

  /**
   * `record_csv`: when the index exists and `replace` is off nothing is written;
   * otherwise one row per discovered notebook, in discovery order.
   */
  method RecordCsv(discovered: seq<Notebook>, indexExists: bool, replace: bool) returns (written: Option<Table>)
    ensures indexExists && !replace ==> written == None
    ensures !(indexExists && !replace) ==> written == Some(IndexTable(discovered))
  {
    if indexExists && !replace {
      return None;
    }
    IndexColumnsDistinct();
    var out := new Frame(IndexColumns);
    for i := 0 to |discovered|
      invariant out.Valid() && out.columns == IndexColumns
      invariant out.rows == Map(IndexRecord, discovered[..i])
    {
      var added := out.AddRow(IndexRowValues(discovered[i]));
      MapSnoc(IndexRecord, discovered, i);
    }
    assert discovered[..|discovered|] == discovered;
    return Some(Table(out.columns, out.rows));
  }

  /**
   * Exporting from the index `record_csv` wrote attempts the same exports as
   * exporting from discovery, provided no notebook path already contains ".html".
   */
  lemma RecordedIndexRoundTrip(discovered: seq<Notebook>)
    requires forall i :: 0 <= i < |discovered| ==> !Contains(discovered[i].path, ".html")
    ensures Jobs(Some(IndexTable(discovered)), []) == Jobs(None, discovered)
  {
    var a := Jobs(Some(IndexTable(discovered)), []);
    var b := Jobs(None, discovered);
    forall i | 0 <= i < |discovered| ensures a[i] == b[i] {
      RecordedRowJob(discovered[i]);
    }
  }

  /** One recorded row reads back as the job of its notebook. */
  lemma RecordedRowJob(nb: Notebook)
    requires !Contains(nb.path, ".html")
    ensures RowJob(IndexColumns, IndexRecord(nb)) == Success(Job(nb.path, nb.dir))
  {
    var rec := IndexRecord(nb);
    var values := IndexRowValues(nb);
    IndexColumnsDistinct();
    assert rec[IndexColumns[1]] == values[1] && rec[IndexColumns[2]] == values[2];
    HtmlToPyUndoesPyToHtml(nb.path);
  }

  /**
   * The index `record_csv` writes names its page column "Path", while the readers'
   * defaults select "HTML_Path": with default arguments both raise KeyError on it.
   */
  lemma RecordedIndexLacksHtmlPath(discovered: seq<Notebook>)
    ensures IndexCsvToDict(IndexTable(discovered), DefaultRenames, DefaultExclusions, "") == Failure(KeyError("HTML_Path"))
    ensures IndexCsvToNavDict(IndexTable(discovered), "", "Name", "HTML_Path", DefaultExclusions) == Failure(KeyError("HTML_Path"))
  {
    assert "HTML_Path" !in IndexColumns;
    assert FirstMissing(Firsts(DefaultExclusions), IndexColumns) == 1;
    assert Firsts(DefaultRenames)[1] == "HTML_Path";
    assert FirstMissing(Firsts(DefaultRenames), IndexColumns) == 1;
  }
}
