/**
 * src/marimo_extra/marimo_export.py: the argument list handed to `marimo export`,
 * the `export` call around it (its subprocess is an oracle `runs` that says whether
 * the command succeeds) and the three preset exports.
 */
module MarimoExport {
  import opened Outcomes
  import opened Text

  /** An argument vector for the external `marimo` program. */
  type Command = seq<string>

  /** The file extension of each export format (`format_ext`). */
  const FormatExt: map<string, string> :=
    map["html" := ".html", "html-wasm" := ".html", "script" := ".py", "ipynb" := ".ipynb", "md" := ".md"]

  /** The `sort` values accepted for "ipynb" and the `mode` values accepted for "html-wasm". */
  const SortOrders: seq<string> := ["topological", "top-down"]
  const Modes: seq<string> := ["run", "edit"]

  const SortError := "sort must be either 'topological' or 'top-down'"
  const ModeError := "mode must be either 'run' or 'edit'"

  /** The parameters of `get_export_cmd` and `export`; `output == None` is Python's `None`. */
  datatype ExportRequest = ExportRequest(
    notebookPath: string,
    output: Option<string>,
    format: string,
    mode: string,
    showCode: bool,
    watch: bool,
    sandbox: bool,
    sort: string)

  /** A request that leaves every option at its default. */
  function DefaultRequest(notebookPath: string, output: Option<string>): ExportRequest {
    ExportRequest(notebookPath, output, "html", "run", true, false, false, "topological")
  }

  /**
   * The output path: the one given, or the notebook path with every ".py" replaced
   * by the extension of the format; an unknown format then raises KeyError.
   */
  function OutputPath(req: ExportRequest): (r: Result<string>)
    ensures req.output.Some? ==> r == Success(req.output.value)
    ensures req.output.None? ==> r.Success? == (req.format in FormatExt)
    ensures req.output.None? && req.format !in FormatExt ==> r == Failure(KeyError(req.format))
    ensures req.output.None? && req.format in FormatExt ==> r == Success(Replace(req.notebookPath, ".py", FormatExt[req.format]))
  {
    match req.output
    case Some(o) => Success(o)
    case None =>
      if req.format in FormatExt then Success(Replace(req.notebookPath, ".py", FormatExt[req.format]))
      else Failure(KeyError(req.format))
  }

  function WatchFlag(watch: bool): string {
    if watch then "--watch" else "--no-watch"
  }

  function IncludeCodeFlag(showCode: bool): string {
    if showCode then "--include-code" else "--no-include-code"
  }

  function ShowCodeFlag(showCode: bool): string {
    if showCode then "--show-code" else "--no-show-code"
  }

  /** The flags that follow the watch flag, by format, or the ValueError raised for a bad sort or mode. */
  function FormatOptions(req: ExportRequest): Result<seq<string>> {
    var sandbox := if req.sandbox then ["--sandbox"] else [];
    if req.format == "html" then
      Success(sandbox + [IncludeCodeFlag(req.showCode)])
    else if req.format == "ipynb" then
      if req.sort !in SortOrders then Failure(ValueError(SortError))
      else Success(sandbox + [IncludeCodeFlag(req.showCode), "--sort", req.sort])
    else if req.format == "html-wasm" then
      if req.mode !in Modes then Failure(ValueError(ModeError))
      else Success(["--mode", req.mode, ShowCodeFlag(req.showCode)])
    else
      Success([])
  }

  /**
   * The argument list `get_export_cmd` returns, or the exception it raises.
   * Every command starts with the same six words and the watch flag.
   */
  function ExportCmd(req: ExportRequest): (r: Result<Command>)
    ensures r.Success? <==>
      && (req.output.Some? || req.format in FormatExt)
      && (req.format == "ipynb" ==> req.sort in SortOrders)
      && (req.format == "html-wasm" ==> req.mode in Modes)
    ensures r.Success? ==>
      && |r.value| >= 7
      && r.value[..6] == ["marimo", "export", req.format, req.notebookPath, "-o", OutputPath(req).value]
      && r.value[6] == WatchFlag(req.watch)
      && "--watch" !in r.value[7..] && "--no-watch" !in r.value[7..]
  {
    var output :- OutputPath(req);
    var options :- FormatOptions(req);
    var cmd := ["marimo", "export", req.format, req.notebookPath, "-o", output, WatchFlag(req.watch)] + options;
    assert cmd[7..] == options;
    Success(cmd)
  }

  /** `get_export_cmd`, building the list step by step as the source does. */
  method GetExportCmd(req: ExportRequest) returns (r: Result<Command>)
    ensures r == ExportCmd(req)
  {
    var output: string;
    match req.output {
      case Some(o) =>
        output := o;
      case None =>
        if req.format !in FormatExt {
          return Failure(KeyError(req.format));
        }
        output := Replace(req.notebookPath, ".py", FormatExt[req.format]);
    }
    var cmd := ["marimo", "export", req.format, req.notebookPath, "-o", output];
    if req.watch {
      cmd := cmd + ["--watch"];
    } else {
      cmd := cmd + ["--no-watch"];
    }
    assert cmd == ["marimo", "export", req.format, req.notebookPath, "-o", output, WatchFlag(req.watch)];
    assert OutputPath(req) == Success(output);
    r := AppendFormatOptions(req, cmd);
  }

  /** The format blocks of `get_export_cmd`: they append to `cmd` or raise ValueError. */
  method AppendFormatOptions(req: ExportRequest, cmd0: Command) returns (r: Result<Command>)
    ensures FormatOptions(req).Success? ==> r == Success(cmd0 + FormatOptions(req).value)
    ensures FormatOptions(req).Failure? ==> r == Failure(FormatOptions(req).error)
  {
    var cmd := cmd0;
    // The three format blocks of the source test exclusive conditions.
    if req.format == "html" {
      if req.sandbox {
        cmd := cmd + ["--sandbox"];
      }
      if req.showCode {
        cmd := cmd + ["--include-code"];
      } else {
        cmd := cmd + ["--no-include-code"];
      }
      assert cmd == cmd0 + FormatOptions(req).value;
    } else if req.format == "ipynb" {
      if req.sandbox {
        cmd := cmd + ["--sandbox"];
      }
      if req.showCode {
        cmd := cmd + ["--include-code"];
      } else {
        cmd := cmd + ["--no-include-code"];
      }
      if req.sort !in SortOrders {
        return Failure(ValueError(SortError));
      }
      cmd := cmd + ["--sort", req.sort];
      assert cmd == cmd0 + FormatOptions(req).value;
    } else if req.format == "html-wasm" {
      if req.mode !in Modes {
        return Failure(ValueError(ModeError));
      }
      cmd := cmd + ["--mode", req.mode];
      if req.showCode {
        cmd := cmd + ["--show-code"];
      } else {
        cmd := cmd + ["--no-show-code"];
      }
      assert cmd == cmd0 + FormatOptions(req).value;
    } else {
      assert cmd == cmd0 + [];
    }
    return Success(cmd);
  }

  /** For "html", "--sandbox" appears after the watch flag iff asked for, then exactly one code flag. */
  lemma HtmlCommand(req: ExportRequest)
    requires req.format == "html"
    ensures ExportCmd(req).Success?
    ensures var tail := ExportCmd(req).value[7..];
      && ("--sandbox" in tail <==> req.sandbox)
      && |tail| >= 1 && tail[|tail| - 1] == IncludeCodeFlag(req.showCode)
      && IncludeCodeFlag(!req.showCode) !in tail
      && forall x :: x in tail ==> x == "--sandbox" || x == IncludeCodeFlag(req.showCode)
  {
  }

  /** For "ipynb", a sort outside the two orders raises ValueError; otherwise the command ends with it. */
  lemma IpynbCommand(req: ExportRequest)
    requires req.format == "ipynb"
    ensures req.sort !in SortOrders ==> ExportCmd(req) == Failure(ValueError(SortError))
    ensures req.sort in SortOrders ==>
      && ExportCmd(req).Success?
      && var cmd := ExportCmd(req).value;
      && cmd[|cmd| - 2..] == ["--sort", req.sort]
      && ("--sandbox" in cmd[7..] <==> req.sandbox)
      && cmd[|cmd| - 3] == IncludeCodeFlag(req.showCode)
      && IncludeCodeFlag(!req.showCode) !in cmd[7..]
  {
  }

  /**
   * For "html-wasm", a mode other than "run" or "edit" raises ValueError; otherwise
   * the command ends with the mode and exactly one show-code flag, and `sandbox` is ignored.
   */
  lemma WasmCommand(req: ExportRequest)
    requires req.format == "html-wasm"
    ensures req.mode !in Modes ==> ExportCmd(req) == Failure(ValueError(ModeError))
    ensures req.mode in Modes ==>
      && ExportCmd(req).Success?
      && ExportCmd(req).value[7..] == ["--mode", req.mode, ShowCodeFlag(req.showCode)]
      && ShowCodeFlag(!req.showCode) !in ExportCmd(req).value[7..]
    ensures ExportCmd(req.(sandbox := true)) == ExportCmd(req.(sandbox := false))
  {
  }

  /**
   * For "md", "script" and any format `format_ext` lacks, nothing follows the watch
   * flag and neither mode nor sort is checked; a lacking format needs an explicit output.
   */
  lemma PlainCommand(req: ExportRequest)
    requires req.format !in {"html", "ipynb", "html-wasm"}
    ensures ExportCmd(req).Success? <==> req.output.Some? || req.format in FormatExt
    ensures ExportCmd(req).Success? ==> |ExportCmd(req).value| == 7
    ensures forall m, s :: ExportCmd(req.(mode := m, sort := s)) == ExportCmd(req)
  {
  }

  /**
   * `export`: resolve the output path, build the command, run it. The directory of
   * the output is created first; `os.makedirs("")` is skipped here (see ExportAsWritten).
   */
  function Export(req: ExportRequest, runs: Command -> bool): (r: Result<bool>)
    ensures r.Success? <==> ExportCmd(req).Success?
    ensures r.Success? ==> r.value == runs(ExportCmd(req).value)
    ensures r.Failure? ==> r == Failure(ExportCmd(req).error)
  {
    var output :- OutputPath(req);
    var cmd :- ExportCmd(req.(output := Some(output)));
    Success(runs(cmd))
  }

  /**
   * `export` as written: `os.makedirs(os.path.dirname(output))` runs before the
   * command, and for an output without a directory part it raises FileNotFoundError.
   */
  function ExportAsWritten(req: ExportRequest, runs: Command -> bool): (r: Result<bool>)
    ensures ExportCmd(req).Failure? ==> r == Failure(ExportCmd(req).error)
    ensures ExportCmd(req).Success? && Dirname(OutputPath(req).value) == "" ==> r == Failure(FileNotFound)
    ensures OutputPath(req).Success? && Dirname(OutputPath(req).value) != "" ==> r == Export(req, runs)
  {
    var output :- OutputPath(req);
    var cmd :- ExportCmd(req.(output := Some(output)));
    if Dirname(output) == "" then Failure(FileNotFound) else Success(runs(cmd))
  }

  /**
   * As written, exporting a notebook of the current directory (a path without '/')
   * to its default output fails, although the command itself is well formed.
   */
  lemma {:induction false} ExportInCurrentDirectoryFails(notebookPath: string, runs: Command -> bool)
    requires '/' !in notebookPath
    ensures ExportAsWritten(DefaultRequest(notebookPath, None), runs) == Failure(FileNotFound)
    ensures Export(DefaultRequest(notebookPath, None), runs) ==
      Success(runs(["marimo", "export", "html", notebookPath, "-o", PyToHtml(notebookPath), "--no-watch", "--include-code"]))
  {
    ReplaceKeepsOut(notebookPath, ".py", ".html", '/');
    DefaultCommandWords(notebookPath, None);
  }

  /** The smallest instance: "fib.py" in the current directory. */
  lemma ExportFibInCurrentDirectoryFails(runs: Command -> bool)
    ensures ExportAsWritten(DefaultRequest("fib.py", None), runs) == Failure(FileNotFound)
  {
    ExportInCurrentDirectoryFails("fib.py", runs);
  }

  /** The page path of a notebook when the caller gives none: ".py" becomes ".html". */
  function PageOutput(notebookPath: string, output: Option<string>): string {
    if output.Some? then output.value else PyToHtml(notebookPath)
  }

  /** A request with every option at its default yields the eight-word html command. */
  lemma DefaultCommandWords(notebookPath: string, output: Option<string>)
    ensures ExportCmd(DefaultRequest(notebookPath, output)) ==
      Success(["marimo", "export", "html", notebookPath, "-o", PageOutput(notebookPath, output), "--no-watch", "--include-code"])
  {
    var cmd := ExportCmd(DefaultRequest(notebookPath, output)).value;
    var expected := ["marimo", "export", "html", notebookPath, "-o", PageOutput(notebookPath, output), "--no-watch", "--include-code"];
    assert FormatExt["html"] == ".html";
    assert cmd == cmd[..6] + [cmd[6]] + cmd[7..];
    assert expected == expected[..6] + [expected[6]] + expected[7..];
    assert cmd[..6] == expected[..6];
    assert cmd[7..] == expected[7..];
  }

  /** A valid html-wasm request yields the ten-word command. */
  lemma WasmCommandWords(req: ExportRequest)
    requires req.format == "html-wasm" && req.mode in Modes
    ensures ExportCmd(req) == Success(["marimo", "export", "html-wasm", req.notebookPath, "-o",
                                      PageOutput(req.notebookPath, req.output), WatchFlag(req.watch),
                                      "--mode", req.mode, ShowCodeFlag(req.showCode)])
  {
    WasmCommand(req);
    var cmd := ExportCmd(req).value;
    assert FormatExt[req.format] == ".html";
    assert OutputPath(req).value == PageOutput(req.notebookPath, req.output);
    var expected := ["marimo", "export", "html-wasm", req.notebookPath, "-o",
                     PageOutput(req.notebookPath, req.output), WatchFlag(req.watch),
                     "--mode", req.mode, ShowCodeFlag(req.showCode)];
    assert cmd == cmd[..6] + [cmd[6]] + cmd[7..];
    assert expected == expected[..6] + [expected[6]] + expected[7..];
    assert cmd[..6] == expected[..6];
    assert cmd[6] == expected[6];
    assert cmd[7..] == expected[7..];
    assert cmd == expected;
  }

  /**
   * The outcome of an html-wasm preset, as `export` is written: an output without a
   * directory part raises FileNotFoundError before the command runs.
   */
  function PresetOutcome(notebookPath: string, output: Option<string>, cmd: Command, runs: Command -> bool): Result<bool> {
    if Dirname(PageOutput(notebookPath, output)) == "" then Failure(FileNotFound) else Success(runs(cmd))
  }

  /** `export_executable`: html-wasm, mode "run", code shown; `sandbox` has no effect. */
  function ExportExecutable(notebookPath: string, output: Option<string>, watch: bool, sandbox: bool,
                            runs: Command -> bool): (r: Result<bool>)
    ensures r == PresetOutcome(notebookPath, output,
                               ["marimo", "export", "html-wasm", notebookPath, "-o", PageOutput(notebookPath, output),
                                WatchFlag(watch), "--mode", "run", "--show-code"], runs)
  {
    var req := ExportRequest(notebookPath, output, "html-wasm", "run", true, watch, sandbox, "topological");
    WasmCommandWords(req);
    ExportAsWritten(req, runs)
  }

  /** `export_editable`: html-wasm, mode "edit", code shown. */
  function ExportEditable(notebookPath: string, output: Option<string>, watch: bool,
                          runs: Command -> bool): (r: Result<bool>)
    ensures r == PresetOutcome(notebookPath, output,
                               ["marimo", "export", "html-wasm", notebookPath, "-o", PageOutput(notebookPath, output),
                                WatchFlag(watch), "--mode", "edit", "--show-code"], runs)
  {
    var req := ExportRequest(notebookPath, output, "html-wasm", "edit", true, watch, false, "topological");
    WasmCommandWords(req);
    ExportAsWritten(req, runs)
  }

  /** `export_app`: html-wasm, mode "run", code hidden, never watching. */
  function ExportApp(notebookPath: string, output: Option<string>, runs: Command -> bool): (r: Result<bool>)
    ensures r == PresetOutcome(notebookPath, output,
                               ["marimo", "export", "html-wasm", notebookPath, "-o", PageOutput(notebookPath, output),
                                "--no-watch", "--mode", "run", "--no-show-code"], runs)
  {
    var req := ExportRequest(notebookPath, output, "html-wasm", "run", false, false, false, "topological");
    WasmCommandWords(req);
    ExportAsWritten(req, runs)
  }

  /** A preset whose output has a directory part runs its command: the corrected and the written `export` agree. */
  lemma PresetWithDirectory(notebookPath: string, output: Option<string>, runs: Command -> bool)
    requires Dirname(PageOutput(notebookPath, output)) != ""
    ensures ExportApp(notebookPath, output, runs) ==
      Export(ExportRequest(notebookPath, output, "html-wasm", "run", false, false, false, "topological"), runs)
    ensures ExportApp(notebookPath, output, runs).Success?
    ensures ExportEditable(notebookPath, output, false, runs).Success?
    ensures ExportExecutable(notebookPath, output, false, false, runs).Success?
  {
    var req := ExportRequest(notebookPath, output, "html-wasm", "run", false, false, false, "topological");
    WasmCommandWords(req);
    assert OutputPath(req).value == PageOutput(notebookPath, output);
  }
}
