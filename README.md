# marimo_extra in Dafny

A model of the core of marimo_extra, a toolkit for publishing marimo notebooks as a
static web site, with proofs about it. The model covers:

- **marimo_export.py**: the argument list handed to `marimo export`
  (`get_export_cmd`), the `export` call around it, and the three preset exports
  (app, editable, executable). The subprocess is an oracle `runs: Command -> bool`
  that says whether a command succeeds.
- **marimo_web.py**:
  - `export_notebook`, which picks an export from a free-text notebook type;
  - `export_all_notebooks`, which exports from the index table or from the
    discovered notebooks and stops at the first failure;
  - the index table that `record_csv` builds, one row per discovered notebook.
- **utils.py**:
  - the tag substitution of `rich_print`;
  - `add_row_csv`, as a `Frame` class whose rows are appended in place;
  - `_filter_out_data`;
  - the exclude, search and rename pipeline of `index_csv_to_dict`;
  - the link rewrite of `index_csv_to_nav_dict`;
  - `alter_dict_key_value`, on dictionaries kept in insertion order.
- **ui.py**:
  - the four values a `card` is built from, including a list name read by position;
  - `_get_cards`;
  - the layouts of `_card_view`: one vertical stack, one horizontal stack, or rows
    of at most `max_column` cards.

The model's conventions:

- A pandas DataFrame is a list of column names and a list of rows. A row is a map
  from column name to cell text, and a column missing from a row is a NaN cell.
- A Python exception is a `Failure` carrying the exception class.
- Python's `str.replace`, `str.lower`, `str.capitalize` and `posixpath`'s
  `basename`, `dirname` and `join` are modelled exactly, for ASCII text.

The files, one module each:

- `outcomes.dfy`: Option, Result and the exceptions.
- `text.dfy`: string and path helpers.
- `seqs.dfy`: order-preserving filtering, mapping and flattening.
- `marimo_export.dfy`, `marimo_web.dfy`, `utils.dfy` and `ui.dfy`: the four source files.

Two places where the code decides against the natural reading, and the model follows the code:

- The index written by `record_csv` names its page column "Path".
- The readers' defaults select "HTML_Path" instead. `MarimoWeb.RecordedIndexLacksHtmlPath`
  shows that both readers then raise KeyError.
- `export_all_notebooks` reads index rows by position, so it does not depend on
  those column names.

## Model

| member | source | states |
|---|---|---|
| MarimoExport.OutputPath | src/marimo_extra/marimo_export.py:12-30 | A given output is kept. Without one, the format must be a key of `format_ext`, otherwise KeyError(format), and the output is the notebook path with .py replaced by that format's extension. |
| MarimoExport.ExportCmd | src/marimo_extra/marimo_export.py:21-77 | Succeeds iff the output resolves, ipynb has a valid sort and html-wasm a valid mode. Every command starts with marimo, export, format, path, -o, output and the watch flag, and no watch flag occurs after element 6. |
| MarimoExport.GetExportCmd | src/marimo_extra/marimo_export.py:21-77 | The step-by-step construction returns exactly `ExportCmd`, or raises its exception. |
| MarimoExport.AppendFormatOptions | src/marimo_extra/marimo_export.py:39-74 | The format blocks append exactly the format's options, or raise the sort or mode ValueError. |
| MarimoExport.HtmlCommand | src/marimo_extra/marimo_export.py:40-47 | For html: --sandbox appears after the watch flag iff `sandbox`. The command ends with the one code flag `show_code` chooses, and the opposite flag is absent. |
| MarimoExport.IpynbCommand | src/marimo_extra/marimo_export.py:51-62 | For ipynb: a sort outside topological/top-down raises ValueError. Otherwise the command ends with --sort and the sort, after the chosen code flag; --sandbox appears iff `sandbox`. |
| MarimoExport.WasmCommand | src/marimo_extra/marimo_export.py:65-74 | For html-wasm: a mode outside run/edit raises ValueError. Otherwise --mode, the mode and exactly one show-code flag follow the watch flag, and `sandbox` has no effect. |
| MarimoExport.PlainCommand | src/marimo_extra/marimo_export.py:32-77 | For md, script and unknown formats: nothing follows the watch flag, and mode and sort are never checked. |
| MarimoExport.DefaultCommandWords | src/marimo_extra/marimo_export.py:21-47 | With every option at its default, the command is the eight-word html command with --no-watch and --include-code. |
| MarimoExport.WasmCommandWords | src/marimo_extra/marimo_export.py:29-37 | A valid html-wasm request gives the ten-word command: marimo, export, html-wasm, path, -o, output, watch flag, --mode, mode, show-code flag. |
| MarimoExport.Export | src/marimo_extra/marimo_export.py:87-93 | `export` fails exactly when the command cannot be built, with the same exception. Otherwise it returns whether that command succeeds. |
| MarimoExport.ExportAsWritten | src/marimo_extra/marimo_export.py:87-93 | `export` including its `os.makedirs(os.path.dirname(output))` call: a command that cannot be built raises its exception, an output without a directory part raises FileNotFoundError, and otherwise it agrees with `Export`. |
| MarimoExport.ExportInCurrentDirectoryFails | src/marimo_extra/marimo_export.py:87-91 | For a notebook path without '/' and no output: as written, `export` raises FileNotFoundError, although the command it would run is well formed. |
| MarimoExport.ExportFibInCurrentDirectoryFails | src/marimo_extra/marimo_export.py:87-91 | `export("fib.py")` raises FileNotFoundError. |
| MarimoExport.ExportExecutable | src/marimo_extra/marimo_export.py:104-115 | `export_executable`, through `export` as written: an output without a directory part raises FileNotFoundError. Otherwise the result is whether the html-wasm command with mode run and --show-code succeeds; `sandbox` makes no difference. |
| MarimoExport.ExportEditable | src/marimo_extra/marimo_export.py:117-126 | `export_editable`, through `export` as written: FileNotFoundError for an output without a directory part, otherwise whether the html-wasm command with mode edit and --show-code succeeds. |
| MarimoExport.ExportApp | src/marimo_extra/marimo_export.py:128-136 | `export_app`, through `export` as written: FileNotFoundError for an output without a directory part, otherwise whether the html-wasm command with mode run, --no-show-code and --no-watch succeeds. |
| MarimoExport.PresetWithDirectory | src/marimo_extra/marimo_export.py:104-136 | When the page path has a directory part, every preset runs its command and `export_app` agrees with the corrected `Export`. |
| MarimoWeb.KindOf | src/marimo_extra/marimo_web.py:21-27 | App iff the lower-cased type is app/apps. Editable iff it is edit/editable/editables. Executable iff it is run/exe/executable/executables. The plain page export iff it is none of those. |
| MarimoWeb.KindOfIgnoresCase | src/marimo_extra/marimo_web.py:21-26 | Lower-casing or capitalising the type does not change the choice. |
| MarimoWeb.NotebookCommand | src/marimo_extra/marimo_web.py:20-27 | In every branch the command exports the notebook to join(output_dir, path with .py→.html) with --no-watch. It uses format html for the fallback and html-wasm otherwise. |
| MarimoWeb.ExportNotebook | src/marimo_extra/marimo_web.py:20-27 | `export_notebook` raises FileNotFoundError when the page path has no directory part. Otherwise it returns whether the command of the selected preset succeeds. |
| MarimoWeb.NotebookOutputHasDirectory | src/marimo_extra/marimo_web.py:22-27 | With a non-empty output directory, the page path always has a directory part, so the makedirs call in `export` is harmless there. |
| MarimoWeb.RowJob | src/marimo_extra/marimo_web.py:33-36 | An index row read by position gives the path (.html→.py) and the type. It raises IndexError with fewer than five columns, and AttributeError on a missing path or type. |
| MarimoWeb.Jobs | src/marimo_extra/marimo_web.py:31-44 | One job per index row when the index exists, each the row read by position. Otherwise one job per discovered notebook, typed by its directory. |
| MarimoWeb.RunJobsIssuesPrefix | src/marimo_extra/marimo_web.py:34-43 | The commands issued are the commands of the first jobs, in order, and each of those jobs was readable. |
| MarimoWeb.RunJobsEarlierSucceeded | src/marimo_extra/marimo_web.py:36-43 | Every command issued before the last one succeeded, so no notebook after a failure is attempted. |
| MarimoWeb.RunJobsAllSucceed | src/marimo_extra/marimo_web.py:34-44 | The result is True iff every job is readable, has an output with a directory part and its export succeeds; then every job was issued. |
| MarimoWeb.RunJobsStopsAtFirstFailure | src/marimo_extra/marimo_web.py:36-43 | False means the last command issued failed. An exception is raised by the job right after the issued ones: its own read error, or FileNotFoundError for an output without a directory part. |
| MarimoWeb.RunJobsFalseLastFailed | src/marimo_extra/marimo_web.py:36-43 | False means the last command issued failed. |
| MarimoWeb.RunJobsRaisedAt | src/marimo_extra/marimo_web.py:36-43 | An exception is raised by the job right after the issued ones. |
| MarimoWeb.RunJobsStep | src/marimo_extra/marimo_web.py:36-37 | The first job decides whether the rest are run: an unreadable row raises, an output without a directory part raises FileNotFoundError, a failed export returns False, and a success goes on. |
| MarimoWeb.ExportAllNotebooks | src/marimo_extra/marimo_web.py:29-44 | `export_all_notebooks` returns the result, and issues the commands, that `RunJobs` gives for the jobs. |
| MarimoWeb.ExportJobs | src/marimo_extra/marimo_web.py:34-44 | The loop with its early returns computes `RunJobs`. |
| MarimoWeb.ExportJob | src/marimo_extra/marimo_web.py:36 | One `export_notebook` call in the loop raises FileNotFoundError for an output without a directory part; otherwise it returns whether the job's command succeeds. |
| MarimoWeb.ExportAllDiscovered | src/marimo_extra/marimo_web.py:40-44 | Without an index, the result is True iff every discovered notebook's page path has a directory part and its export succeeds. |
| MarimoWeb.RunJobsWithOutputDir | src/marimo_extra/marimo_web.py:29-44 | With a non-empty output directory, the only exception is the read error of the job right after the issued ones. |
| MarimoWeb.Stem | src/marimo_extra/marimo_web.py:67 | The page's file name with .py and .html removed contains no '/'. |
| MarimoWeb.IndexRowValues | src/marimo_extra/marimo_web.py:66-71 | One cell per index column. The Path cell is the notebook path with .py replaced by .html, the Directory cell is the notebook's directory, and the Tags cell is empty. |
| MarimoWeb.IndexRowName | src/marimo_extra/marimo_web.py:67 | The Name is the stem capitalised: the same letters up to case, the same length, no '/', a first character that is not lower-case, and no later character upper-case, as `.capitalize()` gives. |
| MarimoWeb.IndexRowThumbnail | src/marimo_extra/marimo_web.py:69 | The Thumbnail is `<dirname>/public/thumbnail/<stem>.png`. |
| MarimoWeb.IndexRowOfFile | src/marimo_extra/marimo_web.py:66-69 | A notebook `d/n.py` (no '.' in `d` or `n`) is recorded with Name `n` capitalised, Path `d/n.html` and Thumbnail `d/public/thumbnail/n.png`. |
| MarimoWeb.IndexRowFib | src/marimo_extra/marimo_web.py:66-70 | "apps/fib.py" in "apps" is recorded as the row "Fib", "apps/fib.html", "apps", "apps/public/thumbnail/fib.png", "". |
| MarimoWeb.ThumbnailPath | src/marimo_extra/marimo_web.py:69 | Joining public, thumbnail and a relative file name onto a directory gives the directory, a '/' unless it ends in one, then public/thumbnail/file. |
| MarimoWeb.IndexColumnsDistinct | src/marimo_extra/marimo_web.py:61 | The five column names are distinct. |
| MarimoWeb.IndexTable | src/marimo_extra/marimo_web.py:61-71 | The table has the five columns and one row per discovered notebook, in discovery order. |
| MarimoWeb.RecordCsv | src/marimo_extra/marimo_web.py:53-81 | Nothing is written when the index exists and `replace` is off. Otherwise the frame filled row by row is `IndexTable`. |
| MarimoWeb.RecordedIndexRoundTrip | src/marimo_extra/marimo_web.py:65-71 | Exporting from the index `record_csv` writes attempts the same exports, in the same order, as exporting from discovery, provided no path contains ".html". |
| MarimoWeb.RecordedRowJob | src/marimo_extra/marimo_web.py:36 | A recorded row reads back as the job of its notebook. |
| MarimoWeb.RecordedIndexLacksHtmlPath | src/marimo_extra/marimo_web.py:61 | With default arguments, `index_csv_to_dict` and `index_csv_to_nav_dict` raise KeyError("HTML_Path") on the index `record_csv` writes. |
| Utils.RowRecord | src/marimo_extra/utils.py:60 | A positional row becomes a record with exactly the frame's columns, holding the i-th value under the i-th column. |
| Utils.Frame.constructor | src/marimo_extra/marimo_web.py:62 | An empty frame with the given columns. |
| Utils.Frame.AddRow | src/marimo_extra/utils.py:60 | Appends one row when the list has one value per column. Otherwise it raises ValueError and leaves the rows unchanged. |
| Utils.AddedRowReadsBack | src/marimo_extra/utils.py:60 | After the append there is one more row, the earlier rows are unchanged, and the last row reads back the new values column by column. |
| Utils.RichPrint | src/marimo_extra/utils.py:44-46 | The text printed is every tag replaced by its code, tag after tag in the order of `color`. A message with no tag is printed unchanged. |
| Utils.SubstituteNoTag | src/marimo_extra/utils.py:44-45 | Substituting tags that do not occur changes nothing. |
| Utils.SubstituteChars | src/marimo_extra/utils.py:44-45 | Every character of the substituted text comes from the message or from one of the codes. |
| Utils.ColorTagsNonEmpty | src/marimo_extra/utils.py:5-18 | No tag of `color` is empty, so each replace is well defined. |
| Utils.FirstMissing | src/marimo_extra/utils.py:66 | The position of the first exclusion key that is not a column; everything before it is a column. |
| Utils.FilterOutData | src/marimo_extra/utils.py:63-67 | Keeps exactly the rows that pass every exclusion, in table order. The first key that is not a column raises KeyError. |
| Utils.KeptRowsNoExclusions | src/marimo_extra/utils.py:64-67 | An empty filter keeps every row. |
| Utils.FilterTwoKeysAsWrittenFails | src/marimo_extra/utils.py:65-66 | As written, excluding Name=Home and then Type=apps from a three-row table raises IndexError. |
| Utils.FilterTwoKeysIntended | src/marimo_extra/utils.py:63-67 | The same two exclusions, as intended, keep only the third row. |
| Utils.FilterOneKeyAsWrittenAgrees | src/marimo_extra/utils.py:64-67 | With a single exclusion key the loop as written selects the intended rows. |
| Utils.FilterIndexAsWritten | src/marimo_extra/utils.py:64-66 | The loop as written keeps only positions of the index it started from, and raises only IndexError or KeyError for one of the keys. |
| Utils.FilterAsWrittenFromRange | src/marimo_extra/utils.py:64-66 | Started on the whole index, the loop as written succeeds iff every key is a column and no key but the last removes a row. It then leaves the positions of exactly the intended rows. |
| Utils.FilterAsWrittenFirstKey | src/marimo_extra/utils.py:65-66 | A first key that removes no row leaves the whole index for the next key. One that removes a row makes the next key raise IndexError, or KeyError if it is not a column. |
| Utils.FilterOutDataAsWritten | src/marimo_extra/utils.py:63-67 | `_filter_out_data` as written succeeds iff every key is a column and no key but the last removes a row. It then returns exactly the rows that pass every exclusion; otherwise it raises IndexError or KeyError for one of the keys. |
| Utils.Project | src/marimo_extra/utils.py:115-116 | A renamed record has exactly the target keys. An entry not renamed again later holds its source cell, and a missing cell becomes "". |
| Utils.ProjectAll | src/marimo_extra/utils.py:115-116 | One renamed record per row, in order. |
| Utils.SearchRows | src/marimo_extra/utils.py:113-114 | An empty search keeps every row. A non-empty one succeeds iff the Name column exists and every row has a Name. It raises KeyError("Name") without the column and the NaN-mask ValueError for a row without a Name. |
| Utils.IndexCsvToDict | src/marimo_extra/utils.py:111-116 | With `_filter_out_data` as written: succeeds iff the filter gets through (every key a column, no key but the last removing a row), the renamed columns exist and, for a non-empty search, every kept row has a Name. Each record has exactly the renamed keys. A failure carries the filter's error, else the search's error, else the KeyError of the first renamed column that is missing. |
| Utils.SearchSelects | src/marimo_extra/utils.py:112-114 | Exclusion followed by search selects the rows that pass both, in table order. |
| Utils.IndexCsvToDictSelects | src/marimo_extra/utils.py:111-116 | The result is the renamed record of each row that passes the exclusions and the case-insensitive name search, in table order. |
| Utils.IndexCsvToDictDefaults | src/marimo_extra/utils.py:70-78 | With the defaults and no search, the records are those of the rows not named "Home", with keys name, link, thumbnail and content. |
| Utils.DefaultProject | src/marimo_extra/utils.py:70-75 | The default renames make the record {name, link, thumbnail, content} from Name, HTML_Path, Thumbnail and Tags, with missing cells as "". |
| Utils.NavLink | src/marimo_extra/utils.py:130 | The rewritten link contains no space. |
| Utils.NavLinkShape | src/marimo_extra/utils.py:130 | For relative names without spaces, the rewritten link is /home_dir/link, or /link when home_dir is empty. |
| Utils.Links | src/marimo_extra/utils.py:130 | One rewritten link per row, in order. |
| Utils.NavEntriesKeys | src/marimo_extra/utils.py:132 | The keys of the nav dictionary are exactly the rewritten links. |
| Utils.NavEntriesLastWins | src/marimo_extra/utils.py:132 | A link maps to the name of the last row that carries it. |
| Utils.NavEntries | src/marimo_extra/utils.py:130-132 | No key of the nav dictionary contains a space. |
| Utils.IndexCsvToNavDict | src/marimo_extra/utils.py:128-132 | With `_filter_out_data` as written: succeeds iff the filter gets through, both named columns exist and every kept row has a link. The result is then the nav dictionary of the kept rows. A failure carries the filter's error, else the KeyError of the missing name column, else that of the missing link column, else TypeError for a kept row without a link. |
| Utils.Assign | src/marimo_extra/utils.py:139 | Dictionary assignment: the key is added, it maps to the new value, other keys keep theirs, and a new key goes last. |
| Utils.AssignKeepsDistinct | src/marimo_extra/utils.py:139 | Assigning keeps the keys of a dictionary distinct. |
| Utils.AlterDictKeyValue | src/marimo_extra/utils.py:138-139 | The inverted dictionary has no repeated key, whatever repeats the values have. |
| Utils.AlterDictKeyValueKeys | src/marimo_extra/utils.py:138-139 | The keys of the inverted dictionary are the values of the original. |
| Utils.AlterDictKeyValueLastWins | src/marimo_extra/utils.py:139 | Each value maps back to the key of the last item that carries it. |
| Utils.AlterDictKeyValueSwaps | src/marimo_extra/utils.py:139 | Without repeated values, inverting keeps the order and turns each item around. |
| Utils.AlterDictKeyValueTwice | src/marimo_extra/utils.py:138-139 | Inverting a dictionary without repeated values twice gives it back, in the same order. |
| Ui.MakeCard | src/marimo_extra/ui.py:34-43 | A list name supplies name, thumbnail, content and link from positions 0-3 (a shorter list raises IndexError). A plain name keeps the arguments and fills a missing thumbnail or content with its placeholder. |
| Ui.MakeCardFromFields | src/marimo_extra/ui.py:34-38 | A card's four fields passed back as a list rebuild the card, whatever the other arguments. |
| Ui.MakeCardNamedAgrees | src/marimo_extra/ui.py:34-43 | A plain name with all fields given builds the same card as the list of those fields. |
| Ui.Get | src/marimo_extra/ui.py:195-198 | `item[key]` gives the value of a present key and raises KeyError(key) for a missing one. |
| Ui.CardOf | src/marimo_extra/ui.py:194-199 | A dictionary makes a card iff it has the keys name, thumbnail, content and link; otherwise the KeyError is for one of those four keys. |
| Ui.CardOfKeys | src/marimo_extra/ui.py:194-199 | A dictionary makes a card iff it has name, thumbnail, content and link. The card holds those four strings; otherwise the first missing key, in that order, is raised. |
| Ui.CardsOfOnePerItem | src/marimo_extra/ui.py:191-201 | The cards exist iff every dictionary makes one, and then there is exactly one card per dictionary, in input order. |
| Ui.CardsOfFirstFailure | src/marimo_extra/ui.py:192-199 | A failure is the exception of the first dictionary that cannot make a card. |
| Ui.GetCards | src/marimo_extra/ui.py:178-201 | The loop of `_get_cards` computes `CardsOf`. |
| Ui.DefaultRecordsMakeCards | src/marimo_extra/ui.py:178 | The records of the default `index_csv_to_dict` always make cards. |
| Ui.ChunksConcat | src/marimo_extra/ui.py:169-170 | Concatenating the mixed rows gives back the cards, in order. |
| Ui.ChunksSizes | src/marimo_extra/ui.py:169-170 | Every row holds between 1 and `max_column` cards, and every row but the last exactly `max_column`. |
| Ui.ChunksCount | src/marimo_extra/ui.py:169 | The number of rows is ceil(n / max_column): their capacity covers the cards, one row fewer would not, and no cards give no rows. |
| Ui.MixedRows | src/marimo_extra/ui.py:167-171 | A positive `max_column` gives one horizontal stack per chunk. Zero raises ValueError, and a negative value gives an empty range and no rows. |
| Ui.MixedRowsFlatten | src/marimo_extra/ui.py:169-171 | The mixed rows hold the cards, in order. |
| Ui.CardView | src/marimo_extra/ui.py:152-171 | vertical appends one vertical stack of all cards, horizontal one horizontal stack, and mixed a vertical stack of the rows. Any other orientation appends nothing. |
| Ui.CardViewKeepsCards | src/marimo_extra/ui.py:163-171 | Each appended layout holds exactly the cards, in order. |
| Text.Lower | src/marimo_extra/marimo_web.py:21 | `str.lower()` maps each character and keeps the length. |
| Text.Capitalize | src/marimo_extra/marimo_web.py:67 | `str.capitalize()`: the same letters up to case, the first character not lower-case and the rest not upper-case. |
| Text.HtmlToPyUndoesPyToHtml | src/marimo_extra/marimo_web.py:36 | Replacing .html by .py undoes replacing .py by .html, for a path without ".html". |
| Text.ReplaceChars | src/marimo_extra/utils.py:45 | Every character `str.replace` produces comes from the string or from the replacement. |
| Text.ReplaceKeepsOut | src/marimo_extra/marimo_web.py:67 | `str.replace` brings in no character found neither in the string nor in the replacement. |
| Text.ReplaceSameLength | src/marimo_extra/utils.py:45 | Replacing by a string of the same length keeps the length; replacing a string by itself keeps the text. |
| Text.Basename | src/marimo_extra/marimo_web.py:67 | `os.path.basename` is a suffix of the path without '/'. |
| Text.BasenameShape | src/marimo_extra/marimo_web.py:67 | `os.path.basename` is the whole path or starts right after a '/', so it is the longest suffix without '/'. |
| Text.Dirname | src/marimo_extra/marimo_web.py:69 | `os.path.dirname` is a prefix of the path, and empty when the path has no '/'. |
| Text.DirnameShape | src/marimo_extra/marimo_web.py:69 | `os.path.dirname` is the prefix up to the last '/', with the slashes before that '/' stripped unless there are only slashes. |
| Text.SplitJoined | src/marimo_extra/marimo_web.py:67-69 | For `d` not ending in '/' and `b` without '/', `d/b` has dirname `d` and basename `b`. |
| Text.DirnameNonEmpty | src/marimo_extra/marimo_export.py:91 | A path with a '/' has a non-empty directory part. |
| Text.Join | src/marimo_extra/marimo_web.py:22 | `os.path.join` with an absolute component gives that component. |
| Text.JoinRelative | src/marimo_extra/marimo_web.py:22 | A relative component is appended to `a`, after a '/' unless `a` is empty or already ends in one. |
| Text.JoinEnds | src/marimo_extra/marimo_web.py:22 | The joined path ends with the component and, for a relative one, starts with the directory. |
| Text.JoinAllExtends | src/marimo_extra/marimo_web.py:69 | Joining relative components onto a path only ever extends it. |

## Left out

- Process and file I/O is not modelled:
  - `subprocess.run`, console printing and `print(e.stderr)` are left out;
  - the outcome of a command is the oracle `runs`, and any exception inside `export`'s `try` counts as a failed run;
  - `os.makedirs` appears only as the FileNotFoundError it raises for an empty directory; `export`, its presets and `export_notebook` follow the code as written, and `MarimoExport.Export` is the corrected `export`.
- The marimo import guard that calls `exit(1)` is environment handling.
- `collect_notebooks_info` and its `Path.rglob` walk are filesystem I/O. Their result is the input `discovered`, and a missing directory is simply absent from it.
- `pd.read_csv`, `to_csv` and the `os.path.exists` checks are file I/O.
  - Tables are given and returned as values.
  - `indexExists` is a parameter.
  - The type conversions of a CSV round trip, such as an empty cell read back as NaN, are not modelled.
- `generate_index` is an empty stub. The `test` helpers and `__main__` blocks are scripts.
- In ui.py, `Gallery`'s search and dropdown callbacks are not modelled. Neither is widget markup: `mo.image`, `mo.hstack` and `mo.vstack` gaps, `frame`, the buttons and the `color` table. Cards and stacks are opaque values.
- Text.Lower: ASCII letters only; Python's Unicode case mapping is not modelled.
- Text.Capitalize: ASCII letters only, like `Text.Lower`; Python's Unicode title-casing of the first character is not modelled.
- Utils.NameMatches: the search is a literal substring ignoring ASCII case. pandas treats the search as a regular expression.
- Utils.IndexCsvToNavDict: `index_names` is passed as its two entries, the name column and the link column.
- Utils.IndexCsvToNavDict: the result is a map, so the insertion order of the nav dictionary is not kept. Which name each link carries is modelled (last wins).
- Utils.Frame: the columns must be distinct, as in every frame the modelled code builds. pandas allows duplicate column labels.
- Utils.Frame.AddRow: every frame is taken to have the index labels 0..n-1, as a frame built by `pd.DataFrame(columns=...)` and filled by this function has. On a frame with other labels, `out.loc[len(out)]` can overwrite an existing row instead of appending.
- MarimoWeb.ExportAllNotebooks: the list of issued commands is a ghost out-parameter. Only the result is computed.
- Ui.MakeCard: a plain name is a string. For other objects, the f-string placeholders of `card` are not modelled.
- The other modules of the repository are not part of this model: the shell scripts, the notebook apps index.py and test_index.py, and the names imported by `__init__.py` that the source does not define.

## Findings

| source | as written | input that shows it | evidently intended | confidence | as-written member | corrected member |
|---|---|---|---|---|---|---|
| src/marimo_extra/utils.py:65-66 | Each key's mask is computed over all rows, then used to index the already narrowed index. The readers `index_csv_to_dict` and `index_csv_to_nav_dict` are modelled on this loop; `Utils.FilterAsWrittenFromRange` shows it keeps the intended rows whenever it succeeds. | Rows named Home, Fibonacci (type apps) and Plot, excluding Name=Home and then Type=apps: the second mask has three entries for an index of two, and pandas raises IndexError. | Keep the rows that pass every exclusion (here only Plot). | not executed | Utils.FilterTwoKeysAsWrittenFails | Utils.FilterOutData |
| src/marimo_extra/marimo_export.py:87-91 | `os.makedirs(os.path.dirname(output))` runs even when the output has no directory part. | `export("fib.py")`: the output is "fib.html", its dirname is "", and `os.makedirs("")` raises FileNotFoundError before the command runs. | Create the directory only when there is one, then run the command. | not executed | MarimoExport.ExportInCurrentDirectoryFails | MarimoExport.Export |
