# QEDNet core, modelled in Dafny

This project models three pieces of QEDNet that turn Lean 4 / mathlib4 material
into data:

- **The Lean bridge** (`src/qednet/io/lean_rpc.py`). `LeanRPC` picks the Lean
  command and builds the import preamble. It asks Lean for a theorem's type
  (`fetch_goal`), compiles a tactic script against a goal (`check_tactic`),
  and reports the first error line. Script dedenting and indenting are
  modelled line by line.
- **The statement/trace exporter**
  (`data/scripts/export_mathlib4_statements_traces.py`). It finds the traced
  repository root, sweeps JSON/JSONL artifacts for declaration rows, and
  builds statement records. It merges traced theorems and swept rows with
  theorem priority and deduplication by id, cuts the result to the limit,
  and attaches proof traces to the kept statements.
- **The regex harvester** (`data/scripts/harvest_statements.py`). It
  normalises whitespace in statements, derives module names from paths,
  builds records with the `sorry` guard, filters paths, and stably sorts the
  output by id.

Files:

| file | module | contents |
|---|---|---|
| `wrappers.dfy` | `Wrappers` | `Option`, `Result` |
| `text.dfy` | `Text` | Python `str` behaviour: `isspace`, `splitlines`, `strip`/`lstrip`/`rstrip`, `find`, `join`, `split` on one character |
| `paths.dfy` | `Paths` | `PurePath.suffix`, `PurePath.stem`, ASCII lowering |
| `json_value.dfy` | `JsonValue` | decoded JSON, Python truthiness, `a or b or c` lookups |
| `lean_rpc.dfy` | `LeanRpc` | the bridge |
| `export_traces.dfy` | `ExportTraces` | the exporter |
| `stable_sort.dfy` | `StableSort` | Python string order, stable `list.sort(key=...)` as insertion, and why every stable sort agrees with it |
| `harvest.dfy` | `Harvest` | the harvester |

Things the model takes as inputs:

- Running Lean is a function parameter `run: (source, label) -> (ok, out, err)`.
- `shutil.which` results are two optional paths.
- `json.loads` is a function parameter `parse: string -> Option<Json>`.
- LeanDojo's traced theorems are input records.
- A directory walk is an input listing.
- The declaration regex of the harvester is replaced by the list of matches it yields.

Where the code and its own comments or docstrings differ, the model follows
the code:

- `_indent` adds a final newline only when its input does not already end in
  one. So the tactic block under `:= by` ends without a newline
  (`LeanRpc.ScriptBlockShape`).
- With `--limit 0`, the trace loop in `main` stops only after its first
  appended trace. It appends none, because no statement is kept
  (`ExportTraces.LoopCap`, `ExportTraces.Export`).

## Model

| member | source | states |
|---|---|---|
| LeanRpc.DetectLeanCmd | src/qednet/io/lean_rpc.py:135-147 | `[lake, "env", "lean"]` when lake is found, else `[lean]` when lean is found, else an EnvironmentError; success iff one of them is found |
| LeanRpc.NewLeanRPC | src/qednet/io/lean_rpc.py:44-55 | imports default to `["Mathlib"]` when None or empty and are never empty; prelude and timeout kept; workdir set iff given non-empty; command as detected; construction fails (EnvironmentError) iff neither program is found |
| LeanRpc.ImportLines | src/qednet/io/lean_rpc.py:132 | one `import m` line per module, in order |
| LeanRpc.Preamble | src/qednet/io/lean_rpc.py:131-133 | ends in exactly one newline: the last character is `\n` and the one before it is not whitespace |
| LeanRpc.PreambleLayout | src/qednet/io/lean_rpc.py:131-133 | when there is at least one import and the last module name ends in a visible character, the preamble is the import lines joined by newlines, a newline, then the right-stripped prelude and a newline when the prelude has visible text |
| LeanRpc.Indentation | src/qednet/io/lean_rpc.py:196 | length of the leading run of spaces and tabs (`^[ \t]*`) |
| LeanRpc.NonBlankIndentations | src/qednet/io/lean_rpc.py:196 | holds the indentation of exactly the non-blank lines; empty iff every line is blank |
| LeanRpc.NonBlankIndentationsMembers | src/qednet/io/lean_rpc.py:196 | `mins` holds the indentation of every non-blank line and nothing else |
| LeanRpc.MinOf | src/qednet/io/lean_rpc.py:199 | an element of the list no greater than any element |
| LeanRpc.DedentAllBlank | src/qednet/io/lean_rpc.py:197-198 | a script with no non-blank line comes back unchanged |
| LeanRpc.DedentShape | src/qednet/io/lean_rpc.py:194-200 | line count and each line's stripped text are kept; every non-blank line loses exactly the minimum indentation; some non-blank line ends with none; a blank line loses its first `cut` characters when it has that many and is kept whole otherwise, and stays blank |
| LeanRpc.DedentAllSpace | src/qednet/io/lean_rpc.py:191-200 | dedenting keeps a script all-whitespace or not |
| LeanRpc.IndentLinesShape | src/qednet/io/lean_rpc.py:204-205 | each non-blank line gets exactly `n` leading spaces in front of its unchanged text; blank lines are unchanged; stripped text is kept |
| LeanRpc.IndentRoundTrip | src/qednet/io/lean_rpc.py:202-205 | when the input has no lines or its last line is non-empty, splitting the indented text into lines gives the indented lines of the input (an empty last line, as in `"a\n\n"`, is lost) |
| LeanRpc.IndentFinalNewline | src/qednet/io/lean_rpc.py:205 | a final newline is added when the input is non-empty and does not end in one; an input ending in a newline whose last line is non-empty comes back without a trailing newline |
| LeanRpc.LocatedErrorIsErrorLine | src/qednet/io/lean_rpc.py:213 | a line matching `:\d+:\d+: error:` contains `error:`, so the regex test adds nothing |
| LeanRpc.FirstIndex | src/qednet/io/lean_rpc.py:212-218 | index of the first line meeting the test, or none when no line does |
| LeanRpc.FirstLeanErrorEmpty | src/qednet/io/lean_rpc.py:207-219 | the concise error is empty iff the stream is all whitespace |
| LeanRpc.FirstLeanErrorReportsError | src/qednet/io/lean_rpc.py:212-214 | when a line contains `error:`, the result is the first such line, stripped, and still contains `error:` |
| LeanRpc.NameMatchesIsContains | src/qednet/io/lean_rpc.py:78 | `left.strip().endswith(n) or n in left` holds iff `n in left` |
| LeanRpc.SplitSeparator | src/qednet/io/lean_rpc.py:76 | `split(" : ", 1)`: present iff the line has `" : "`; left + `" : "` + right is the line, and the left has no `" : "` |
| LeanRpc.ScanNamedLine | src/qednet/io/lean_rpc.py:72-80 | the type part of the last line that names the theorem, or none when no line does |
| LeanRpc.ScanFirstSeparator | src/qednet/io/lean_rpc.py:81-86 | the type part of the first line with `" : "`, or none when no line has one |
| LeanRpc.FetchGoal | src/qednet/io/lean_rpc.py:59-97 | failed run gives RuntimeError with stderr, else stdout; goal from the last naming line, else the first `" : "` line; ValueError iff no line has `" : "`; name set, context and edges empty |
| LeanRpc.ScriptBlockShape | src/qednet/io/lean_rpc.py:109-112 | the block under `:= by` is empty iff the script is all whitespace; otherwise it ends in a visible character and each line is blank or starts with two spaces |
| LeanRpc.EmptyBlock | src/qednet/io/lean_rpc.py:205 | indenting a lone newline gives the empty string |
| LeanRpc.VisibleBlock | src/qednet/io/lean_rpc.py:110-112 | a right-stripped script with visible text, indented, ends in visible text and every line is blank or indented by two |
| LeanRpc.CheckTactic | src/qednet/io/lean_rpc.py:99-127 | compiles preamble, option lines, the theorem header and the script block; valid iff the run succeeds; success restates the goal under the name with no error; failure has no state and the concise error of stderr, else stdout; raw output kept |
| ExportTraces.Limited | data/scripts/export_mathlib4_statements_traces.py:43-44 | `islice`: a prefix, all of it without a limit, exactly the first `n` items when there are more than `n`, and everything when there are at most `n` |
| ExportTraces.Subdirs | data/scripts/export_mathlib4_statements_traces.py:50 | the names of the sub-directory entries (membership only; order and count are not stated) |
| ExportTraces.DetectTracedRoot | data/scripts/export_mathlib4_statements_traces.py:46-54 | a missing dst is returned as is; a single subdirectory is returned; otherwise `dst/mathlib4` when it exists, else dst; the result is always dst or an existing child of it |
| ExportTraces.InferModAndName | data/scripts/export_mathlib4_statements_traces.py:56-60 | the name has no dot; with a dot, mod + "." + name is the input; without one, mod is "" and name is the input |
| ExportTraces.BuildStatementRecord | data/scripts/export_mathlib4_statements_traces.py:119-129 | id is "lean:" + full name, sys "lean", stmt the given type; kind the given kind when truthy, else "const"; mod/name as `infer_mod_and_name` |
| ExportTraces.SameIdSameName | data/scripts/export_mathlib4_statements_traces.py:123 | two records with the same id come from the same full name |
| ExportTraces.MaybeDecl | data/scripts/export_mathlib4_statements_traces.py:82-90 | a row iff the value is an object whose name lookup is a string and whose type or kind lookup is not None; the name, the type and the kind are each the first truthy alias in order (else the last alias's value) |
| ExportTraces.RawNeverAccepted | data/scripts/export_mathlib4_statements_traces.py:72 | a `{"_raw": line}` placeholder never yields a row |
| ExportTraces.ProbeAll | data/scripts/export_mathlib4_statements_traces.py:100-101 | at most one row per item, each with a type or kind |
| ExportTraces.ProbeAllAppend | data/scripts/export_mathlib4_statements_traces.py:100-107 | probing two lists in turn is probing their concatenation |
| ExportTraces.FileLines | data/scripts/export_mathlib4_statements_traces.py:64-65 | the physical lines of a file: at least one, none holding a line break |
| ExportTraces.JsonlItems | data/scripts/export_mathlib4_statements_traces.py:65-72 | at most one item per line |
| ExportTraces.LoadJsonl | data/scripts/export_mathlib4_statements_traces.py:62-73 | strips each line, skips blank ones, decodes the rest or keeps `{"_raw": line}` (equals `JsonlItems` of the file's lines) |
| ExportTraces.JsonlRawDropped | data/scripts/export_mathlib4_statements_traces.py:110-112 | a JSONL file yields exactly the rows of its decodable lines |
| ExportTraces.SweepRows | data/scripts/export_mathlib4_statements_traces.py:92-117 | every swept row has a type or kind |
| ExportTraces.ProbeInto | data/scripts/export_mathlib4_statements_traces.py:100-101 | appends the probed rows of the items after the rows so far |
| ExportTraces.SweepArtifacts | data/scripts/export_mathlib4_statements_traces.py:75-117 | the sweep's rows are those of each entry in walk order, unreadable or undecodable files adding none |
| ExportTraces.SweepFile | data/scripts/export_mathlib4_statements_traces.py:93-115 | one entry: non-files, other suffixes and failures add nothing; `.json` list/object payloads and `.jsonl` items add their rows |
| ExportTraces.ProbeContainers | data/scripts/export_mathlib4_statements_traces.py:104-107 | probes the list items under `decls`, `constants`, `items`, `rows`, in that order |
| ExportTraces.ContainerStep | data/scripts/export_mathlib4_statements_traces.py:104-107 | one more container key appends that key's rows |
| ExportTraces.StepsOf | data/scripts/export_mathlib4_statements_traces.py:220-238 | one step per tactic, numbered from 0, action the tactic, both annotation fields None when annotation fails, and a final `_tactics_error` "Type: message" entry when the iterator raised |
| ExportTraces.BuildSteps | data/scripts/export_mathlib4_statements_traces.py:220-238 | the step loop builds `StepsOf` |
| ExportTraces.Kept | data/scripts/export_mathlib4_statements_traces.py:214-218 | at most one trace per theorem, each for an allowed id |
| ExportTraces.KeptAppend | data/scripts/export_mathlib4_statements_traces.py:214-243 | keeping distributes over concatenation |
| ExportTraces.KeptPositions | data/scripts/export_mathlib4_statements_traces.py:214-243 | kept traces are the traces of the allowed theorems, at strictly increasing positions, missing none |
| ExportTraces.EffectiveLimit | data/scripts/export_mathlib4_statements_traces.py:175-177 | `--limit` wins and is clamped at 0; otherwise `--test` gives 10; otherwise no limit |
| ExportTraces.TheoremRecords | data/scripts/export_mathlib4_statements_traces.py:185-189 | one record per theorem |
| ExportTraces.RowRecords | data/scripts/export_mathlib4_statements_traces.py:196-200 | one record per row |
| ExportTraces.Dedup | data/scripts/export_mathlib4_statements_traces.py:190-203 | the `seen_ids` merge keeps only records of the input, no more of them, with the same set of ids |
| ExportTraces.DedupDistinct | data/scripts/export_mathlib4_statements_traces.py:190-203 | merged statements have pairwise distinct ids |
| ExportTraces.DedupKeepsFirst | data/scripts/export_mathlib4_statements_traces.py:190-203 | each kept record is the first record with its id |
| ExportTraces.DedupPrefix | data/scripts/export_mathlib4_statements_traces.py:190-203 | merging more records only appends, and appends only ids not seen before |
| ExportTraces.TheoremPriority | data/scripts/export_mathlib4_statements_traces.py:183-203 | theorem records come first and a row never replaces a theorem with the same id |
| ExportTraces.StatementsDistinct | data/scripts/export_mathlib4_statements_traces.py:205-207 | exported statements have distinct ids, also after the cut |
| ExportTraces.TracesFollowStatements | data/scripts/export_mathlib4_statements_traces.py:212-218 | every trace belongs to an exported statement |
| ExportTraces.KeptNothing | data/scripts/export_mathlib4_statements_traces.py:217-218 | with no allowed id no trace is kept |
| ExportTraces.LoopCap | data/scripts/export_mathlib4_statements_traces.py:245-247 | the break test `count >= limit` caps the loop at the limit, and at one for limit 0 |
| ExportTraces.CollectTraces | data/scripts/export_mathlib4_statements_traces.py:210-247 | the trace loop gives the kept traces cut by the loop's cap |
| ExportTraces.MergeTheorems | data/scripts/export_mathlib4_statements_traces.py:180-192 | the theorem loop gives the first record of each theorem id and the set of ids seen |
| ExportTraces.MergeRows | data/scripts/export_mathlib4_statements_traces.py:194-203 | the row loop continues the merge over the row records |
| ExportTraces.MergeStatements | data/scripts/export_mathlib4_statements_traces.py:179-207 | statements are the merge of the limited theorems and the rows, cut to the limit |
| ExportTraces.Export | data/scripts/export_mathlib4_statements_traces.py:174-262 | the payload's statements and traces are the merged statements and the kept traces cut to the limit; meta holds repo, commit, root and both counts |
| ExportTraces.IdsSnoc | data/scripts/export_mathlib4_statements_traces.py:192 | appending a record adds its id to the seen set |
| Paths.LastDot | data/scripts/export_mathlib4_statements_traces.py:95 | index of the last dot, if any |
| Paths.Suffix | data/scripts/export_mathlib4_statements_traces.py:95 | `PurePath.suffix`: empty iff the name has no inner last dot, else a dot and at least one dot-free character |
| Paths.Stem | data/scripts/harvest_statements.py:24 | `PurePath.stem`: stem followed by suffix is the name; non-empty for a non-empty name |
| Paths.AsciiLower | data/scripts/export_mathlib4_statements_traces.py:95 | lower-cases A-Z and keeps every other character |
| Paths.StemOfSuffixed | data/scripts/harvest_statements.py:23-24 | `stem.ext` has suffix `.ext` and stem `stem` |
| JsonValue.Get | data/scripts/export_mathlib4_statements_traces.py:86-88 | `obj.get(key)`: the member, or None when missing |
| JsonValue.FirstTruthy | data/scripts/export_mathlib4_statements_traces.py:86-88 | `a or b or c`: an operand, truthy iff some operand is, the first truthy one, else the last |
| JsonValue.Lookup | data/scripts/export_mathlib4_statements_traces.py:86-88 | the alias chain takes the first truthy alias in order, else the last alias's value with all aliases falsy |
| Text.FindFrom | data/scripts/harvest_statements.py:43 | `s.find(pat, i)`: an occurrence at or after `i` with none before it, or none at all |
| Text.LStrip | src/qednet/io/lean_rpc.py:78 | removes exactly the leading whitespace |
| Text.RStrip | src/qednet/io/lean_rpc.py:133 | removes exactly the trailing whitespace |
| Text.RStripEmpty | src/qednet/io/lean_rpc.py:110 | `str.rstrip()` is empty iff the input is all whitespace |
| Text.StripShape | data/scripts/export_mathlib4_statements_traces.py:66 | `str.strip()` has visible ends and is empty iff the input is all whitespace |
| Text.StripSlice | data/scripts/harvest_statements.py:19 | the stripped text is a slice of the input with only whitespace around it |
| Text.SplitLines | src/qednet/io/lean_rpc.py:194 | lines hold no line break; no lines iff the text is empty |
| Text.AllSpaceByLines | src/qednet/io/lean_rpc.py:196-198 | a text is all whitespace iff each of its lines is |
| Text.SplitJoin | src/qednet/io/lean_rpc.py:200 | splitting lines joined by newlines gives them back |
| Text.SplitOn | data/scripts/export_mathlib4_statements_traces.py:57 | `s.split(c)`: at least one part, none containing `c`, joined back by `c` to `s` |
| Text.SplitOnJoin | data/scripts/harvest_statements.py:25 | joining separator-free parts by `c` and splitting at `c` gives the parts back |
| Text.JoinSnoc | data/scripts/export_mathlib4_statements_traces.py:58 | joining all parts is joining all but the last, the separator, then the last |
| StableSort.LexTotal | data/scripts/harvest_statements.py:75 | Python string order is total |
| StableSort.LexLeTrans | data/scripts/harvest_statements.py:75 | `<=` on strings is transitive |
| StableSort.InsertPermutes | data/scripts/harvest_statements.py:75 | inserting adds exactly the new element |
| StableSort.InsertSorted | data/scripts/harvest_statements.py:75 | inserting into a sorted list keeps it sorted |
| StableSort.SortSorted | data/scripts/harvest_statements.py:75 | the sort's output is sorted by key |
| StableSort.SortPermutes | data/scripts/harvest_statements.py:75 | the sort's output is a permutation of its input |
| StableSort.SortStable | data/scripts/harvest_statements.py:75 | elements with equal keys keep their input order |
| StableSort.SortedUnique | data/scripts/harvest_statements.py:75 | two lists sorted by key, holding the same elements in the same order for each key, are equal |
| StableSort.StableSortUnique | data/scripts/harvest_statements.py:75 | any list sorted by key that keeps, for each key, the input's elements in input order is the sort's output, so any stable sort (Timsort included) gives the same list |
| Harvest.Collapse | data/scripts/harvest_statements.py:19 | `re.sub(r'\s+', ' ', s)`: empty iff the input is; starts with a space exactly where the input starts with whitespace |
| Harvest.CollapseNormal | data/scripts/harvest_statements.py:19 | after collapsing, every whitespace character is a single space |
| Harvest.CollapseVisible | data/scripts/harvest_statements.py:19 | collapsing keeps every non-whitespace character in order |
| Harvest.CollapseOfNormal | data/scripts/harvest_statements.py:19 | a normal-form string collapses to itself |
| Harvest.CleanStmt | data/scripts/harvest_statements.py:17-19 | no whitespace at either end |
| Harvest.CleanStmtShape | data/scripts/harvest_statements.py:17-19 | whitespace inside is single spaces only, all non-whitespace text is kept in order, empty iff the input is all whitespace |
| Harvest.CleanStmtIdempotent | data/scripts/harvest_statements.py:17-19 | cleaning twice is cleaning once |
| Harvest.ModuleParts | data/scripts/harvest_statements.py:24 | same components, the last one without its suffix |
| Harvest.ModuleNameSplits | data/scripts/harvest_statements.py:22-25 | with dot-free components, the module name splits at dots into "Mathlib" and the components |
| Harvest.ModuleOfGroupFile | data/scripts/harvest_statements.py:23 | Algebra/Group.lean gives Mathlib.Algebra.Group |
| Harvest.HeadSpan | data/scripts/harvest_statements.py:43 | from the match start to the first blank line at or after it, else to the match end |
| Harvest.SorryAsWord | data/scripts/harvest_statements.py:44 | `\bsorry\b` matches "sorry" with no word character right before or after |
| Harvest.SorryAfterSpace | data/scripts/harvest_statements.py:44-45 | a head ending in ` sorry` is dropped |
| Harvest.SorryInsideWord | data/scripts/harvest_statements.py:44 | `sorry_a` does not trigger the guard |
| Harvest.FileItemsOfKept | data/scripts/harvest_statements.py:38-58 | a file's records are those of its kept matches, in order |
| Harvest.KeptIff | data/scripts/harvest_statements.py:42-45 | a match is kept (`Kept`: `\bsorry\b` does not occur in its head span) iff it is one of the file's matches and passes that test |
| Harvest.ItemShape | data/scripts/harvest_statements.py:40-57 | id is "lean:" + module + "." + name; sys "lean"; kind "thm" iff `theorem`, else "lem"; statement cleaned |
| Harvest.HarvestFile | data/scripts/harvest_statements.py:28-58 | the match loop builds the file's records (`FileItems`) |
| Harvest.HarvestAll | data/scripts/harvest_statements.py:61-76 | version 1 and the records of all unskipped files, stably sorted by id |
| Harvest.HarvestOrdered | data/scripts/harvest_statements.py:71-76 | output sorted by id, a permutation of all harvested records (no deduplication), equal ids in harvest order |
| Harvest.ItemsFromUnskipped | data/scripts/harvest_statements.py:64-72 | every record comes from a file that is not skipped |
| Harvest.SkippedFileAddsNothing | data/scripts/harvest_statements.py:66-70 | a file under `/.lake/` or an `_archive*` component adds no record |

## Left out

- `_run_lean` (src/qednet/io/lean_rpc.py:149-189) is not modelled. It writes a temp file, runs a subprocess with a timeout and maps exceptions. The model has a `run` parameter instead, so timeouts and spawn failures are just outcomes with `ok = false`.
- The `workdir` is kept as a string. `Path(workdir)` normalisation is not modelled.
- The LeanDojo calls are not modelled: `trace`, `TracedRepo.load_from_disk`, `get_latest_commit`, `get_traced_theorems`, `get_traced_tactics` and `get_annotated_tactic`. Their results are inputs. An exception from `get_theorem_statement` is not modelled.
- Command-line parsing, the `GITHUB_ACCESS_TOKEN` check, `--force`/`rmtree`, directory creation, writing the output JSON and the progress prints are not modelled.
- ExportTraces.DetectTracedRoot: when `dst` exists but is a file, `iterdir` raises. The model has no such failure and treats that `dst` like an empty directory.
- Directory walks (`rglob`) are input sequences in walk order. Reading a file as UTF-8 is an optional content.
- `json.load`/`json.loads` are the `parse` parameter. JSON integers and floats are both `real`. `NaN`, `Infinity` and `-Infinity`, which `json.loads` accepts, have no `real` value and are not modelled. The key order of JSON objects is not modelled; objects are maps.
- FileLines: it splits at each `\n` and each `\r`. It does not reproduce universal-newline reading, which treats `\r\n` as one break. The two give the same items after `load_jsonl` strips and skips blank lines; that equivalence is argued, not proved.
- The `decl_pat` regex engine is not modelled. Each file carries its matches. `import_pat` and the `imports` it collects are not modelled, since nothing uses them.
- Harvest.SorryAsWord: `\w` is a parameter `isWord`. Python's Unicode word-character table is not modelled.
- The harvester's `MATHLIB`/`OUT` locations and `relative_to` are not modelled. Files come with their path relative to the Mathlib directory.
- StableSort.SortByKey: it is an insertion sort, not Timsort. StableSort.StableSortUnique proves that every stable sort by the same key gives the same list, so the result is Python's; running time is not modelled.
- `list.sort` sorts in place; the model returns the sorted list and `HarvestAll` uses it in place of the old one, so aliasing of `all_items` is not modelled.
- Paths.AsciiLower: `str.lower()` lowers all of Unicode, the model only A-Z; both give the same answer when the result is compared with `.json` and `.jsonl`.
- Default arguments are not modelled: `timeout_sec` defaults to `DefaultTimeoutSec` (60) and `check_tactic`'s `theorem_name` to `DefaultTheoremName` (`"__tmp"`), and callers of the model pass both explicitly.
- The tests (`tests/conftest.py`, `tests/test_lean_rpc.py`) need a Lean toolchain and are not modelled.
