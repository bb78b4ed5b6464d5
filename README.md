# FITS DTK result pipeline, modelled in Dafny

This project models the record-extraction core of FITS for DTK runs:

- reading the `case#result` lines of a results file and a baseline file;
- folding `.jpg` image artifacts onto their case;
- loading the case-to-module and module-to-owner CSV tables;
- resolving a case to its module by longest prefix;
- merging the latest results with the baseline into attributed rows.

It also models three pure pieces of the uploader: the task id of a build type, the layout of the 18-digit execution identifier, and the normalisation of a CSV row (empty cells become `NULL`) before insertion.

Modules:

- `Wrappers` (`wrappers.dfy`): `Option` and `Result`.
- `Text` (`text.dfy`): the Python `str` operations the pipeline relies on: `strip()` with Python's full whitespace set, `count` of one character, the first index of a character, `startswith`, and lower-casing for the suffix test.
- `OrderedDict` (`ordered_dict.dfy`): a Python `dict` as the sequence of its items in insertion order. Assigning to an existing key keeps its place, and iteration walks the sequence, as `_module_for_case` walks its table. Since the keys of a dict are distinct, two matching keys of the same length cannot both exist, so item order never decides which module is chosen (`LongestMatchUnique`).
- `Dtk` (`dtk.dfy`): `fits/analyzers/dtk.py`.
  - Line parsing and file reading are functions, with a `Result` for the `ValueError`s.
  - The loops of `_read_cases`, `_load_mapping`, `_module_for_case` and `_read_results` are methods. Each is proved equal to a specification function, and the properties are proved as lemmas about that function.
  - `_read_results` is a generator. `ReadResults` returns the whole sequence it yields.
- `Uploader` (`uploader.dfy`): `_mode_task_id`, `generate_exec_id` and the row map of `_read_rows` in `fits/uploader.py`.
  - The clock reading and the random draw are parameters.

Three behaviours of the code are easy to misread, and the model keeps them as written:

- Rows are not one per distinct case. A case repeated in the results gets one row per occurrence, and so does a repeated baseline-only case, because the second loop never adds to `seen`. The baseline lookup keeps the last value of a repeated case. `ReconcileKeepsRepeats` and `UnseenCounts` state this.
- A line `case#` gives an absent value. Its row therefore has no result (or no baseline) even though the case appears in that file. "Absent" does not mean "not in the file".
- The empty-case check runs before the `.jpg` suffix is removed. A line `.jpg#pass` is accepted, and its case then becomes the empty string (`BareImageLineParses`, `BareImageCaseBecomesEmpty`). Case names are therefore not always non-empty.

## Model

| member | source | states |
|---|---|---|
| Text.TrimStartSpec | fits/analyzers/dtk.py:42 | `lstrip()` keeps a suffix of the line, cuts only whitespace and leaves no leading whitespace |
| Text.TrimEndSpec | fits/analyzers/dtk.py:42 | `rstrip()` keeps a prefix of the line, cuts only whitespace and leaves no trailing whitespace |
| Text.StripIsTrimmedSlice | fits/analyzers/dtk.py:42 | `strip()` returns a slice of the line with only whitespace removed on either side |
| Text.StripEnds | fits/analyzers/dtk.py:42 | what `strip()` returns neither starts nor ends with whitespace |
| Text.StripUnchanged | fits/analyzers/dtk.py:42 | a line without surrounding whitespace is its own `strip()` |
| Text.Strip | fits/analyzers/dtk.py:42 | `strip()` is `rstrip()` after `lstrip()`; its properties are `StripIsTrimmedSlice`, `StripEnds` and `StripUnchanged` |
| Text.Count | fits/analyzers/dtk.py:46 | `count('#')` is at most the length, and zero exactly when there is no `#` |
| Text.CountAppend | fits/analyzers/dtk.py:46 | counting over a concatenation adds the counts of the parts |
| Text.IndexOf | fits/analyzers/dtk.py:49 | `split("#", 1)` splits at the first `#`: that position holds `#` and none comes before it |
| Text.LowerChar | fits/analyzers/dtk.py:119 | the result is a lower-case ASCII letter exactly when the character is an ASCII letter; it is never an ASCII capital; lower-case letters and characters that are not letters are unchanged; a capital becomes the lower-case letter at the same place in the alphabet |
| OrderedDict.Get | fits/analyzers/dtk.py:136 | `get` gives nothing exactly when the key is absent, and otherwise a value stored under the key |
| OrderedDict.GetAt | fits/analyzers/dtk.py:136 | in a dict, `get` returns the value stored beside the key |
| OrderedDict.Put | fits/analyzers/dtk.py:78 | `d[k] = v` replaces the value of an existing key in place and appends a new key; its properties are `PutKeys`, `PutOthers`, `PutItems`, `PutDistinct` and `PutGet` |
| OrderedDict.PutKeys | fits/analyzers/dtk.py:78 | `d[k] = v` keeps the keys and their order for an existing key, and appends a new key |
| OrderedDict.PutOthers | fits/analyzers/dtk.py:78 | after `d[k] = v` the item `(k, v)` is present and every item under another key is where it was |
| OrderedDict.PutItems | fits/analyzers/dtk.py:78 | `d[k] = v` adds no item other than `(k, v)` |
| OrderedDict.PutDistinct | fits/analyzers/dtk.py:78 | assignment keeps keys distinct |
| OrderedDict.PutGet | fits/analyzers/dtk.py:78 | after `d[k] = v`, `get(k)` gives `v` and every other key gives what it gave before |
| Dtk.ParseResultLine | fits/analyzers/dtk.py:35-56 | parses one `case#result` line into an entry or a `ValueError`; what it returns is stated in `ParseResultLineSpec` |
| Dtk.ParseResultLineSpec | fits/analyzers/dtk.py:35-56 | a blank line is `EmptyLine`; a line without exactly one `#`, or with nothing before it, is `InvalidFormat` quoting the trimmed line; otherwise case, `#` and result spell out the trimmed line, the case is non-empty and free of `#`, and an empty result is absent |
| Dtk.FormatLineShape | fits/analyzers/dtk.py:42-49 | the line of a writable entry is already trimmed, holds one `#`, and that `#` comes right after the case |
| Dtk.ParseFormat | fits/analyzers/dtk.py:35-56 | formatting then parsing a writable entry gives it back |
| Dtk.FormatParseOnlyWritable | fits/analyzers/dtk.py:35-56 | only writable entries survive formatting then parsing |
| Dtk.ParseFormatRoundTrip | fits/analyzers/dtk.py:35-56 | parsing undoes formatting exactly for the writable entries |
| Dtk.NormalizeCase | fits/analyzers/dtk.py:119-120 | drops a final `.jpg` in any capitalisation; stated in `NormalizeCaseDropsImageSuffix` and `NormalizeCaseIsPrefix` |
| Dtk.NormalizeCaseDropsImageSuffix | fits/analyzers/dtk.py:119-120 | a case followed by `.jpg` in any capitalisation normalises to that case |
| Dtk.LowerIsJpg | fits/analyzers/dtk.py:119 | four characters lower-case to `.jpg` exactly when they are `.`, then `j` or `J`, `p` or `P`, `g` or `G` |
| Dtk.NormalizeCaseExample | fits/analyzers/dtk.py:119-120 | `Foo.JPG` normalises to `Foo` |
| Dtk.NormalizeCaseIsPrefix | fits/analyzers/dtk.py:119-120 | normalising only removes a final four characters that are `.jpg` ignoring case |
| Dtk.BareImageLineParses | fits/analyzers/dtk.py:49-56 | `.jpg#pass` passes the empty-case check |
| Dtk.BareImageCaseBecomesEmpty | fits/analyzers/dtk.py:119-120 | the case `.jpg` then normalises to the empty case |
| Dtk.ReadCase | fits/analyzers/dtk.py:117-121 | one line parsed, then its case normalised; stated in `ParseResultLineSpec`, `NormalizeCaseDropsImageSuffix` and `NormalizeCaseIsPrefix` |
| Dtk.ParseCases | fits/analyzers/dtk.py:114-122 | every line of a file read with `ReadCase`, or the first error; stated in `ReadLinesSpec` and `ReadLinesStopsAtFailure`, and computed by `ReadCases` |
| Dtk.ReadLinesSpec | fits/analyzers/dtk.py:114-122 | reading a file succeeds exactly when every line parses, and then gives one entry per line in order; a failure is the error of the first bad line |
| Dtk.ReadLinesStopsAtFailure | fits/analyzers/dtk.py:117-118 | once a line raises, the lines after it change nothing |
| Dtk.ReadCases | fits/analyzers/dtk.py:114-122 | the reading loop computes exactly the parsed and normalised entries of the file, or its first error |
| Dtk.LoadMapping | fits/analyzers/dtk.py:59-82 | a missing file, an empty header or a header lacking either column gives an empty table; otherwise the table is the fold of the rows' contributions |
| Dtk.HasColumns | fits/analyzers/dtk.py:67-71 | the header test: a non-empty header naming both columns; `LoadMapping` states that an empty table follows when it fails |
| Dtk.MappingItemClean | fits/analyzers/dtk.py:74-77 | a row contributes only a non-empty, trimmed key and value |
| Dtk.MappingFrom | fits/analyzers/dtk.py:73-78 | the table that the loop of `_load_mapping` fills from the rows; stated in `MappingFromDistinct`, `MappingFromClean` and `MappingFromLastWins` |
| Dtk.AssignDistinct | fits/analyzers/dtk.py:73-78 | assigning item after item keeps keys distinct |
| Dtk.AssignFrom | fits/analyzers/dtk.py:73-78 | every item of the filled table is one of the items assigned |
| Dtk.AssignAbsent | fits/analyzers/dtk.py:73-78 | a key no item carries is not in the table |
| Dtk.AssignLastWins | fits/analyzers/dtk.py:73-78 | the table holds the value of the last item for each key |
| Dtk.MappingFromDistinct | fits/analyzers/dtk.py:73-78 | a loaded table has distinct keys |
| Dtk.MappingFromClean | fits/analyzers/dtk.py:74-78 | every key and value in a loaded table is non-empty and trimmed; rows with an empty key or value never reach it |
| Dtk.MappingFromLastWins | fits/analyzers/dtk.py:73-78 | a key no row contributes is absent; otherwise the value is that of the last row contributing the key |
| Dtk.BestMatch | fits/analyzers/dtk.py:85-97 | the scan for the longest non-empty key that prefixes the case; stated in `BestMatchSpec` |
| Dtk.ModuleFor | fits/analyzers/dtk.py:85-97 | the module of a case, or none; stated in `BestMatchSpec` and `LongestMatchUnique` |
| Dtk.BestMatchSpec | fits/analyzers/dtk.py:85-97 | no module exactly when no non-empty key is a prefix of the case; otherwise the module is that of the first longest matching key, with that key's length |
| Dtk.ModuleForCase | fits/analyzers/dtk.py:85-97 | the scan keeps the module of the first strictly longest matching key |
| Dtk.LongestMatchUnique | fits/analyzers/dtk.py:89-95 | in a dict two matching keys of equal length are the same item, so item order never decides the module |
| Dtk.OwnerFor | fits/analyzers/dtk.py:136 | there is no owner exactly when the module is missing, empty or not a key of the owner table; an owner that is found is stored beside that module |
| Dtk.OwnerForStored | fits/analyzers/dtk.py:136 | in a table with distinct keys, the owner of a stored non-empty module is the value stored beside it |
| Dtk.BaselineLookup | fits/analyzers/dtk.py:127 | the case-to-baseline dict built from the baseline entries; stated in `BaselineLookupLastWins` |
| Dtk.LookupBaseline | fits/analyzers/dtk.py:139 | `baseline_lookup.get(case)`; stated in `BaselineLookupLastWins` |
| Dtk.BaselineLookupLastWins | fits/analyzers/dtk.py:127 | the lookup holds exactly the baseline's cases, each with the value of its last entry |
| Dtk.Unseen | fits/analyzers/dtk.py:142-144 | the baseline entries the `if case in seen: continue` filter lets through; stated in `UnseenMembers`, `UnseenCounts` and `UnseenAppend` |
| Dtk.UnseenCounts | fits/analyzers/dtk.py:142-144 | the second loop keeps every entry of an unseen case as often as it occurs and drops every entry of a seen case |
| Dtk.UnseenMembers | fits/analyzers/dtk.py:142-144 | an entry is emitted by the second loop exactly when it is a baseline entry whose case was not seen |
| Dtk.UnseenAppend | fits/analyzers/dtk.py:142-144 | the filter keeps the baseline's order |
| Dtk.ResultRowsAt | fits/analyzers/dtk.py:130-140 | the first loop gives one row per result entry, with the entry's result and the looked-up baseline |
| Dtk.BaselineRowsAt | fits/analyzers/dtk.py:142-153 | the second loop gives one row per unseen entry, without a result and with the entry's value as baseline |
| Dtk.YieldResultRows | fits/analyzers/dtk.py:128-140 | the first loop emits the result rows and records exactly the result cases as seen |
| Dtk.YieldBaselineOnlyRows | fits/analyzers/dtk.py:142-153 | the second loop appends the rows of the unseen baseline entries, in order |
| Dtk.ReadResults | fits/analyzers/dtk.py:100-153 | a malformed results line, then a malformed baseline line, fails the whole read; otherwise the rows are the reconciliation of the two files |
| Dtk.Reconcile | fits/analyzers/dtk.py:124-153 | the rows `_read_results` yields: the result rows, then the baseline-only rows; stated in `ReconcileRows`, `ReconcileAttributed` and `ReconcileCases` |
| Dtk.ReconcileRows | fits/analyzers/dtk.py:130-153 | result rows come first, one per result entry in order with its result and baseline; then come rows without a result, for cases with no result, each carrying a baseline entry |
| Dtk.ReconcileAttributed | fits/analyzers/dtk.py:132-136 | every row carries the run's id, the module its case resolves to and that module's owner |
| Dtk.ReconcileCovers | fits/analyzers/dtk.py:130-153 | every case of either file gets a row |
| Dtk.ReconcileOnly | fits/analyzers/dtk.py:130-153 | no row has a case that neither file mentions |
| Dtk.ReconcileCases | fits/analyzers/dtk.py:130-153 | the cases of the rows are exactly the cases of the two files |
| Dtk.ReconcileExample | fits/analyzers/dtk.py:124-153 | results `a`, `b` and baseline `b`, `c` give rows `a`, `b` (with both values), `c` (baseline only), in that order |
| Dtk.ReconcileKeepsRepeats | fits/analyzers/dtk.py:130-153 | example: results `a`, `a` and baseline `b`, `b` give four rows, one per occurrence (the general facts are `ResultRowsAt` and `UnseenCounts`) |
| Uploader.ModeTaskId | fits/uploader.py:18-22 | only `dtk` and `coverage` have a task id, which is two digits; any other build type is refused with an error naming it |
| Uploader.ModeTaskIdInverse | fits/uploader.py:19 | a task id names exactly one build type |
| Uploader.GenerateExecId | fits/uploader.py:25-33 | builds the 18-digit identifier from the clock, the random draw and the task id; stated in `ExecIdLayout`, `ExecIdRoundTrip` and `ExecIdInjective` |
| Uploader.Pad | fits/uploader.py:29 | zero-padding to a field width; stated in `PadValue` |
| Uploader.Timestamp | fits/uploader.py:32 | `strftime("%m%d%H%M%S")`: five two-digit fields; stated in `ExecIdLayout` and `ExecIdRoundTrip` |
| Uploader.PadValue | fits/uploader.py:29-32 | zero-padding gives exactly the field width in digits, and reading the digits back gives the number |
| Uploader.ExecIdLayout | fits/uploader.py:25-33 | an identifier is 18 digits: prefix (`9999` in test mode, the year otherwise), month, day, hour, minute, second, random suffix and task id at fixed places; only an unknown build type fails |
| Uploader.ExecIdRoundTrip | fits/uploader.py:25-33 | decoding an identifier gives back the year (9999 in test mode), the clock fields, the random draw and the build type |
| Uploader.ExecIdInjective | fits/uploader.py:25-33 | two identifiers in the same mode are equal only for the same build type, clock second and random draw (and year, outside test mode) |
| Uploader.NormalizeRow | fits/uploader.py:40-43 | maps every empty cell to `None`; stated in `NormalizeRowItems`, `NormalizeRowGet`, `NormalizeRowRoundTrip` and `NormalizeRowImage` |
| Uploader.NormalizeRowItems | fits/uploader.py:40-43 | the keys and their order are kept, exactly the empty values become `None`, and every other value is unchanged |
| Uploader.NormalizeRowGet | fits/uploader.py:40-43 | looking a column up: a missing column stays missing, an empty cell gives `None`, any other cell is unchanged |
| Uploader.NormalizeRowRoundTrip | fits/uploader.py:40-43 | writing `None` back as the empty string restores the row |
| Uploader.NormalizeRowImage | fits/uploader.py:40-43 | a row is a normalised row exactly when no cell holds an explicit empty string |

## Left out

- File access is not modelled. That covers the existence checks of `_results_path` and `_baseline_path` and the `FileNotFoundError` they raise, `path.open`, and the CSV reader itself. Files are given as their lines, and a CSV file as its header and rows. The only file error modelled is a missing mapping file, which gives an empty table.
- The rows come from `csv.DictReader`, whose quoting rules are not modelled. Its handling of short and long rows (`restval` and `restkey`) is not modelled either: a column a row lacks reads as the empty string, which is what `row.get(...) or ""` makes of it.
- `datetime.now()` and `random.randint(0, 99)` are parameters of `GenerateExecId`.
- GenerateExecId: the year is always zero-padded to four digits. Some C libraries print years below 1000 under `%Y` with fewer digits, and the identifier would then be shorter than 18 digits.
- Lower: only ASCII capitals are lower-cased. The result is only compared with `.jpg`, and no other character lower-cases to `.`, `j`, `p` or `g`.
- `build_dtk_artifacts` is not part of this model. That includes the configuration paths, the CSV artifact, `DTK_RESULTS_TABLE` and the database write.
- These uploader parts are not part of this model: `_connect`, `upload_csv` and the MySQL calls.
- `fits/analyzers/coverage.py:10-24` only yields one fixed placeholder row, and it is not part of this model. The run driver (`fits/run.py`) and the configuration loader (`fits/config.py`) are not part of this model either. The source has no attribution resolver other than `_module_for_case`.
- ReadResults: the run directory and the run id are not read from a context. The code reads `context.exec_dir` (`fits/analyzers/dtk.py:18`, `:28`) and `context.exec_id` (`fits/analyzers/dtk.py:134`, `:147`), but `RunContext` (`fits/config.py:23-27`) only defines `exe_id`, `device` and `mode`. As written, the first `next()` on `_read_results` raises `AttributeError` inside `_results_path` (`fits/analyzers/dtk.py:110`, `:18`), before either file is opened, so no format error and no row is ever reached. The model does not represent this mismatch: it assumes a context that provides both, with the files given as their lines and the run id as a parameter.
- GenerateExecId: `fits/run.py:11` imports `generate_exe_id`, which `fits/uploader.py` does not define. Only `generate_exec_id` is modelled.
