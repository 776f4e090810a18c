# rmsd_plot, modelled in Dafny

`rmsd_plot.py` reads a `.dat` file of molecular-dynamics RMSD values and plots
the RMSD against the frame number. This project models the three parts of the
script that decide what gets plotted and where output goes. Each part is pure
logic, so the model is made of datatypes, functions and lemmas.

- **The `--out` check** (`restricted_extension`) accepts the output path
  unchanged when `os.path.splitext` gives it one of twelve lower-case
  extensions. Any other path raises an `argparse.ArgumentTypeError` that names
  the path and lists the accepted extensions. Module `OutputExtension`.
- **The row filter of `extract_data`** starts from the table `numpy.genfromtxt`
  parses. It keeps the rows without a missing (NaN) field, in file order, and
  projects column 0 (`frames`) and column 1 (`RMSD`). Module `DataExtraction`.
- **The log path** is `--log` when that value is truthy. Otherwise it is
  `<dirname of --out>/<script stem>.log`. Module `LogLocation`.

These rest on the CPython `posixpath` functions the script calls:
`os.path.splitext`, `dirname`, `basename` and `join`. Module `PosixPath`
models them, with the same `rfind`-based definitions:

- `splitext` never starts an extension at the leading dots of the final
  component.
- `dirname` strips trailing separators from the head, unless the head is all
  separators.
- `join` restarts at an absolute second component.

Module `Pipeline` chains the three parts in the order of the main block:
1. The argument check runs while argparse parses the command line.
2. The output directory is created.
3. The log path is chosen.
4. The data are extracted.

The model has three exits:
- a rejected `--out`;
- an `--out` without a directory part, on which `os.makedirs('')` raises
  `FileNotFoundError` (see "## Findings");
- an input file that `genfromtxt` squeezes to fewer than two dimensions: an
  empty file, a single line, or a single column. `numpy.isnan(data).any(axis=1)`
  at line 89 then raises `AxisError`. This exit comes after the log file has
  been created (line 175). The error records that log path.

Missing values stay opaque. A table field is an `Option`, where `None` is
NaN. The model never looks at the numbers themselves, so they are a type
parameter.

## Model

| member | source | states |
|---|---|---|
| OutputExtension.RestrictedExtension | rmsd_plot.py:59-74 | an accepted path is returned unchanged; a rejected one yields the argument error naming that path |
| OutputExtension.AcceptedIff | rmsd_plot.py:68-74 | a path is accepted if and only if it ends with one of the twelve listed extensions and its final component has something other than dots before that extension |
| OutputExtension.ExtensionOfFinalComponent | rmsd_plot.py:70 | the extension tested is that of the final path component: leading dots dropped, then from the last remaining dot on (an independent reading of `splitext`) |
| OutputExtension.RejectsNameWithoutDot | rmsd_plot.py:70-73 | a final component without a dot has no extension and is rejected (`plot`, `results.d/plot`) |
| OutputExtension.RejectsLeadingDotsOnly | rmsd_plot.py:70-73 | a final component whose only dots are leading ones (`.png`, `dir/..svg`) has no extension and is rejected |
| OutputExtension.RejectsUpperCase | rmsd_plot.py:68-73 | the comparison is case-sensitive: an extension containing an upper-case letter is rejected |
| OutputExtension.UpperCaseNotValid | rmsd_plot.py:68-69 | no listed extension contains an upper-case letter |
| OutputExtension.ValidExtensionShape | rmsd_plot.py:68-69 | every listed extension is a dot followed by lower-case letters |
| OutputExtension.AcceptedPathEnd | rmsd_plot.py:68-74 | every accepted path ends with `g`, `f`, `s`, `w`, `a` or `z`, the last letters of the listed extensions |
| OutputExtension.MessageNamesPath | rmsd_plot.py:72-73 | the error message starts with the rejected path and ends with a full stop |
| OutputExtension.AcceptedExample | rmsd_plot.py:68-74 | `results/plot.png` is accepted |
| OutputExtension.RejectedUpperCaseExample | rmsd_plot.py:68-73 | `plot.PNG` is rejected |
| OutputExtension.RejectedLastSuffixExample | rmsd_plot.py:70-73 | `plot.png.bak` is rejected: only the last suffix counts |
| OutputExtension.RejectedHiddenNameExample | rmsd_plot.py:70-73 | `dir/.png` is rejected: a hidden file name has no extension |
| PosixPath.SplitExt | rmsd_plot.py:70 | root followed by extension is the path; a non-empty extension is a dot followed by neither dots nor separators, after a final component of the root not made of dots only |
| PosixPath.BaseName | rmsd_plot.py:174 | the final component: a suffix of the path, with no separator, preceded by a separator or the start of the path |
| PosixPath.DirName | rmsd_plot.py:167 | a prefix of the path, empty when the path has no separator, and without a trailing separator unless it is all separators. Only separators lie between it and the base name |
| PosixPath.Stem | rmsd_plot.py:174 | the stem followed by the extension of the base name is the base name, and it holds no separator |
| PosixPath.DirNameEmpty | rmsd_plot.py:167 | `dirname` is empty exactly when the path holds no separator |
| PosixPath.Join | rmsd_plot.py:174 | an absolute second part replaces the first; otherwise the result starts with the first part and ends with the second |
| DataExtraction.RowMask | rmsd_plot.py:89 | one flag per row, set exactly when the row has no missing field |
| DataExtraction.TruePositions | rmsd_plot.py:89 | the positions of the set flags, in range, strictly increasing, and covering every set flag |
| DataExtraction.Select | rmsd_plot.py:89 | boolean-mask selection `data[mask]` keeps exactly the entries at the set positions, in order, one per set position |
| DataExtraction.PositionsCountTrue | rmsd_plot.py:89 | there are as many set positions as set flags |
| DataExtraction.ExtractData | rmsd_plot.py:87-91 | the extraction fails exactly when the parsed table has fewer than two lines or fewer than two columns, so that the squeezed array is not 2-D; otherwise it yields at most one pair per row |
| DataExtraction.ExtractDataKeepsCompleteRows | rmsd_plot.py:87-91 | on a two-dimensional table, one (frame, RMSD) pair per complete row, taken from columns 0 and 1, in row order; a row is kept if and only if it is complete |
| DataExtraction.ExtractedCount | rmsd_plot.py:89-92 | the count logged equals the number of rows less the rows with a missing field |
| DataExtraction.MaskCountsCompleteRows | rmsd_plot.py:89 | every row is either flagged as complete or counted as incomplete |
| DataExtraction.AllRowsIncompleteGiveEmpty | rmsd_plot.py:89-91 | when every row has a missing field the data frame is empty |
| DataExtraction.AllRowsCompleteKeepAll | rmsd_plot.py:89-91 | when no row has a missing field every row is kept, at its own position |
| DataExtraction.MissingValueExample | rmsd_plot.py:87-91 | the lines `0 0.5`, `1 NA`, `2 1.2` give the pairs (0, 0.5) and (2, 1.2) |
| LogLocation.LogPath | rmsd_plot.py:171-174 | a truthy `--log` is used as given; otherwise (absent or empty) the log file lies in the directory of `--out` and is named after the script's stem with `.log` |
| LogLocation.DefaultLogPath | rmsd_plot.py:167-174 | splitting the default log path gives back the directory of `--out` and the name `<stem>.log` |
| LogLocation.JoinThenSplit | rmsd_plot.py:167-174 | joining a plain file name onto a directory returned by `dirname`, then splitting again, gives back both parts |
| LogLocation.LogBesideOutput | rmsd_plot.py:167-174 | for an output file `d/file`, the default log is `<stem>.log` in the same directory `d` |
| LogLocation.ScriptStem | rmsd_plot.py:174 | run as `rmsd_plot.py`, the script's stem is `rmsd_plot`, so the default log file is `rmsd_plot.log` |
| OutputExtension.BareNameAccepted | rmsd_plot.py:68-74 | `plot.png` passes the extension check |
| Pipeline.Proceed | rmsd_plot.py:171-180 | past the directory creation, the run succeeds exactly when the table is two-dimensional. Its plan keeps `--out`, hands the plot exactly the extracted pairs, uses the chosen log path, and puts the default log beside the output as `<stem>.log`. A failure is the row-filter error and carries the log path already created |
| Pipeline.SqueezedTableFailsAfterLog | rmsd_plot.py:167-180 | with an accepted `--out` that has a directory part, a table that is not two-dimensional ends the run at the row filter, with the log path that was created |
| Pipeline.Run | rmsd_plot.py:146-180 | a run that succeeds has an accepted `--out` with a directory part, keeps that path unchanged, and hands the plot exactly the extracted pairs |
| Pipeline.BadOutputStopsRun | rmsd_plot.py:146-165 | a rejected `--out` ends the run with the argument error, whatever the other inputs |
| Pipeline.BareOutputFails | rmsd_plot.py:167-168 | an accepted `--out` without a separator ends the run at `os.makedirs` with the empty directory, before the log or the data |
| Pipeline.BareOutputExample | rmsd_plot.py:167-168 | `-o plot.png` ends the run with an error |
| Pipeline.GoodRun | rmsd_plot.py:165-180 | an accepted `--out` with a directory part and a two-dimensional table give a successful run. It plots exactly the extracted pairs, one per complete row, and logs to a truthy `--log` or else to `<stem>.log` beside the output |
| Pipeline.RunIntended | rmsd_plot.py:157-180 | the run with the directory created only when there is one: it never fails at `os.makedirs`, and a success keeps an accepted `--out` and hands the plot exactly the extracted pairs |
| Pipeline.GoodRunIntended | rmsd_plot.py:157-180 | under the intended behaviour every accepted `--out`, bare names included, with a two-dimensional table, gives a successful run. It plots exactly the extracted pairs, one per complete row, and logs to a truthy `--log` or else to `<stem>.log` beside the output |
| Pipeline.RunMatchesIntendedWithDirectory | rmsd_plot.py:167-174 | the script as written and the intended run agree on every `--out` that has a directory part |

## Left out

- Reading the file (`numpy.genfromtxt`): tokenising, `NA` and other
  non-numeric tokens becoming NaN, and ragged files raising an error. The
  model starts from the parsed rectangular table.
- The squeezed array itself: the model keeps the parsed table and
  records only that it is not two-dimensional, which is when the row filter
  fails. The warning `genfromtxt` prints for an empty file is left out.
- `astype(int)` on the frame column and the floating-point values: the field
  type is a parameter and stays opaque.
- `plot_rmsd` (seaborn, matplotlib and the colour-listing error path),
  `create_log` (logger configuration and removing an old log), and
  `sys.argv` logging. These are side effects. A successful run records the
  paths and data they are handed. A run that fails at the row filter records
  the log path, where a fresh log now replaces any earlier file.
- A missing or unreadable input file: `genfromtxt` raises at line 87, after
  the log has been created. The model starts from a parsed table, so it has
  no such exit.
- Pipeline.Run: of the ways `os.makedirs` can fail, it models only the
  empty directory, which fails whatever the file system holds. Failures that
  depend on the file system are left out: missing permissions, or a file in
  the way.
- argparse itself: required options, `--log-level` choices, `--version`, and
  how it formats the `ArgumentTypeError`. The error is a structured value;
  `Message()` renders its text.
- Windows path semantics: only the POSIX `os.path` functions are modelled.
- `os.path.join` with more than two arguments, and `bytes` paths: the script
  never uses them.
- Order of the checks: the `--out` check runs inside `parser.parse_args`
  (line 146 registers it as the argument type; line 165 parses). A bad
  extension therefore ends the run before the log path is derived at lines
  167-174. `Pipeline` follows this order.

## Findings

| source | as written | input that shows it | evidently intended | confidence | as-written member | corrected member |
|---|---|---|---|---|---|---|
| rmsd_plot.py:167-168 | The output directory is created even when `--out` has no directory part. `os.makedirs` on the empty string raises `FileNotFoundError`, so the run stops before the log is set up or the data are read. | `-o plot.png` | A bare output name means the working directory. The `--log` help at lines 157-159 says the log goes to the output directory, so directory creation should be skipped and `rmsd_plot.log` written beside the plot. | not executed; high, since `os.makedirs('')` fails in CPython and `exist_ok` does not cover it | Pipeline.BareOutputFails | Pipeline.GoodRunIntended |
