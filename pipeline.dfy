/** The main block of rmsd_plot.py up to the plotting call: argparse checks
    the `--out` extension while it parses the command line, then the output
    directory is created, then the log path is chosen, then the data file is
    read and filtered. Configuring the logger and plotting are side effects
    outside this model; a `Plan` records what they are handed. */
module Pipeline {
  import opened Wrappers
  import opened PosixPath
  import opened OutputExtension
  import opened DataExtraction
  import opened LogLocation

  /** The output path, the log path and the data frame handed to the plot. */
  datatype Plan<T> = Plan(outPath: string, logPath: string, samples: seq<Sample<T>>)

  datatype RunError =
    | BadOutput(argError: ArgumentTypeError)
      /** `os.makedirs` raised `FileNotFoundError` for this directory. */
    | MakeDirsFailed(directory: string)
      /** The data extraction failed after the log file at `logPath` had
          been created (an earlier file there is removed first). */
    | ExtractFailed(logPath: string, extractError: ExtractError)

  /** `os.makedirs(dir, exist_ok=True)` fails whatever the file system holds
      when `dir` is empty: creating `''` fails, and `''` is not an existing
      directory, so `exist_ok` does not silence the error. */
  predicate MakeDirsAlwaysFails(dir: string) {
    dir == []
  }

  /** Everything after the directory is in place: the log path (the log is
      created there), then the data frame. */
  function Proceed<T>(out: string, logArg: Option<string>, script: string, table: Table<T>): (r: Result<Plan<T>, RunError>)
    requires Rectangular(table)
    ensures r.Ok? <==> TwoDimensional(table)
    ensures r.Ok? ==> r.value.outPath == out && |r.value.samples| <= |table.rows|
    ensures r.Ok? ==> ExtractData(table) == Ok(r.value.samples)
    ensures r.Ok? ==> r.value.logPath == LogPath(logArg, out, script)
    ensures r.Err? ==> r.error == ExtractFailed(LogPath(logArg, out, script), NotTwoDimensional)
    ensures r.Ok? && (logArg == None || logArg == Some([])) ==>
      DirName(r.value.logPath) == DirName(out) && BaseName(r.value.logPath) == Stem(script) + ".log"
  {
    var log := LogPath(logArg, out, script);
    match ExtractData(table)
    case Err(e) => Err(ExtractFailed(log, e))
    case Ok(samples) => Ok(Plan(out, log, samples))
  }

  /** One run as the script is written, for the parsed contents `table` of
      the input file: a bare output name such as `plot.png` has the empty
      directory, on which `os.makedirs` fails. */
  function Run<T>(outArg: string, logArg: Option<string>, script: string, table: Table<T>): (r: Result<Plan<T>, RunError>)
    requires Rectangular(table)
    ensures r.Ok? ==> Extension(outArg) in ValidExtensions && r.value.outPath == outArg
    ensures r.Ok? ==> DirName(outArg) != [] && |r.value.samples| <= |table.rows|
    ensures r.Ok? ==> ExtractData(table) == Ok(r.value.samples)
  {
    match RestrictedExtension(outArg)
    case Err(e) => Err(BadOutput(e))
    case Ok(out) =>
      var outDir := DirName(out);
      if MakeDirsAlwaysFails(outDir) then Err(MakeDirsFailed(outDir))
      else Proceed(out, logArg, script, table)
  }

  /** A rejected `--out` ends the run with the argument error, whatever the
      other arguments and the data file hold: nothing is read or derived. */
  lemma BadOutputStopsRun<T>(outArg: string, logArg: Option<string>, script: string, table: Table<T>)
    requires Rectangular(table)
    requires Extension(outArg) !in ValidExtensions
    ensures Run(outArg, logArg, script, table) == Err(BadOutput(InvalidExtension(outArg, ValidExtensions)))
  {
  }

  /** An accepted `--out` without a separator ends the run at `os.makedirs`,
      before the log is chosen or the data file is read. */
  lemma BareOutputFails<T>(outArg: string, logArg: Option<string>, script: string, table: Table<T>)
    requires Rectangular(table)
    requires RestrictedExtension(outArg).Ok? && NoChar(outArg, '/')
    ensures Run(outArg, logArg, script, table) == Err(MakeDirsFailed([]))
  {
  }

  /** `-o plot.png`, the simplest call, is one such run. */
  lemma BareOutputExample<T>(table: Table<T>)
    requires Rectangular(table)
    ensures Run("plot.png", None, "rmsd_plot.py", table).Err?
  {
    var p := "plot.png";
    assert NoChar(p, '/') by {
      assert p == ['p', 'l', 'o', 't', '.', 'p', 'n', 'g'];
    }
    BareNameAccepted();
    BareOutputFails(p, None, "rmsd_plot.py", table);
  }

  /** A table squeezed below two dimensions ends the run at the row filter,
      after the log file has been created at the chosen path. */
  lemma SqueezedTableFailsAfterLog<T>(outArg: string, logArg: Option<string>, script: string, table: Table<T>)
    requires Rectangular(table) && !TwoDimensional(table)
    requires RestrictedExtension(outArg).Ok? && !NoChar(outArg, '/')
    ensures Run(outArg, logArg, script, table) == Err(ExtractFailed(LogPath(logArg, outArg, script), NotTwoDimensional))
  {
    DirNameEmpty(outArg);
  }

  /** With an accepted `--out` that names a directory and a table of at
      least two lines of two columns, the run plots every complete row and logs next to
      the output unless `--log` names another file. */
  lemma GoodRun<T>(outArg: string, logArg: Option<string>, script: string, table: Table<T>)
    requires Rectangular(table) && TwoDimensional(table)
    requires Extension(outArg) in ValidExtensions && !NoChar(outArg, '/')
    ensures Run(outArg, logArg, script, table).Ok?
    ensures Run(outArg, logArg, script, table).value.samples == ExtractData(table).value
    ensures |Run(outArg, logArg, script, table).value.samples| + CountIncomplete(table.rows) == |table.rows|
    ensures logArg.Some? && logArg.value != [] ==> Run(outArg, logArg, script, table).value.logPath == logArg.value
    ensures logArg == None || logArg == Some([]) ==>
      && DirName(Run(outArg, logArg, script, table).value.logPath) == DirName(outArg)
      && BaseName(Run(outArg, logArg, script, table).value.logPath) == Stem(script) + ".log"
  {
    DirNameEmpty(outArg);
    ExtractedCount(table);
  }

  /** The run the `--log` help text describes ("created in the output
      directory"): the output directory is only created when there is one,
      so a bare output name writes the plot and the log in the working
      directory. */
  function RunIntended<T>(outArg: string, logArg: Option<string>, script: string, table: Table<T>): (r: Result<Plan<T>, RunError>)
    requires Rectangular(table)
    ensures r.Ok? ==> Extension(outArg) in ValidExtensions && r.value.outPath == outArg
    ensures r.Ok? ==> |r.value.samples| <= |table.rows|
    ensures r.Ok? ==> ExtractData(table) == Ok(r.value.samples)
    ensures r.Err? ==> !r.error.MakeDirsFailed?
  {
    match RestrictedExtension(outArg)
    case Err(e) => Err(BadOutput(e))
    case Ok(out) => Proceed(out, logArg, script, table)
  }

  /** Under the intended behaviour every accepted `--out`, bare names
      included, gives a run that plots every complete row and logs beside
      the output unless `--log` names another file. */
  lemma GoodRunIntended<T>(outArg: string, logArg: Option<string>, script: string, table: Table<T>)
    requires Rectangular(table) && TwoDimensional(table)
    requires Extension(outArg) in ValidExtensions
    ensures RunIntended(outArg, logArg, script, table).Ok?
    ensures RunIntended(outArg, logArg, script, table).value.samples == ExtractData(table).value
    ensures |RunIntended(outArg, logArg, script, table).value.samples| + CountIncomplete(table.rows) == |table.rows|
    ensures logArg.Some? && logArg.value != [] ==> RunIntended(outArg, logArg, script, table).value.logPath == logArg.value
    ensures logArg == None || logArg == Some([]) ==>
      && DirName(RunIntended(outArg, logArg, script, table).value.logPath) == DirName(outArg)
      && BaseName(RunIntended(outArg, logArg, script, table).value.logPath) == Stem(script) + ".log"
  {
    ExtractedCount(table);
  }

  /** The two agree on every run that names an output directory. */
  lemma RunMatchesIntendedWithDirectory<T>(outArg: string, logArg: Option<string>, script: string, table: Table<T>)
    requires Rectangular(table) && !NoChar(outArg, '/')
    ensures Run(outArg, logArg, script, table) == RunIntended(outArg, logArg, script, table)
  {
    DirNameEmpty(outArg);
  }
}
