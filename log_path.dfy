/** The choice of the log file in the main block of rmsd_plot.py: the
    `--log` value when one is given, otherwise a file named after the script
    (`rmsd_plot.log`) in the directory of the `--out` path. */
module LogLocation {
  import opened Wrappers
  import opened PosixPath

  /** `os.path.join(os.path.dirname(out), f"{stem}.log")`, where the stem is
      the script's file name without its extension: a file that sits in the
      output file's directory and is named after the script's stem with the
      extension `.log`. */
  function DefaultLogPath(out: string, script: string): (r: string)
    ensures DirName(r) == DirName(out)
    ensures BaseName(r) == Stem(script) + ".log"
  {
    DefaultLogSplits(out, script);
    Join(DirName(out), Stem(script) + ".log")
  }

  lemma DefaultLogSplits(out: string, script: string)
    ensures DirName(Join(DirName(out), Stem(script) + ".log")) == DirName(out)
    ensures BaseName(Join(DirName(out), Stem(script) + ".log")) == Stem(script) + ".log"
  {
    var d, stem := DirName(out), Stem(script);
    assert d == [] || d[|d| - 1] != '/' || AllSlashes(d);
    assert NoChar(stem, '/');
    LogNameSplits(d, stem);
  }

  /** `args.log` if it is truthy (given and not empty), else the default:
      a file named after the script's stem, with the extension `.log`, in
      the directory of the output file (`rmsd_plot.log` for `rmsd_plot.py`,
      see ScriptStem). */
  function LogPath(logArg: Option<string>, out: string, script: string): (r: string)
    ensures logArg.Some? && logArg.value != [] ==> r == logArg.value
    ensures logArg == None || logArg == Some([]) ==> r == DefaultLogPath(out, script)
    ensures logArg == None || logArg == Some([]) ==>
      DirName(r) == DirName(out) && BaseName(r) == Stem(script) + ".log"
  {
    if logArg.Some? && logArg.value != [] then logArg.value
    else DefaultLogPath(out, script)
  }

  lemma NoSeparatorNoDirectory(n: string)
    requires NoChar(n, '/')
    ensures DirName(n) == [] && BaseName(n) == n
  {
  }

  /** Joining a plain file name onto a directory that `dirname` returned
      and splitting the result again gives back the directory and the name. */
  lemma {:induction false} JoinThenSplit(d: string, n: string)
    requires d == [] || d[|d| - 1] != '/' || AllSlashes(d)
    requires n != [] && NoChar(n, '/')
    ensures DirName(Join(d, n)) == d
    ensures BaseName(Join(d, n)) == n
  {
    var j := Join(d, n);
    if d == [] {
      NoSeparatorNoDirectory(n);
    } else if d[|d| - 1] == '/' {
      assert j == d + n;
      forall i | |d| <= i < |j| ensures j[i] != '/' {
        assert j[i] == n[i - |d|];
      }
      LastIndexOfIs(j, '/', |d| - 1);
      assert j[..|d|] == d;
    } else {
      assert j == d + "/" + n;
      forall i | |d| < i < |j| ensures j[i] != '/' {
        assert j[i] == n[i - |d| - 1];
      }
      LastIndexOfIs(j, '/', |d|);
      var head := j[..|d| + 1];
      assert head == d + "/";
      assert head[|d| - 1] != '/';
      assert head[..|head| - 1] == d;
      assert j[|d| + 1..] == n;
    }
  }

  lemma LogNameHasNoSeparator(stem: string)
    requires NoChar(stem, '/')
    ensures NoChar(stem + ".log", '/')
  {
    var n := stem + ".log";
    forall i | 0 <= i < |n| ensures n[i] != '/' {
      if i < |stem| { assert n[i] == stem[i]; }
    }
  }

  lemma LogNameSplits(d: string, stem: string)
    requires d == [] || d[|d| - 1] != '/' || AllSlashes(d)
    requires NoChar(stem, '/')
    ensures DirName(Join(d, stem + ".log")) == d
    ensures BaseName(Join(d, stem + ".log")) == stem + ".log"
  {
    LogNameHasNoSeparator(stem);
    JoinThenSplit(d, stem + ".log");
  }

  /** Run as `rmsd_plot.py`, the script's stem is `rmsd_plot`. */
  lemma ScriptStem(script: string)
    requires BaseName(script) == "rmsd_plot.py"
    ensures Stem(script) == "rmsd_plot"
  {
    var b := "rmsd_plot.py";
    LastIndexOfIs(b, '/', -1);
    LastIndexOfIs(b, '.', 9);
    assert b[0..9] == "rmsd_plot";
    assert !AllDots(b[0..9]) by { assert b[0..9][0] == 'r'; }
  }

  /** For an output file `file` in directory `d`, the default log file is
      the script's stem plus `.log` in that same directory `d`. (With `d`
      empty the expression still yields the bare log name, but the script
      never gets there: see Pipeline.Run.) */
  lemma LogBesideOutput(d: string, file: string, script: string)
    requires d == [] || d[|d| - 1] != '/' || AllSlashes(d)
    requires file != [] && NoChar(file, '/')
    ensures LogPath(None, Join(d, file), script) == Join(d, Stem(script) + ".log")
  {
    var o := Join(d, file);
    JoinThenSplit(d, file);
    assert DirName(o) == d;
    assert DefaultLogPath(o, script) == Join(d, Stem(script) + ".log");
    assert LogPath(None, o, script) == DefaultLogPath(o, script);
  }
}
