/** The `--out` argument check, `restricted_extension` in rmsd_plot.py: the
    output path is accepted unchanged when its extension is one of the image
    or document formats the plotting backend writes, and rejected with an
    argument-type error otherwise. */
module OutputExtension {
  import opened Wrappers
  import opened PosixPath

  /** The accepted extensions, in the order the error message lists them. */
  const ValidExtensions: seq<string> :=
    [".jpg", ".jpeg", ".pdf", ".pgf", ".png", ".ps", ".raw", ".rgba", ".svg", ".svgz", ".tif", ".tiff"]

  /** The `argparse.ArgumentTypeError` raised for a path with another
      extension; it names the path and lists the accepted extensions. */
  datatype ArgumentTypeError = InvalidExtension(outFile: string, validExtensions: seq<string>) {
    function Message(): string {
      outFile + " has not a valid extension. Valid extensions are: " + JoinWith(", ", validExtensions) + "."
    }
  }

  /** The message starts with the rejected path and ends with a full stop. */
  lemma MessageNamesPath(outFile: string, validExtensions: seq<string>)
    ensures var m := InvalidExtension(outFile, validExtensions).Message();
      |m| > |outFile| && m[..|outFile|] == outFile && m[|m| - 1] == '.'
  {
    var tail := " has not a valid extension. Valid extensions are: " + JoinWith(", ", validExtensions) + ".";
    assert InvalidExtension(outFile, validExtensions).Message() == outFile + tail;
  }

  /** `sep.join(items)` */
  function JoinWith(sep: string, items: seq<string>): string {
    if |items| == 0 then []
    else if |items| == 1 then items[0]
    else items[0] + sep + JoinWith(sep, items[1..])
  }

  predicate IsLowerLetter(ch: char) {
    'a' <= ch <= 'z'
  }

  /** Every accepted extension is a dot followed by at least one lower-case
      letter. */
  lemma ValidExtensionShape(e: string)
    requires e in ValidExtensions
    ensures ExtensionShaped(e)
  {
  }

  /** `restricted_extension(out_file)`: the argument itself, or the error that
      argparse reports for it. */
  function RestrictedExtension(outFile: string): (r: Result<string, ArgumentTypeError>)
    ensures r.Ok? ==> r.value == outFile
    ensures r.Err? ==> r.error.outFile == outFile
  {
    if Extension(outFile) in ValidExtensions then Ok(outFile)
    else Err(InvalidExtension(outFile, ValidExtensions))
  }

  /** A reference reading of the extension of a single file name: drop its
      leading dots, then take what starts at the last remaining dot. */
  function LeadingDots(name: string): (k: nat)
    ensures k <= |name| && OnlyDots(name, 0, k)
    ensures k < |name| ==> name[k] != '.'
  {
    if |name| > 0 && name[0] == '.' then
      var k := 1 + LeadingDots(name[1..]);
      assert forall i :: 1 <= i < k ==> name[i] == name[1..][i - 1];
      k
    else 0
  }

  function NameExtension(name: string): string {
    var stripped := name[LeadingDots(name)..];
    var d := LastIndexOf(stripped, '.');
    if d < 0 then [] else stripped[d..]
  }

  /** `splitext` read on the final component alone: the suffix from its last
      dot, unless only dots precede that dot. */
  function ComponentExtension(name: string): string {
    var dn := LastIndexOf(name, '.');
    if dn >= 0 && !OnlyDots(name, 0, dn) then name[dn..] else []
  }

  /** Where the last dot of a path lies relative to its last separator, read
      off its final component. */
  lemma LastDotInComponent(p: string)
    ensures var sep := LastIndexOf(p, '/');
      LastIndexOf(p[sep + 1..], '.') ==
        if LastIndexOf(p, '.') > sep then LastIndexOf(p, '.') - sep - 1 else -1
  {
    LastIndexOfSuffix(p, '.', LastIndexOf(p, '/') + 1);
  }

  lemma ExtensionViaComponent(p: string)
    ensures Extension(p) == ComponentExtension(BaseName(p))
  {
    LastDotInComponent(p);
    if LastIndexOf(p, '.') > LastIndexOf(p, '/') {
      ExtensionViaComponentDot(p);
    } else {
      ExtensionViaComponentNoDot(p);
    }
  }

  lemma ExtensionViaComponentNoDot(p: string)
    requires LastIndexOf(p, '.') <= LastIndexOf(p, '/')
    requires LastIndexOf(BaseName(p), '.') == -1
    ensures Extension(p) == [] == ComponentExtension(BaseName(p))
  {
  }

  lemma ExtensionViaComponentDot(p: string)
    requires LastIndexOf(p, '.') > LastIndexOf(p, '/')
    requires LastIndexOf(BaseName(p), '.') == LastIndexOf(p, '.') - LastIndexOf(p, '/') - 1
    ensures Extension(p) == ComponentExtension(BaseName(p))
  {
    var sep := LastIndexOf(p, '/');
    var dot := LastIndexOf(p, '.');
    var name := BaseName(p);
    assert name == p[sep + 1..];
    var dn := dot - sep - 1;
    OnlyDotsShift(p, sep + 1, dot);
    var s := SplitExt(p);
    if OnlyDots(p, sep + 1, dot) {
      assert s == Split(p, []);
      assert ComponentExtension(name) == [] by { assert OnlyDots(name, 0, dn); }
    } else {
      assert s == Split(p[..dot], p[dot..]);
      assert ComponentExtension(name) == name[dn..] by { assert !OnlyDots(name, 0, dn); }
      assert p[dot..] == name[dn..];
    }
  }

  lemma OnlyDotsShift(p: string, k: int, hi: int)
    requires 0 <= k <= hi <= |p|
    ensures OnlyDots(p, k, hi) <==> OnlyDots(p[k..], 0, hi - k)
  {
    assert forall i :: 0 <= i < hi - k ==> p[k..][i] == p[k + i];
  }

  lemma {:induction false} ComponentExtensionIsNameExtension(name: string)
    ensures ComponentExtension(name) == NameExtension(name)
  {
    var k := LeadingDots(name);
    var dn := LastIndexOf(name, '.');
    LastIndexOfSuffix(name, '.', k);
    if dn >= k {
      assert name[k] != '.';
      assert name[k..][dn - k..] == name[dn..];
    }
  }

  /** The extension of a path is the extension of its final component, read
      as above: `splitext` looks no further than the last separator and
      never starts an extension at a leading dot. */
  lemma {:induction false} ExtensionOfFinalComponent(p: string)
    ensures Extension(p) == NameExtension(BaseName(p))
  {
    ExtensionViaComponent(p);
    ComponentExtensionIsNameExtension(BaseName(p));
  }

  /** The path ends with the accepted extension `e`, and its final component
      has something other than dots before `e`. */
  predicate EndsWithExtension(p: string, e: string) {
    && e in ValidExtensions
    && |e| <= |p|
    && p[|p| - |e|..] == e
    && !AllDots(BaseName(p[..|p| - |e|]))
  }

  lemma AcceptedEndsWithExtension(p: string)
    requires RestrictedExtension(p).Ok?
    ensures EndsWithExtension(p, Extension(p))
  {
    var s := SplitExt(p);
    assert p[..|p| - |s.ext|] == s.root && p[|p| - |s.ext|..] == s.ext;
  }

  /** A dot followed by at least one lower-case letter. */
  predicate ExtensionShaped(e: string) {
    |e| >= 2 && e[0] == '.' && forall i :: 1 <= i < |e| ==> IsLowerLetter(e[i])
  }

  /** Behind an extension-shaped suffix `e` of `p`, the last dot of `p` is the
      one that starts `e`, and the last separator is the root's. */
  lemma LastIndicesBeforeExtension(p: string, e: string)
    requires ExtensionShaped(e) && |e| <= |p| && p[|p| - |e|..] == e
    ensures LastIndexOf(p, '.') == |p| - |e|
    ensures LastIndexOf(p, '/') == LastIndexOf(p[..|p| - |e|], '/')
  {
    var n := |p| - |e|;
    forall j | n <= j < |p| ensures p[j] != '/' && (j > n ==> p[j] != '.') {
      assert p[j] == e[j - n];
    }
    LastIndexOfIs(p, '.', n);
    LastIndexOfIs(p, '/', LastIndexOf(p[..n], '/'));
  }

  /** When the last dot is at `n` and lies in the final component, and that
      component has something other than dots before it, the extension starts
      at `n`. */
  lemma ExtensionAtLastDot(p: string, n: int)
    requires 0 <= n < |p|
    requires LastIndexOf(p, '.') == n && LastIndexOf(p, '/') == LastIndexOf(p[..n], '/')
    requires !AllDots(BaseName(p[..n]))
    ensures Extension(p) == p[n..]
  {
    var sep := LastIndexOf(p, '/');
    assert p[sep + 1..n] == BaseName(p[..n]);
    OnlyDotsSlice(p, sep + 1, n);
  }

  lemma {:induction false} ShapedSuffixIsExtension(p: string, e: string)
    requires ExtensionShaped(e) && |e| <= |p| && p[|p| - |e|..] == e
    requires !AllDots(BaseName(p[..|p| - |e|]))
    ensures Extension(p) == e
  {
    LastIndicesBeforeExtension(p, e);
    ExtensionAtLastDot(p, |p| - |e|);
  }

  lemma EndsWithExtensionAccepted(p: string, e: string)
    requires EndsWithExtension(p, e)
    ensures Extension(p) == e
  {
    ValidExtensionShape(e);
    ShapedSuffixIsExtension(p, e);
  }

  /** Acceptance, stated without `splitext`: the path is accepted exactly when
      it ends with an accepted extension that follows a final component not
      made of dots only. */
  lemma {:induction false} AcceptedIff(p: string)
    ensures RestrictedExtension(p).Ok? <==> exists e :: EndsWithExtension(p, e)
  {
    if RestrictedExtension(p).Ok? {
      AcceptedEndsWithExtension(p);
    }
    if e :| EndsWithExtension(p, e) {
      EndsWithExtensionAccepted(p, e);
    }
  }

  lemma LeadingDotsOnlyNoExtension(name: string, k: nat)
    requires k <= |name| && OnlyDots(name, 0, k)
    requires forall j :: k <= j < |name| ==> name[j] != '.'
    ensures ComponentExtension(name) == []
  {
  }

  lemma NoExtensionRejected(p: string)
    requires Extension(p) == []
    ensures RestrictedExtension(p).Err?
  {
  }

  /** A final component whose only dots are leading ones (`.png`,
      `dir/..svg`) has no extension and is rejected. */
  lemma RejectsLeadingDotsOnly(p: string, k: nat)
    requires k <= |BaseName(p)| && OnlyDots(BaseName(p), 0, k)
    requires forall j :: k <= j < |BaseName(p)| ==> BaseName(p)[j] != '.'
    ensures RestrictedExtension(p).Err?
  {
    ExtensionViaComponent(p);
    LeadingDotsOnlyNoExtension(BaseName(p), k);
    NoExtensionRejected(p);
  }

  /** A final component without a dot has no extension and is rejected
      (`plot`, `results.d/plot`). */
  lemma RejectsNameWithoutDot(p: string)
    requires NoChar(BaseName(p), '.')
    ensures RestrictedExtension(p).Err?
  {
    RejectsLeadingDotsOnly(p, 0);
  }

  /** No accepted extension holds an upper-case letter. */
  lemma UpperCaseNotValid(e: string, i: nat)
    requires i < |e| && 'A' <= e[i] <= 'Z'
    ensures e !in ValidExtensions
  {
    if e in ValidExtensions {
      ValidExtensionShape(e);
    }
  }

  /** Matching is case-sensitive: an extension with an upper-case letter is
      rejected (`plot.PNG`). */
  lemma RejectsUpperCase(p: string, i: nat)
    requires i < |Extension(p)| && 'A' <= Extension(p)[i] <= 'Z'
    ensures RestrictedExtension(p).Err?
  {
    UpperCaseNotValid(Extension(p), i);
  }

  lemma AcceptedExample()
    ensures RestrictedExtension("results/plot.png").Ok?
  {
    var p := "results/plot.png";
    assert p[|p| - 4..] == ".png";
    assert p[..|p| - 4] == "results/plot";
    LastIndexOfIs("results/plot", '/', 7);
    assert BaseName("results/plot") == "plot";
    assert "plot"[0] != '.';
    EndsWithExtensionAccepted(p, ".png");
  }

  /** A bare file name such as `plot.png` passes the check. */
  lemma BareNameAccepted()
    ensures RestrictedExtension("plot.png") == Ok("plot.png")
  {
    var p := "plot.png";
    assert p[|p| - 4..] == ".png";
    assert p[..|p| - 4] == "plot";
    LastIndexOfIs("plot", '/', -1);
    assert BaseName("plot") == "plot";
    assert "plot"[0] != '.';
    EndsWithExtensionAccepted(p, ".png");
  }

  /** Matching is case-sensitive: `plot.PNG` is rejected. */
  lemma RejectedUpperCaseExample()
    ensures RestrictedExtension("plot.PNG").Err?
  {
    var p := "plot.PNG";
    assert p[|p| - 1] == 'G';
    if RestrictedExtension(p).Ok? {
      AcceptedPathEnd(p);
    }
  }

  /** Every accepted extension ends with one of `g`, `f`, `s`, `w`, `a`, `z`. */
  predicate IsExtensionEnd(ch: char) {
    ch == 'g' || ch == 'f' || ch == 's' || ch == 'w' || ch == 'a' || ch == 'z'
  }

  lemma ValidExtensionEnd(e: string)
    requires e in ValidExtensions
    ensures |e| > 0 && IsExtensionEnd(e[|e| - 1])
  {
  }

  /** An accepted path ends with the last letter of an accepted extension. */
  lemma AcceptedPathEnd(p: string)
    requires RestrictedExtension(p).Ok?
    ensures |p| > 0 && IsExtensionEnd(p[|p| - 1])
  {
    AcceptedEndsWithExtension(p);
    var e := Extension(p);
    ValidExtensionEnd(e);
    assert p[|p| - |e|..][|e| - 1] == p[|p| - 1];
  }

  /** Only the last suffix counts: `plot.png.bak` is rejected. */
  lemma RejectedLastSuffixExample()
    ensures RestrictedExtension("plot.png.bak").Err?
  {
    var p := "plot.png.bak";
    assert p[|p| - 1] == 'k';
    if RestrictedExtension(p).Ok? {
      AcceptedPathEnd(p);
    }
  }

  /** A hidden file name is not an extension: `dir/.png` is rejected. */
  lemma RejectedHiddenNameExample()
    ensures RestrictedExtension("dir/.png").Err?
  {
    var p := "dir/.png";
    LastIndexOfIs(p, '/', 3);
    assert BaseName(p) == ".png";
    RejectsLeadingDotsOnly(p, 1);
  }
}
