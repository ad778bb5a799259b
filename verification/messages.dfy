/** The lines a run prints (packageChecker.py lines 48, 51, 59 and 61),
    and the `', '.join` that lists the missing packages. */
module Messages {
  import opened Wrappers
  import opened Installer

  const Comma: char := ','
  const Separator: string := ", "
  const MissingPrefix: string := "Missing packages: "
  const AllPresentLine: string := "All packages are installed!"
  const InstalledLine: string := "Packages installed successfully!"
  const FailurePrefix: string := "An error occurred while installing packages: "

  /** Python's `', '.join(xs)`; `JoinRoundTrip` states that nothing is lost. */
  function Join(xs: seq<string>): (r: string)
    ensures |xs| > 0 ==> xs[0] <= r
    decreases |xs|
  {
    if |xs| == 0 then ""
    else if |xs| == 1 then xs[0]
    else xs[0] + Separator + Join(xs[1..])
  }

  /** Position of the first comma of `s`, or `|s|` when there is none. */
  function CommaIndex(s: string): (k: nat)
    ensures k <= |s|
    decreases |s|
  {
    if |s| == 0 || s[0] == Comma then 0 else 1 + CommaIndex(s[1..])
  }

  /** Removes the one blank a separator leaves in front of the next entry. */
  function DropBlank(s: string): string {
    if |s| > 0 && s[0] == ' ' then s[1..] else s
  }

  /** Reads a `', '`-joined list back into its entries. */
  function Unjoin(s: string): (r: seq<string>)
    ensures |r| > 0
    decreases |s|
  {
    var k := CommaIndex(s);
    if k == |s| then [s] else [s[..k]] + Unjoin(DropBlank(s[k + 1..]))
  }

  lemma {:induction false} CommaIndexSkips(x: string, t: string)
    requires Comma !in x
    ensures CommaIndex(x + t) == |x| + CommaIndex(t)
    decreases |x|
  {
    if |x| > 0 {
      assert (x + t)[1..] == x[1..] + t;
      CommaIndexSkips(x[1..], t);
    } else {
      assert x + t == t;
    }
  }

  /** Reading back stops at the first separator after a comma-free entry. */
  lemma UnjoinStep(x: string, rest: string)
    requires Comma !in x
    ensures Unjoin(x + Separator + rest) == [x] + Unjoin(rest)
  {
    var s := x + Separator + rest;
    assert s == x + (Separator + rest);
    CommaIndexSkips(x, Separator + rest);
    assert s[..|x|] == x;
    assert s[|x| + 1..] == " " + rest;
    assert DropBlank(" " + rest) == rest;
  }

  /** Joining comma-free names loses nothing: reading the list back gives
      the same names in the same order. */
  lemma {:induction false} JoinRoundTrip(xs: seq<string>)
    requires |xs| > 0
    requires forall i :: 0 <= i < |xs| ==> Comma !in xs[i]
    ensures Unjoin(Join(xs)) == xs
    decreases |xs|
  {
    if |xs| == 1 {
      CommaIndexSkips(xs[0], "");
      assert xs[0] + "" == xs[0];
    } else {
      UnjoinStep(xs[0], Join(xs[1..]));
      JoinRoundTrip(xs[1..]);
      assert xs == [xs[0]] + xs[1..];
    }
  }

  /** The lines printed for a report, in order. */
  function Lines(report: Report): (lines: seq<string>)
    ensures report.AllPresent? <==> |lines| == 1
    ensures report.AllPresent? <==> lines == [AllPresentLine]
    ensures 1 <= |lines| <= 2
    ensures report.Installed? <==> lines[|lines| - 1] == InstalledLine
    ensures report.InstallFailed? ==> |report.detail| <= |lines[1]| && lines[1][|lines[1]| - |report.detail|..] == report.detail
  {
    match report
    case AllPresent => [AllPresentLine]
    case Installed(missing) => [MissingPrefix + Join(missing), InstalledLine]
    case InstallFailed(missing, detail) =>
      var last := FailurePrefix + detail;
      assert last[|FailurePrefix|..] == detail;
      [MissingPrefix + Join(missing), last]
  }

  /** The missing names listed by a `Missing packages:` line, if it is one. */
  function ParseMissingLine(line: string): Option<seq<string>> {
    if |MissingPrefix| <= |line| && line[..|MissingPrefix|] == MissingPrefix
    then Some(Unjoin(line[|MissingPrefix|..]))
    else None
  }

  /** The first printed line names exactly the missing packages, in order,
      when there are any; otherwise it lists none. */
  lemma MissingLineRoundTrip(report: Report)
    requires !report.AllPresent? ==> |report.missing| > 0
    requires !report.AllPresent? ==> forall i :: 0 <= i < |report.missing| ==> Comma !in report.missing[i]
    ensures report.AllPresent? ==> ParseMissingLine(Lines(report)[0]).None?
    ensures !report.AllPresent? ==> ParseMissingLine(Lines(report)[0]) == Some(report.missing)
  {
    var line := Lines(report)[0];
    if report.AllPresent? {
      assert line[..|MissingPrefix|] != MissingPrefix by {
        assert line[0] != MissingPrefix[0];
      }
    } else {
      assert line == MissingPrefix + Join(report.missing);
      assert line[..|MissingPrefix|] == MissingPrefix;
      assert line[|MissingPrefix|..] == Join(report.missing);
      JoinRoundTrip(report.missing);
    }
  }

  /** The outcome a printed run reports, read back from its lines: the
      all-present line alone, or the missing-packages line followed by the
      success line or by the failure line with its detail. */
  function ParseLines(lines: seq<string>): Option<Report> {
    if lines == [AllPresentLine] then Some(AllPresent)
    else if |lines| != 2 then None
    else match ParseMissingLine(lines[0])
      case None => None
      case Some(missing) =>
        if lines[1] == InstalledLine then Some(Installed(missing))
        else if |FailurePrefix| <= |lines[1]| && lines[1][..|FailurePrefix|] == FailurePrefix
        then Some(InstallFailed(missing, lines[1][|FailurePrefix|..]))
        else None
  }

  /** The printed lines determine the report: all-present, installed and
      failed runs print distinguishable texts, and a failure's detail and the
      missing list are recovered unchanged. */
  lemma LinesRoundTrip(report: Report)
    requires !report.AllPresent? ==> |report.missing| > 0
    requires !report.AllPresent? ==> forall i :: 0 <= i < |report.missing| ==> Comma !in report.missing[i]
    ensures ParseLines(Lines(report)) == Some(report)
  {
    var lines := Lines(report);
    if !report.AllPresent? {
      MissingLineRoundTrip(report);
      if report.InstallFailed? {
        var last := lines[1];
        assert last == FailurePrefix + report.detail;
        assert last[..|FailurePrefix|] == FailurePrefix;
        assert last[|FailurePrefix|..] == report.detail;
      }
    }
  }
}
