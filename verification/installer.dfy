/** Missing-package selection and the single batch install,
    `check_and_install_packages` and `install_packages` in packageChecker.py
    lines 32-61. The `pip show` existence query and the `pip install` call
    are injected as oracles. */
module Installer {

  /** What the batch install call reports: success, or a non-zero exit with
      the text of the raised error. */
  datatype InstallStatus = InstallSucceeded | InstallError(detail: string)

  /** The three ends of a run. */
  datatype Report =
    | AllPresent
    | Installed(missing: seq<string>)
    | InstallFailed(missing: seq<string>, detail: string)

  /** What a run did: the packages it queried, in order, the argument lists
      of its install calls, and how it ended. */
  datatype Trace = Trace(queried: seq<string>, installCalls: seq<seq<string>>, report: Report)

  /** The not-installed entries of `packages`, in input order; a package
      listed twice and absent is kept twice. `MissingCount` and
      `MissingIsSubsequence` together pin it down. */
  function Missing(packages: seq<string>, installed: string -> bool): (r: seq<string>)
    ensures |r| <= |packages|
    ensures forall i :: 0 <= i < |r| ==> !installed(r[i])
    decreases |packages|
  {
    if |packages| == 0 then []
    else (if installed(packages[0]) then [] else [packages[0]]) + Missing(packages[1..], installed)
  }

  /** Each name is selected as often as it is listed when it is not
      installed, and never when it is. */
  lemma {:induction false} MissingCount(packages: seq<string>, installed: string -> bool)
    ensures forall x :: multiset(Missing(packages, installed))[x] == if installed(x) then 0 else multiset(packages)[x]
    decreases |packages|
  {
    if |packages| > 0 {
      MissingCount(packages[1..], installed);
      assert packages == [packages[0]] + packages[1..];
    }
  }

  /** `r` keeps some of the entries of `s`, in their order. */
  ghost predicate IsSubsequence(r: seq<string>, s: seq<string>)
    decreases |s|
  {
    if |r| == 0 then true
    else if |s| == 0 then false
    else if r[0] == s[0] then IsSubsequence(r[1..], s[1..])
    else IsSubsequence(r, s[1..])
  }

  /** Selection preserves the input order. */
  lemma {:induction false} MissingIsSubsequence(packages: seq<string>, installed: string -> bool)
    ensures IsSubsequence(Missing(packages, installed), packages)
    decreases |packages|
  {
    if |packages| > 0 {
      MissingIsSubsequence(packages[1..], installed);
      var rest := Missing(packages[1..], installed);
      if installed(packages[0]) {
        assert Missing(packages, installed) == rest;
        if |rest| > 0 {
          MissingCount(packages[1..], installed);
          assert rest[0] in multiset(rest);
          assert rest[0] != packages[0];
        }
      } else {
        assert ([packages[0]] + rest)[1..] == rest;
      }
    }
  }

  /** A name is selected exactly when it is listed and not installed. */
  lemma MissingMembership(packages: seq<string>, installed: string -> bool)
    ensures forall x :: x in Missing(packages, installed) <==> x in packages && !installed(x)
  {
  }

  /** Selection over a concatenation is the concatenation of selections. */
  lemma {:induction false} MissingAppend(a: seq<string>, b: seq<string>, installed: string -> bool)
    ensures Missing(a + b, installed) == Missing(a, installed) + Missing(b, installed)
    decreases |a|
  {
    if |a| == 0 {
      assert a + b == b;
    } else {
      assert (a + b)[1..] == a[1..] + b;
      MissingAppend(a[1..], b, installed);
    }
  }

  /** `install_packages`: one install call over exactly `packages`; the
      outcome is the call's status, with its error detail carried verbatim. */
  function InstallPackages(packages: seq<string>, install: seq<string> -> InstallStatus): (t: Trace)
    ensures t.queried == [] && t.installCalls == [packages]
    ensures !t.report.AllPresent? && t.report.missing == packages
    ensures t.report.Installed? <==> install(packages).InstallSucceeded?
    ensures t.report.InstallFailed? ==> t.report.detail == install(packages).detail
  {
    match install(packages)
    case InstallSucceeded => Trace([], [packages], Installed(packages))
    case InstallError(detail) => Trace([], [packages], InstallFailed(packages, detail))
  }

  /** `check_and_install_packages`: query every package in order, collect
      the missing ones, and install them in one batch when there are any. */
  method CheckAndInstallPackages(packages: seq<string>, installed: string -> bool, install: seq<string> -> InstallStatus)
    returns (t: Trace)
    ensures t.queried == packages
    ensures |t.installCalls| <= 1
    ensures t.report.AllPresent? <==> forall x :: x in packages ==> installed(x)
    ensures t.report.AllPresent? <==> t.installCalls == []
    ensures t.installCalls != [] ==> t.installCalls == [Missing(packages, installed)]
    ensures !t.report.AllPresent? ==> t.report.missing == Missing(packages, installed) != []
    ensures t.report.Installed? <==> t.installCalls != [] && install(t.installCalls[0]).InstallSucceeded?
    ensures t.report.InstallFailed? ==> t.report.detail == install(t.installCalls[0]).detail
  {
    var queried: seq<string> := [];
    var missing: seq<string> := [];
    var i := 0;
    while i < |packages|
      invariant 0 <= i <= |packages|
      invariant queried == packages[..i]
      invariant missing == Missing(packages[..i], installed)
    {
      var package := packages[i];
      queried := queried + [package];
      if !installed(package) {
        missing := missing + [package];
      }
      MissingAppend(packages[..i], [package], installed);
      assert packages[..i + 1] == packages[..i] + [package];
      i := i + 1;
    }
    assert packages[..|packages|] == packages;
    MissingMembership(packages, installed);
    if missing != [] {
      assert missing[0] in missing;
      var batch := InstallPackages(missing, install);
      t := Trace(queried, batch.installCalls, batch.report);
    } else {
      t := Trace(queried, [], AllPresent);
    }
  }
}
