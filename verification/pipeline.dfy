/** How `main` (packageChecker.py lines 72-76) feeds the extracted set to
    the installer: `list(required_packages)` lists the set in an order the
    model leaves open, so the property is stated for every listing. */
module Pipeline {
  import opened Extractor
  import opened Installer

  /** `listing` names every element of `s` exactly once. */
  ghost predicate Enumerates(listing: seq<string>, s: set<string>) {
    && (forall i, j :: 0 <= i < j < |listing| ==> listing[i] != listing[j])
    && (forall x :: x in listing <==> x in s)
  }

  lemma {:induction false} DistinctCountsAtMostOne(listing: seq<string>)
    requires forall i, j :: 0 <= i < j < |listing| ==> listing[i] != listing[j]
    ensures forall x :: multiset(listing)[x] <= 1
    decreases |listing|
  {
    if |listing| > 0 {
      DistinctCountsAtMostOne(listing[1..]);
      assert listing == [listing[0]] + listing[1..];
      assert listing[0] !in listing[1..];
    }
  }

  /** Whatever order the set is listed in, the install batch holds each
      extracted, not-installed name exactly once, and nothing else. */
  lemma CheckExtracted(stmts: seq<ImportStmt>, listing: seq<string>, installed: string -> bool)
    requires Extract(stmts).Success?
    requires Enumerates(listing, Extract(stmts).value)
    ensures forall x :: x in Missing(listing, installed) <==> x in Extract(stmts).value && !installed(x)
    ensures forall x :: multiset(Missing(listing, installed))[x] <= 1
  {
    MissingMembership(listing, installed);
    MissingCount(listing, installed);
    DistinctCountsAtMostOne(listing);
  }
}
