/** Dotted-name handling: the `split('.')[0]` step the extractor applies to
    every imported name, and the `moduleRoot + "." + nameRoot` reference a
    from-import produces (packageChecker.py lines 20 and 23-26). */
module Segments {

  /** The separator of a dotted module path. */
  const Dot: char := '.'

  /** `p` is the first `.`-separated segment of `name`: a dot-free prefix of
      `name` that is either all of it or is followed by a dot. */
  ghost predicate IsRoot(p: string, name: string) {
    && |p| <= |name|
    && p == name[..|p|]
    && Dot !in p
    && (|p| == |name| || name[|p|] == Dot)
  }

  /** Python's `name.split('.')[0]`: everything before the first dot. */
  function FirstSegment(name: string): (r: string)
    ensures IsRoot(r, name)
    decreases |name|
  {
    if |name| == 0 || name[0] == Dot then ""
    else
      var rest := FirstSegment(name[1..]);
      assert name[..|rest| + 1] == [name[0]] + name[1..][..|rest|];
      [name[0]] + rest
  }

  /** The first segment is the ONLY string meeting `IsRoot`: the
      specification and `FirstSegment` agree in both directions. */
  lemma RootIsFirstSegment(p: string, name: string)
    ensures IsRoot(p, name) <==> p == FirstSegment(name)
  {
  }

  /** A dot-free name is its own first segment, and so is every dotted path
      that starts with it: `import a` and `import a.b.c` both yield `a`. */
  lemma FirstSegmentOfPath(root: string, rest: string)
    requires Dot !in root
    ensures FirstSegment(root) == root
    ensures FirstSegment(root + [Dot] + rest) == root
  {
    var path := root + [Dot] + rest;
    assert path[..|root|] == root;
    assert IsRoot(root, path);
    RootIsFirstSegment(root, path);
    assert root[..|root|] == root;
    assert IsRoot(root, root);
    RootIsFirstSegment(root, root);
  }

  /** Number of dots in `s`. */
  function DotCount(s: string): (n: nat)
    ensures n == 0 <==> Dot !in s
    decreases |s|
  {
    if |s| == 0 then 0
    else (if s[0] == Dot then 1 else 0) + DotCount(s[1..])
  }

  lemma {:induction false} DotCountAppend(a: string, b: string)
    ensures DotCount(a + b) == DotCount(a) + DotCount(b)
    decreases |a|
  {
    if |a| == 0 {
      assert a + b == b;
    } else {
      assert (a + b)[1..] == a[1..] + b;
      DotCountAppend(a[1..], b);
    }
  }

  /** `p` is the reference a from-import of `name` out of `modulePath` yields:
      some dot splits `p` into the module's root and the name's root. */
  ghost predicate IsReference(p: string, modulePath: string, name: string) {
    exists k :: 0 <= k < |p| && p[k] == Dot && IsRoot(p[..k], modulePath) && IsRoot(p[k + 1..], name)
  }

  /** `modulePath.split('.')[0] + '.' + name.split('.')[0]`. */
  function Reference(modulePath: string, name: string): (r: string)
    ensures IsReference(r, modulePath, name)
    ensures DotCount(r) == 1
  {
    var m := FirstSegment(modulePath);
    var n := FirstSegment(name);
    var r := m + [Dot] + n;
    assert r[..|m|] == m && r[|m|] == Dot && r[|m| + 1..] == n;
    DotCountAppend(m, [Dot]);
    DotCountAppend(m + [Dot], n);
    r
  }

  /** The reference of a from-import is uniquely determined: exactly the
      strings meeting `IsReference` equal `Reference`. */
  lemma ReferenceIsUnique(p: string, modulePath: string, name: string)
    ensures IsReference(p, modulePath, name) <==> p == Reference(modulePath, name)
  {
  }

  /** The reference splits back into its two roots at its one dot. */
  lemma ReferenceSplits(modulePath: string, name: string)
    ensures var r := Reference(modulePath, name);
      && FirstSegment(r) == FirstSegment(modulePath)
      && r[|FirstSegment(modulePath)| + 1..] == FirstSegment(name)
  {
  }
}
