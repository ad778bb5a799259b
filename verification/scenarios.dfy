/** Worked inputs for the extractor and the installer. */
module Scenarios {
  import opened Wrappers
  import opened Segments
  import opened Extractor
  import opened Installer

  /** `import a.b.c` and `import a` both yield only `a`. */
  lemma PlainImportsShareRoot()
    ensures Extract([Import(["a.b.c"]), Import(["a"])]) == Success({"a"})
  {
    FirstSegmentOfPath("a", "b.c");
    assert "a" + [Dot] + "b.c" == "a.b.c";
    var s0 := Import(["a.b.c"]);
    var s1 := Import(["a"]);
    var r0 := StatementRefs(s0).value;
    var r1 := StatementRefs(s1).value;
    assert ["a.b.c"][0] == "a.b.c" && ["a"][0] == "a";
    assert r0 == {"a"};
    assert r1 == {"a"};
    assert [s0, s1][1..] == [s1];
    assert Extract([s1]) == Success({"a"} + {});
    assert {"a"} + {} == {"a"} && {"a"} + {"a"} == {"a"};
  }

  /** A from-import of two dot-free names out of a dotted module contributes
      the module's root joined to each name. */
  lemma FromImportOfTwo(m: string, sub: string, n1: string, n2: string)
    requires Dot !in m && Dot !in n1 && Dot !in n2
    ensures Extract([ImportFrom(Some(m + [Dot] + sub), [n1, n2])]) == Success({m + [Dot] + n1, m + [Dot] + n2})
  {
    var path := m + [Dot] + sub;
    FirstSegmentOfPath(m, sub);
    FirstSegmentOfPath(n1, "");
    FirstSegmentOfPath(n2, "");
    var names := [n1, n2];
    var s := ImportFrom(Some(path), names);
    var refs := StatementRefs(s).value;
    assert Reference(path, names[0]) == m + [Dot] + n1;
    assert Reference(path, names[1]) == m + [Dot] + n2;
    forall x | x in refs
      ensures x == m + [Dot] + n1 || x == m + [Dot] + n2
    {
      var i :| 0 <= i < |names| && x == Reference(path, names[i]);
      assert i == 0 || i == 1;
    }
    assert refs == {m + [Dot] + n1, m + [Dot] + n2};
    assert [s][1..] == [];
    assert refs + {} == refs;
  }

  /** `from pkg.sub import n1, n2` yields `pkg.n1` and `pkg.n2`. */
  lemma FromImportJoinsRoots()
    ensures Extract([ImportFrom(Some("pkg.sub"), ["n1", "n2"])]) == Success({"pkg.n1", "pkg.n2"})
  {
    assert "pkg" + [Dot] + "sub" == "pkg.sub";
    assert "pkg" + [Dot] + "n1" == "pkg.n1";
    assert "pkg" + [Dot] + "n2" == "pkg.n2";
    FromImportOfTwo("pkg", "sub", "n1", "n2");
  }

  /** `from . import x` anywhere aborts the whole extraction. */
  lemma BareRelativeAborts()
    ensures Extract([Import(["os"]), ImportFrom(None, ["x"])]).Failure?
  {
  }

  /** A plain import of a dot-free name contributes that name. */
  lemma PlainImportOfRoot(a: string)
    requires Dot !in a
    ensures Extract([Import([a])]) == Success({a})
  {
    FirstSegmentOfPath(a, "");
    var r := StatementRefs(Import([a])).value;
    assert [a][0] == a;
    assert r == {a};
    assert [Import([a])][1..] == [];
    assert r + {} == r;
  }

  /** A from-import of one dot-free name out of a dot-free module
      contributes the two joined by a dot. */
  lemma FromImportOfRoots(m: string, n: string)
    requires Dot !in m && Dot !in n
    ensures Extract([ImportFrom(Some(m), [n])]) == Success({m + [Dot] + n})
  {
    FirstSegmentOfPath(m, "");
    FirstSegmentOfPath(n, "");
    var r := StatementRefs(ImportFrom(Some(m), [n])).value;
    assert [n][0] == n;
    assert r == {m + [Dot] + n};
    assert [ImportFrom(Some(m), [n])][1..] == [];
    assert r + {} == r;
  }

  /** Two plain imports and a from-import, all of dot-free names. */
  lemma TwoRootsAndReference(a: string, b: string, m: string, n: string)
    requires Dot !in a && Dot !in b && Dot !in m && Dot !in n
    ensures Extract([Import([a]), Import([b]), ImportFrom(Some(m), [n])]) == Success({a, b, m + [Dot] + n})
  {
    var s0, s1, s2 := Import([a]), Import([b]), ImportFrom(Some(m), [n]);
    PlainImportOfRoot(a);
    PlainImportOfRoot(b);
    FromImportOfRoots(m, n);
    ExtractAppend([s0], [s1]);
    ExtractAppend([s0] + [s1], [s2]);
    assert [s0] + [s1] + [s2] == [s0, s1, s2];
    assert {a} + {b} + {m + [Dot] + n} == {a, b, m + [Dot] + n};
  }

  /** `import os`, `import sys`, `from collections import OrderedDict`
      yields the two roots and the joined reference. */
  lemma CollectionsExtraction()
    ensures Extract([Import(["os"]), Import(["sys"]), ImportFrom(Some("collections"), ["OrderedDict"])])
      == Success({"os", "sys", "collections.OrderedDict"})
  {
    assert "collections" + [Dot] + "OrderedDict" == "collections.OrderedDict";
    TwoRootsAndReference("os", "sys", "collections", "OrderedDict");
  }

  /** With only `os` and `sys` installed, the from-import's reference is the
      one batch to install, and a failing install reports its detail. */
  lemma CollectionsInstall(detail: string)
    ensures Missing(["os", "sys", "collections.OrderedDict"], x => x in {"os", "sys"}) == ["collections.OrderedDict"]
    ensures InstallPackages(["collections.OrderedDict"], _ => InstallError(detail)).report
      == InstallFailed(["collections.OrderedDict"], detail)
  {
  }
}
