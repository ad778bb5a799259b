/** Import-name extraction, `extract_required_packages` in
    packageChecker.py lines 7-29. The parser's output is given as the list of
    import statements the syntax-tree walk visits. */
module Extractor {
  import opened Wrappers
  import opened Segments

  /** One import statement of the parsed file: `import a.b, c` or
      `from m import x, y` (`moduleName` is `None` for `from . import x`). */
  datatype ImportStmt =
    | Import(names: seq<string>)
    | ImportFrom(moduleName: Option<string>, names: seq<string>)
  {
    /** A relative from-import with no module name; the source calls
        `.split` on `None` for it and aborts. */
    predicate IsBareRelative() {
      ImportFrom? && moduleName.None?
    }
  }

  /** The `AttributeError` raised on a bare relative from-import. */
  datatype ExtractError = MissingModuleName

  /** Reference `p` is contributed by one imported name of statement `s`. */
  ghost predicate Contributes(s: ImportStmt, p: string) {
    match s
    case Import(names) => exists i :: 0 <= i < |names| && IsRoot(p, names[i])
    case ImportFrom(Some(m), names) => exists i :: 0 <= i < |names| && IsReference(p, m, names[i])
    case ImportFrom(None, _) => false
  }

  /** The references one statement adds to the required set. */
  function StatementRefs(s: ImportStmt): (r: Result<set<string>, ExtractError>)
    ensures r.Failure? <==> s.IsBareRelative()
    ensures r.Success? && s.Import? ==> forall p :: p in r.value ==> DotCount(p) == 0
    ensures r.Success? && s.ImportFrom? ==> forall p :: p in r.value ==> DotCount(p) == 1
  {
    match s
    case Import(names) => Success(set i | 0 <= i < |names| :: FirstSegment(names[i]))
    case ImportFrom(None, _) => Failure(MissingModuleName)
    case ImportFrom(Some(m), names) => Success(set i | 0 <= i < |names| :: Reference(m, names[i]))
  }

  /** A statement's references are exactly what its names contribute. */
  lemma StatementRefsMembership(s: ImportStmt)
    requires !s.IsBareRelative()
    ensures forall p :: p in StatementRefs(s).value <==> Contributes(s, p)
  {
    forall p
      ensures p in StatementRefs(s).value <==> Contributes(s, p)
    {
      match s
      case Import(names) =>
        forall i | 0 <= i < |names|
          ensures IsRoot(p, names[i]) <==> p == FirstSegment(names[i])
        {
          RootIsFirstSegment(p, names[i]);
        }
      case ImportFrom(Some(m), names) =>
        forall i | 0 <= i < |names|
          ensures IsReference(p, m, names[i]) <==> p == Reference(m, names[i])
        {
          ReferenceIsUnique(p, m, names[i]);
        }
    }
  }

  /** Accumulation of two partial results; a failure on either side aborts. */
  function Combine(a: Result<set<string>, ExtractError>, b: Result<set<string>, ExtractError>): Result<set<string>, ExtractError>
  {
    if a.Failure? then a
    else if b.Failure? then b
    else Success(a.value + b.value)
  }

  lemma CombineAssociative(a: Result<set<string>, ExtractError>, b: Result<set<string>, ExtractError>, c: Result<set<string>, ExtractError>)
    ensures Combine(a, Combine(b, c)) == Combine(Combine(a, b), c)
  {
    if a.Success? && b.Success? && c.Success? {
      assert a.value + (b.value + c.value) == (a.value + b.value) + c.value;
    }
  }

  /** The required-package set of a file whose walk visits `stmts`. */
  function Extract(stmts: seq<ImportStmt>): (r: Result<set<string>, ExtractError>)
    ensures r.Failure? <==> exists s :: s in stmts && s.IsBareRelative()
    decreases |stmts|
  {
    if |stmts| == 0 then Success({})
    else Combine(StatementRefs(stmts[0]), Extract(stmts[1..]))
  }

  /** Every extracted reference comes from some imported name of some
      statement, and every imported name contributes its reference. */
  lemma {:induction false} ExtractMembership(stmts: seq<ImportStmt>)
    requires Extract(stmts).Success?
    ensures forall p :: p in Extract(stmts).value <==> exists s :: s in stmts && Contributes(s, p)
    decreases |stmts|
  {
    if |stmts| > 0 {
      StatementRefsMembership(stmts[0]);
      ExtractMembership(stmts[1..]);
      forall p
        ensures p in Extract(stmts).value <==> exists s :: s in stmts && Contributes(s, p)
      {
        if p in Extract(stmts).value && p !in StatementRefs(stmts[0]).value {
          var s :| s in stmts[1..] && Contributes(s, p);
          assert s in stmts;
        }
      }
    }
  }

  /** Extracting from a concatenation gives the union of the extractions. */
  lemma {:induction false} ExtractAppend(a: seq<ImportStmt>, b: seq<ImportStmt>)
    ensures Extract(a + b) == Combine(Extract(a), Extract(b))
    decreases |a|
  {
    if |a| == 0 {
      assert a + b == b;
      if Extract(b).Success? {
        assert {} + Extract(b).value == Extract(b).value;
      }
    } else {
      assert (a + b)[1..] == a[1..] + b;
      ExtractAppend(a[1..], b);
      CombineAssociative(StatementRefs(a[0]), Extract(a[1..]), Extract(b));
    }
  }

  /** The result depends only on which statements occur: not on their order
      nor on how often each occurs. */
  lemma ExtractOrderIndependent(a: seq<ImportStmt>, b: seq<ImportStmt>)
    requires forall s :: s in a <==> s in b
    ensures Extract(a) == Extract(b)
  {
    if Extract(a).Failure? {
      var s :| s in a && s.IsBareRelative();
      assert s in b;
      assert Extract(a).error == MissingModuleName == Extract(b).error;
    } else {
      ExtractMembership(a);
      ExtractMembership(b);
      assert Extract(a).value == Extract(b).value;
    }
  }

  /** Extracting twice over the same statements adds nothing. */
  lemma ExtractIdempotent(stmts: seq<ImportStmt>)
    ensures Extract(stmts + stmts) == Extract(stmts)
  {
    ExtractOrderIndependent(stmts + stmts, stmts);
  }

  /** The inner loop of a plain import: add each name's first segment. */
  method AddRoots(required: set<string>, names: seq<string>) returns (r: set<string>)
    ensures r == required + StatementRefs(Import(names)).value
  {
    r := required;
    var j := 0;
    while j < |names|
      invariant 0 <= j <= |names|
      invariant r == required + set k | 0 <= k < j :: FirstSegment(names[k])
    {
      r := r + {FirstSegment(names[j])};
      j := j + 1;
    }
  }

  /** The inner loop of a from-import: add the module's root joined to each
      name's first segment. */
  method AddReferences(required: set<string>, m: string, names: seq<string>) returns (r: set<string>)
    ensures r == required + StatementRefs(ImportFrom(Some(m), names)).value
  {
    var moduleRoot := FirstSegment(m);
    r := required;
    var j := 0;
    while j < |names|
      invariant 0 <= j <= |names|
      invariant r == required + set k | 0 <= k < j :: Reference(m, names[k])
    {
      r := r + {moduleRoot + [Dot] + FirstSegment(names[j])};
      j := j + 1;
    }
  }

  /** Adding one statement's references extends the extraction by it. */
  lemma ExtractSnoc(stmts: seq<ImportStmt>, s: ImportStmt, required: set<string>)
    requires Extract(stmts) == Success(required)
    requires !s.IsBareRelative()
    ensures Extract(stmts + [s]) == Success(required + StatementRefs(s).value)
  {
    var refs := StatementRefs(s).value;
    assert [s][1..] == [];
    assert refs + {} == refs;
    assert Extract([s]) == Success(refs);
    ExtractAppend(stmts, [s]);
  }

  /** The loop of the source: walk the statements, adding each name's
      reference to the set, aborting on a bare relative from-import. */
  method ExtractRequiredPackages(stmts: seq<ImportStmt>) returns (r: Result<set<string>, ExtractError>)
    ensures r == Extract(stmts)
  {
    var required: set<string> := {};
    var i := 0;
    while i < |stmts|
      invariant 0 <= i <= |stmts|
      invariant Extract(stmts[..i]) == Success(required)
    {
      var before := required;
      match stmts[i] {
        case Import(names) =>
          required := AddRoots(required, names);
        case ImportFrom(None, _) =>
          assert stmts[i] in stmts;
          assert Extract(stmts).error == MissingModuleName;
          return Failure(MissingModuleName);
        case ImportFrom(Some(m), names) =>
          required := AddReferences(required, m, names);
      }
      ExtractSnoc(stmts[..i], stmts[i], before);
      assert stmts[..i + 1] == stmts[..i] + [stmts[i]];
      i := i + 1;
    }
    assert stmts[..|stmts|] == stmts;
    r := Success(required);
  }
}
