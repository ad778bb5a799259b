# PackageChecker in Dafny

A model of the core of PackageChecker. This is a small tool that reads a Python
file, works out which packages its import statements name, asks pip which of
those are installed, and installs the missing ones in a single batch.

The model has two parts:

- **Import-name extraction** (`extract_required_packages`). The parsed file is
  given as the sequence of import statements that the syntax-tree walk visits.
  Each statement is either `Import(names)` or `ImportFrom(moduleName, names)`.
  - A plain import contributes the first `.`-separated segment of each name.
  - A from-import contributes `moduleRoot + "." + nameRoot` for each name.
  - The result is a set.
  - A from-import with no module name (`from . import x`) makes the source
    raise `AttributeError` while it evaluates `None.split`. The model returns
    `Failure(MissingModuleName)` for it, whatever its position in the file.
- **Missing-package selection and install** (`check_and_install_packages`,
  `install_packages`). Two oracles stand in for pip:
  - `installed: string -> bool` plays `pip show`;
  - `install: seq<string> -> InstallStatus` plays `pip install`.

  A run is recorded as a `Trace`: the packages it queried, the argument lists
  of its install calls, and its `Report`. The report is `AllPresent`,
  `Installed(missing)` or `InstallFailed(missing, detail)`. The lines the run
  prints are derived from the report.

Modules and files:

| file | module | contents |
|---|---|---|
| wrappers.dfy | `Wrappers` | `Option`, `Result` |
| segments.dfy | `Segments` | `split('.')[0]`, from-import references, dot counting |
| extractor.dfy | `Extractor` | import statements, the extraction as a function, and the source's loop as a method |
| installer.dfy | `Installer` | the missing-package filter, the batch install, the check-then-install run |
| messages.dfy | `Messages` | the printed lines and the `', '.join` of the missing list |
| pipeline.dfy | `Pipeline` | how `main` chains extraction into the installer |
| scenarios.dfy | `Scenarios` | worked inputs |

Behaviour worth noting:

- A bare relative from-import aborts the whole extraction. The code has no
  branch that skips it.
- The missing list keeps any duplicates its input has. The list the code
  passes in comes from a set, so it has none.
- A failed install does not change the exit status. It is only reported in
  the printed lines.

## Model

| member | source | states |
|---|---|---|
| Segments.FirstSegment | packageChecker.py:20 | `split('.')[0]` returns a dot-free prefix of the name that is either the whole name or is followed by a dot |
| Segments.RootIsFirstSegment | packageChecker.py:20 | that dot-free-prefix property has exactly one solution, `FirstSegment`, in both directions |
| Segments.FirstSegmentOfPath | packageChecker.py:20 | `import a` and `import a.b.c` both contribute exactly `a` (every dotted path yields its dot-free first segment) |
| Segments.Reference | packageChecker.py:23-26 | a from-import reference contains exactly one dot, which splits it into the module's root and the name's root |
| Segments.ReferenceIsUnique | packageChecker.py:23-26 | a string has that root-dot-root shape exactly when it equals the reference |
| Segments.ReferenceSplits | packageChecker.py:23-26 | the module root is the reference's first segment, and the name root is what follows the dot |
| Extractor.StatementRefs | packageChecker.py:17-26 | one statement fails exactly when it is a from-import without a module name; plain-import references have no dot, and from-import references have exactly one |
| Extractor.StatementRefsMembership | packageChecker.py:17-26 | a statement's references are exactly the contributions of its imported names |
| Extractor.Extract | packageChecker.py:16-23 | extraction fails exactly when some statement is a bare relative from-import |
| Extractor.ExtractMembership | packageChecker.py:13-26 | every extracted name comes from some imported name of some statement, and every imported name contributes its reference; nothing else is added |
| Extractor.ExtractAppend | packageChecker.py:13-26 | extracting from a concatenation of statement lists gives the union of the two extractions |
| Extractor.ExtractOrderIndependent | packageChecker.py:13-29 | two statement lists with the same statements give the same result, whatever the order and repetition |
| Extractor.ExtractIdempotent | packageChecker.py:13-29 | repeating the statements changes nothing |
| Extractor.AddRoots | packageChecker.py:19-20 | the loop over a plain import's names adds exactly that statement's references to the set |
| Extractor.AddReferences | packageChecker.py:23-26 | the loop over a from-import's names, which computes the module root once, adds exactly that statement's references to the set |
| Extractor.ExtractRequiredPackages | packageChecker.py:7-29 | the source's walk-and-add loop, which aborts on a bare relative from-import, computes exactly the extraction |
| Installer.Missing | packageChecker.py:34-44 | the selection loop: never longer than its input, and every selected name is not installed; `Installer.MissingCount` and `Installer.MissingIsSubsequence` determine it completely |
| Installer.MissingCount | packageChecker.py:34-44 | each name is selected as often as it is listed if it is not installed, and never if it is |
| Installer.MissingMembership | packageChecker.py:34-44 | a name is selected exactly when it is listed and reported as not installed |
| Installer.MissingIsSubsequence | packageChecker.py:34-44 | the selection keeps the input order |
| Installer.MissingAppend | packageChecker.py:37-44 | selecting from a concatenation gives the concatenation of the two selections |
| Installer.InstallPackages | packageChecker.py:54-61 | exactly one install call, over exactly the given list; the run succeeds exactly when that call succeeds; a failure carries the call's detail unchanged |
| Installer.CheckAndInstallPackages | packageChecker.py:32-51 | every package is queried once, in order; there is at most one install call; the run ends all-present with no install call exactly when every package is installed; otherwise the one call's argument list is the order-preserving not-installed selection, and the report follows that call's status |
| Messages.Join | packageChecker.py:48 | `', '.join`: the first name leads the joined text; `Messages.JoinRoundTrip` states that the text reads back to the list |
| Messages.JoinRoundTrip | packageChecker.py:48 | a `', '`-joined list of comma-free names reads back into the same names in the same order |
| Messages.Lines | packageChecker.py:47-61 | exactly the all-present line when nothing is missing, two lines otherwise; the last line is the success line exactly for an installed run; after a failed install, the last line ends with the failure detail unchanged |
| Messages.LinesRoundTrip | packageChecker.py:47-61 | the printed lines read back to the report itself: all-present, installed or failed, with the missing list and the failure detail unchanged |
| Messages.MissingLineRoundTrip | packageChecker.py:47-51 | the first printed line names exactly the missing packages, in order, and is not a missing-packages line when nothing is missing |
| Pipeline.CheckExtracted | packageChecker.py:72-76 | for any duplicate-free listing of the extracted set, the install batch holds each extracted name that is not installed, exactly once, and nothing else |
| Scenarios.PlainImportsShareRoot | packageChecker.py:19-20 | `import a.b.c` together with `import a` extracts `{"a"}` |
| Scenarios.FromImportOfTwo | packageChecker.py:21-26 | `from m.sub import n1, n2` extracts `{m.n1, m.n2}` for dot-free `m`, `n1` and `n2` |
| Scenarios.FromImportJoinsRoots | packageChecker.py:21-26 | `from pkg.sub import n1, n2` extracts `{"pkg.n1", "pkg.n2"}` |
| Scenarios.BareRelativeAborts | packageChecker.py:23 | one `from . import x` makes the whole extraction fail |
| Scenarios.CollectionsExtraction | packageChecker.py:16-26 | `import os`, `import sys`, `from collections import OrderedDict` extracts `{"os", "sys", "collections.OrderedDict"}` |
| Scenarios.CollectionsInstall | packageChecker.py:34-61 | with only `os` and `sys` installed, the batch is `["collections.OrderedDict"]`, and a failing install reports its detail |

## Left out

- Reading the file, `ast.parse` and `ast.walk` (packageChecker.py:9-10, 16) belong to Python's parser and I/O. The model takes their output as the sequence of import statements. Parse and I/O errors are not modelled.
- `ImportFrom.level`, the number of leading dots of a relative import, is not modelled. The source never reads it, so `from .utils import x` yields `utils.x` either way.
- The `pip show` and `pip install` subprocesses (packageChecker.py:40-41, 57-58) are external processes. They are the `installed` and `install` oracles. Any failure other than a non-zero exit, such as a missing interpreter, is not modelled; the source lets it propagate.
- The detail of a failed install is the text of the raised `CalledProcessError`. The model treats it as an opaque string supplied by the `install` oracle.
- The order of `list(required_packages)` (packageChecker.py:29) depends on Python's set iteration order. Extraction returns a set, and `Pipeline.CheckExtracted` holds for every listing of it.
- `argparse` and `main` (packageChecker.py:64-81) are command-line glue. Only the hand-off from extraction to the installer is stated, in `Pipeline.CheckExtracted`.
- Messages.JoinRoundTrip: stated only for names without a comma. Package names coming from import statements never contain one.
