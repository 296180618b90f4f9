# axe: gRPC dependency analysis of a Go monorepo, modelled in Dafny

axe reads a Go monorepo. It takes the module name from `go.mod`. It finds the services
as the directories that hold a `Buildfile`. For every service it walks the `.go` files
and emits one `{from, to}` edge per other service whose generated gRPC package the
service imports. An import counts when it is internal to the module and its quoted
literal ends in `proto"`. The service it names is `group/name`, the third- and
second-to-last `/`-separated segments of the literal.

The model covers these stages, starting from the values the program reads:
the text `find` prints, the contents of `go.mod`, and the parsed import literals of each file.

- `wrappers.dfy`: the `Option` and `Result` wrappers.
- `types.dfy`: the parser's outcome for a file, the errors, and the `Dependency` edge.
- `go_strings.dfy`: the parts of Go's `strings` and `path` the core uses. It defines
  `Split`, `Join`, `HasPrefix`, `HasSuffix`, `TrimPrefix`, `Cut` and `Dir`, with the
  split/join round trip proved.
- `imports.dfy`: `checkGrpcImports` with `importHasPrefix`/`importHasSuffix`.
  The import loop is a method, proved against the fold `GrpcImports`.
- `analysis.dfy`: `contains` and `analyzeGrpc`. Each of its loops is a method: the service
  loop, the walk over a service's files, the accumulation of names, and the edge loop. The
  service loop is proved against the function `Analyze`. `Analyze` is related by lemmas to a reference
  definition: for each service, the distinct targets in order of first occurrence (`KeepFirst`).
- `discovery.dfy`: the string part of `findServices`, as a method with a loop, and
  `readModuleName`, as a function.

Where the intended convention and the code differ, the model follows the code:

- The intended rule is "the last path segment is `proto`". The code tests for the literal
  suffix `proto"`, so `.../myproto` is accepted too (`Imports.ClassifyServiceImport`, with
  `tail := "my"`).
- The intended internal-import test is "under the module root". The code tests for a
  literal prefix with no segment boundary, so `"<module>foo/..."` counts as internal
  (the same lemma, with `head := modName + "foo"`).
- A second convention, a `pkg/proto` segment pair with a versioned package below it, is
  not in the code. An import such as `"<module>/billing/payments/pkg/proto/v1"` fails the
  suffix test and yields no edge (`Imports.ClassifyVersionedProto`).
- The segment count of main.go:138 includes the module path's own segments. Under a module
  with a '/' in its path, such as `example.com/mono`, the literal `"example.com/mono/billing/proto"`
  has four segments and names `mono/billing` (`Imports.ClassifyNestedModuleImport`). The
  self-import test of main.go:98 compares whole strings, so it only excludes a service whose
  directory is exactly the `group/name` its own imports yield.

## Model

| member | source | states |
|---|---|---|
| GoStrings.Split | main.go:136 | `strings.Split` on one character: never an empty list of pieces |
| GoStrings.SplitSpec | main.go:136 | no piece of a split holds the separator, and joining the pieces gives the string back |
| GoStrings.SplitJoin | main.go:136 | splitting what was joined gives the same pieces, when no piece holds the separator |
| GoStrings.CutAt | main.go:165 | `strings.Cut`: found iff the separator occurs; then the input is before + sep + after, and before holds no separator; otherwise before is the whole input |
| GoStrings.TrimPrefix | main.go:76 | `strings.TrimPrefix`: with the prefix present, the input is prefix + result; without it, the result is the input |
| GoStrings.Dir | main.go:76 | `path.Dir` on a clean path: "." without '/'; "/" when the only '/' is the leading one; otherwise the non-empty part before a last segment free of '/' |
| GoStrings.DirOfChild | main.go:76 | the directory of `d/name` is `d` |
| Imports.ImportHasPrefix | main.go:149-153 | true iff the literal opens with `"` followed by the whole prefix, with no segment boundary required |
| Imports.ImportHasSuffix | main.go:155-157 | true iff the literal closes with the whole suffix followed by `"`; this is a literal suffix test, not a segment test |
| Imports.GrpcImports | main.go:132-146 | a file yields at most one service name per import literal |
| Imports.CheckGrpcImports | main.go:125-147 | an unparsable file is an error carrying its path; a parsed file never fails, and yields the classification of each of its literals in import order |
| Imports.ClassifySegments | main.go:134-145 | for a literal made of '/'-free segments: it names the third- and second-to-last segments exactly when it is internal, ends in `proto"` and has more than three segments; otherwise it names nothing |
| Imports.ClassifyServiceImport | main.go:134-145 | `"<head>/<group>/<name>/<tail>proto"` names `group/name` for any head starting with the module name and any '/'-free tail |
| Imports.ClassifyShortImport | main.go:138 | a three-segment internal literal `"<module>/<x>/proto"` names nothing and raises no error |
| Imports.ClassifyNestedModuleImport | main.go:134-141 | under a module `<host>/<last>`, the literal `"<host>/<last>/<x>/proto"` names `<last>/<x>`: the count of more than three segments includes the module's own |
| Imports.ClassifyVersionedProto | main.go:137 | a literal ending in `/proto/v1"` fails the suffix test and names nothing |
| Imports.ClassifyNeedsBothChecks | main.go:135-138 | a literal names a service only if it passed both the prefix and the suffix test and split into more than three segments |
| Imports.GrpcImportsAppend | main.go:134-145 | classifying two lists of imports one after the other concatenates their results, so order is kept |
| Imports.GrpcImportsMember | main.go:134-145 | a name is in a file's result iff some literal of the file classifies to it |
| Analysis.Contains | main.go:116-123 | true iff the string is an element of the list |
| Analysis.AccumulateInvariant | main.go:97-101 | the list only grows at its end; it holds exactly its old names plus the found names other than the service; it stays free of the service and of duplicates |
| Analysis.KeepFirstSpec | main.go:97-101 | the reference list has no duplicates and holds exactly the names not already seen |
| Analysis.AccumulateKeepsFirst | main.go:97-101 | the contains-based accumulation equals the old list followed by the first occurrences of the new names that were not yet seen |
| Analysis.AccumulateAppend | main.go:90-104 | accumulating file after file equals accumulating over the concatenation of their results |
| Analysis.FirstUnparsable | main.go:90-95 | the position of the first unparsable file: every file before it parses, and it lies within the files exactly when some file does not parse |
| Analysis.ResolveFrom | main.go:90-104 | the walk over a service's files succeeds iff every file parses |
| Analysis.ResolveFromAccumulates | main.go:90-104 | a successful walk accumulates every classified import of every file, in walk order |
| Analysis.ResolveFromFailure | main.go:92-95 | a walk whose files parse up to an unparsable one fails with that file's `ParseError`, whatever was accumulated |
| Analysis.ResolveSpec | main.go:87-107 | a service's target list exists iff every file parses; it then equals the reference list: the distinct classified imports other than the service, in order of first occurrence; otherwise the walk fails with the `ParseError` of the first unparsable file |
| Analysis.ResolverSpec | main.go:87-107 | for every service at once: its walk succeeds iff all its files parse, and then yields its reference target list |
| Analysis.AddImports | main.go:97-101 | the loop computes the accumulation; the list only grows at its end, gains exactly the found names other than the service, and stays free of the service and of duplicates |
| Analysis.WalkService | main.go:88-107 | the walk over a service's files fails iff some file does not parse, and then with the `ParseError` of the first unparsable file; otherwise it returns the distinct classified imports other than the service, in order of first occurrence |
| Analysis.Edges | main.go:109-111 | one edge per target |
| Analysis.EdgesSpec | main.go:109-111 | the k-th edge goes from the service to the k-th target |
| Analysis.AppendEdges | main.go:109-111 | the loop appends exactly the service's edges, in target order, after the edges already emitted |
| Analysis.AnalyzeFromSpec | main.go:87-112 | for any per-service walk results, the service loop fails iff some service's walk fails; otherwise it appends the edges of every service in service order |
| Analysis.FirstUnparsedService | main.go:85-107 | the position of the first service with an unparsable file: every service before it parses fully, and it lies within the services exactly when some service has an unparsable file |
| Analysis.AnalyzeFromFailure | main.go:105-107 | when every service before one resolves and that one fails, the service loop fails with that service's error |
| Analysis.AnalyzeOutcome | main.go:83-114 | the call succeeds iff every file of every service parses, and then returns the edges grouped by service in service order |
| Analysis.AnalyzeFailure | main.go:92-107 | a failed call returns the `ParseError` of the first unparsable file of the first service that has one |
| Analysis.AnalyzeSpec | main.go:83-114 | the call fails iff some file of some service is unparsable, and then with the `ParseError` of the first unparsable file of the first such service; otherwise it returns the edges grouped by service in service order |
| Analysis.AllEdgesSourced | main.go:109-111 | every edge leaves a listed service towards one of that service's targets |
| Analysis.AllEdgesDistinct | main.go:109-111 | with distinct services, each with distinct targets, no edge occurs twice |
| Analysis.AnalyzeEdges | main.go:83-114 | every returned edge leaves a listed service, is never a self edge, and points to a name one of that service's files imports; for distinct services no edge repeats |
| Analysis.AnalyzeGrpc | main.go:83-114 | the service loop returns exactly `Analyze`, whose properties are the lemmas above; the first parse error, in service order and then walk order, aborts the call with that `ParseError` |
| Discovery.NonEmptySpec | main.go:74-75 | the kept lines are exactly the non-empty lines, and there are no more of them than lines |
| Discovery.NonEmptyKeepsAll | main.go:74-75 | when no line is empty, every line is kept, in order |
| Discovery.ServiceDir | main.go:76 | the Buildfile's directory with one leading `repoPath/` removed, or the whole directory when it lies outside the repository |
| Discovery.ServicesOfSpec | main.go:74-79 | the services collected from the lines are the directories of the non-empty lines, one each, in order |
| Discovery.FindServices | main.go:72-79 | one service per non-empty output line, in output order, each that line's directory relative to the repository |
| Discovery.FindOutputJoin | main.go:65-72 | find's output is its paths joined by newlines, plus a final newline |
| Discovery.SplitFindOutput | main.go:72 | splitting find's output gives the paths and one empty last piece |
| Discovery.FindOutputLines | main.go:72-79 | the non-empty lines of find's output are exactly the paths found, in order |
| Discovery.ServiceDirOfBuildfile | main.go:76 | `repoPath/svc/<file>` names `svc`, even when `svc` itself contains '/', for a clean `svc`: non-empty, with no leading or trailing '/' |
| Discovery.ServiceDirOfRootBuildfile | main.go:76 | a Buildfile at the repository root yields the repository path itself, untrimmed |
| Discovery.ReadModuleName | main.go:165-170 | fails with "invalid go.mod" iff there is no newline; otherwise the name has no newline and is shorter than the contents |
| Discovery.ReadModuleNameFirstLine | main.go:165-170 | the result depends only on the first line: that line without one leading `module ` |
| Discovery.ReadModuleNameOfDirective | main.go:170 | a first line `module <name>` gives `<name>`, and a second `module ` is kept |
| Discovery.ReadModuleNameWithoutDirective | main.go:170 | a first line without `module ` is returned unchanged |

## Left out

- `main` (main.go:27-62) is not modelled: the working directory, the JSON encoding of `Arch` and writing `arch.json` are I/O.
- `findServices` running `find` (main.go:65-71) is not modelled. The command's output is the input string `out`, and the error for a failed command is not modelled.
- `filepath.WalkDir` and the `.go` filter (main.go:89-91) are not modelled. A parameter `walk` gives, for each service, the outcomes of its `.go` files in walk order. Errors WalkDir passes to its callback are not modelled.
- `parser.ParseFile` (main.go:126-130) is not modelled. Its result is given as `ParseOutcome`: the quoted import literals in order, or an error for that file.
- `os.ReadFile` of `go.mod` (main.go:160-163) is not modelled. The contents are the input of `ReadModuleName`, and a read error is not modelled.
- GoStrings.Dir: drops everything from the last '/'. It does not model the `Clean` step of `path.Dir`, so it differs from Go only on unclean paths such as `a//b` or `a/./b`.
- Go strings are byte strings; here they are sequences of characters. This makes no difference for the separators and quotes the core looks for.
- The `pkg/proto` convention (a flat service name taken from a versioned package path) has no code behind it, so it is not modelled.
