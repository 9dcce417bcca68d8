# A Dafny model of the `api` registry generator

`api` is a small Go code generator. It walks the source tree of a Go module,
parses each `.go` file that is not a test, finds the exported struct types,
records for each one the import path of its package and the package-qualified
types its fields name, and writes a Go file that imports every struct's
package and lists a `new(alias.Name)` for every struct.

This project models the decision logic of that pipeline as pure Dafny
functions, with the I/O, the parser and the path library turned into
parameters:

- `optional.dfy` (`Optional`): `Option` and `Result`.
- `gostrings.dfy` (`GoStrings`): the Go `strings` functions the generator
  calls, restricted to the one-character separators and cut sets it passes.
  Examples are `HasSuffix`, `Contains`, `TrimPrefix`, `Trim`, `LastIndex`,
  `Split` and `Join`. Their algebra is proved here: split/join round trips,
  splitting around a separator, and piece counts.
- `typeexpr.dfy` (`TypeExpr`): field type expressions and `getExprType`'s
  rendering of them to text.
- `symbols.dfy` (`Symbols`): the `_struct` record behind the `Struct`
  interface, and Go's zero-value map lookup.
- `gomod.dfy` (`GoMod`): the module descriptor and `getImports`, which
  resolves one import declaration to an alias, a directory and an import
  path.
- `scanner.dfy` (`Scanner`): the rest of `api.go`:
  - the file filter of `getFiles`;
  - `joinImport` (a file's package import path);
  - the visitor's treatment of type declarations and struct fields;
  - `getStructsFromFile`.
- `registry.dfy` (`Registry`): `global.go`'s package clause, import lines and
  registry entries.

Parameters stand in for the parts the model cannot see:

- `join` stands for `filepath.Join`.
- `basePath` is the result of `filepath.Base`.
- `sep` is `os.PathSeparator`.
- A `WalkEntry` sequence is what `filepath.Walk` reports.
- A `ParseOutcome` is what `parser.ParseFile` returns. Its nodes are the
  import and type declarations `ast.Walk` visits, in walk order.

Where the Go code would panic, the model has a precondition instead:

- a selector whose base is not an identifier in a field of an exported
  struct (the type assertion in `getExprType`, which renders only those
  fields);
- an empty name on a struct declaration (`Name[0]`, read only for struct
  types; the parser never produces an empty identifier);
- an import path without a `/` in `ImportsAndVars` (the slice starts at a
  negative index).

The internal test is `strings.Contains` (gomod.go:30), not a prefix test.
`GoMod.InternalTestIsContainment` states what that means for a path that
contains the module path other than at its start.

An unnamed internal import gets an alias only when the last slash of its
remainder is not the first character (`index > 0`, gomod.go:33). A package
one level below the module (`module/models`, remainder `/models`) therefore
gets the alias `""`, and no field can reach it through `models.T`. The
corrected resolution `GoMod.GetImportsQualified`, which the corrected
extraction uses, takes the last segment whenever the remainder has a slash
(see Findings).

## Model

| member | source | states |
|---|---|---|
| GoStrings.Contains | gomod.go:30 | the result is true exactly when `sub` occurs at some position of `s` |
| GoStrings.Trim | gomod.go:29 | the result is a slice of `s` with only `c` around it, and neither end of it is `c` |
| GoStrings.LastIndex | gomod.go:33 | -1 exactly when `c` does not occur; otherwise a position holding `c` with no `c` after it |
| GoStrings.JoinSplit | api.go:86-91 | joining the pieces of a split with the separator gives back the original string |
| GoStrings.SplitJoin | api.go:89-91 | splitting separator-free parts joined by the separator gives back the parts |
| GoStrings.SplitAround | api.go:86-89 | splitting `x + c + y` at `c` gives the pieces of `x` followed by the pieces of `y` |
| GoStrings.SplitCount | global.go:43-44 | a split has one more piece than the string has separators |
| GoStrings.SplitPieces | api.go:123-128 | the first two pieces of a split are the text before the first separator and the text between the first and second |
| GoStrings.SplitPiecesFree | api.go:89 | no piece of a split contains the separator |
| GoStrings.TrimQuoted | gomod.go:29 | trimming `c` from `c + p + c` gives `p` back when `p` neither starts nor ends with `c` |
| GoStrings.TrimPrefix | api.go:87-88 | with the prefix present, the prefix followed by the result is the input; otherwise the input comes back unchanged |
| GoStrings.Split | api.go:86 | a split has at least one piece, even for the empty string |
| GoStrings.JoinEnds | api.go:91 | a join starts with its first part and ends with its last, and no parts join to the empty string |
| GoStrings.FirstSeparator | api.go:123-128 | in `head + c + tail` with no `c` in `head`, the text before the first `c` is `head` and the text after it is `tail` |
| GoStrings.UpTo | api.go:124-127 | the result is a prefix of `s` free of `c`, followed in `s` by `c` unless it is all of `s` |
| TypeExpr.Render | api.go:154-174 | the rendered type contains a dot exactly when the expression has a selector (under pointers, arrays or maps) or a dotted name or printed node |
| TypeExpr.StarsTransparent | api.go:168-169 | any number of pointer stars renders as the pointed-to type alone |
| TypeExpr.ContainerRendering | api.go:160-163 | an array renders as `[]` and its element whether or not it has a length; a map renders as `map[K]V` |
| TypeExpr.NameRendering | api.go:164-167 | a selector on an identifier renders as `X.Sel`; an identifier renders as its name |
| TypeExpr.OpaqueKindsHaveNoDot | api.go:157-159 | interface, function and channel types render without a dot, so they never yield a reference |
| Symbols.Lookup | api.go:127-129 | a present key reads its value; a missing key reads empty paths |
| GoMod.DerivedAlias | gomod.go:33-35 | the derived alias has no slash, and when nonempty it is the text after a slash that is not the first character |
| GoMod.GetImports | gomod.go:24-38 | a declared alias is kept; an external path is kept whole with no directory; an internal path loses a leading module path and is joined onto the root; only a missing alias is derived, from the remainder |
| GoMod.UnquoteQuote | gomod.go:29 | a quote-free path survives being quoted and unquoted |
| GoMod.ExplicitImport | gomod.go:26-29 | an import with its own nonempty name binds that name, and its path kept whole is the literal's contents |
| GoMod.ModulePathHasNoAlias | gomod.go:30-35 | importing the module path itself gives an empty remainder and no alias, and the slice stays in bounds |
| GoMod.SingleSegmentHasNoAlias | gomod.go:33-35 | a remainder `/seg` has its only slash at index 0, so no alias is derived |
| GoMod.DerivedAliasIsLastSegment | gomod.go:31-35 | a remainder `pre/last` with nonempty `pre` derives the alias `last` |
| GoMod.InternalTestIsContainment | gomod.go:30-35 | a path that contains the module path but does not start with it counts as internal: it keeps its whole text, is joined onto the root, and its alias is derived from the whole path |
| GoMod.RemainderAfterModule | gomod.go:29-35 | importing `module + rest` binds the alias derived from `rest`, the directory `root` joined with `rest`, and the import path `rest` |
| GoMod.GetImportsQualified | gomod.go:24-38 | the corrected resolution records the whole unquoted path and the directory as written; it keeps a declared alias and every alias the code as written derives, and otherwise gives an internal import the last segment of its remainder; for a path that starts with the module path the import path is the module path followed by the as-written remainder |
| GoMod.SegmentAlias | gomod.go:33-35 | the corrected derivation: the alias has no slash; when the remainder has a slash it is the text after the last one, wherever that slash is; otherwise it is empty |
| GoMod.SingleSegmentTakesSegment | gomod.go:30-35 | corrected, an unnamed import of `module/seg` binds the alias `seg`, the whole path, and the root joined with `/seg` |
| GoMod.ModuleDroppedAsWritten | gomod.go:31 | as written, importing the package `module/j` records the import path `/j`, without the module path |
| GoMod.QualifiedKeepsModule | gomod.go:29-32 | kept whole, importing `module/j` records the import path `module/j` |
| Scanner.IsSourceFile | api.go:78 | a name passes the filter exactly when it is a stem followed by `.go` and the stem does not end in `_test` |
| Scanner.SourceFileFilter | api.go:78 | `stem.go` is scanned exactly when the stem does not end in `_test`; no `_test.go` file is scanned |
| Scanner.GetFiles | api.go:75-83 | the loop's result is the reference list of source paths in walk order, no longer than the walk |
| Scanner.SourcePathsMembers | api.go:77-80 | a path is kept exactly when some walked entry with that path has a name that passes the filter |
| Scanner.DirSegments | api.go:87-90 | the directories between the root and the file are free of the separator |
| Scanner.JoinImport | api.go:85-92 | the import path starts with the module path; it is the module path alone for a file at the root, and otherwise the module path, a slash and the directories joined by slashes |
| Scanner.ModuleThenDirs | api.go:86-91 | joining the module path's segments followed by directories extends the module path by those directories |
| Scanner.RelativeOfRooted | api.go:87-88 | a path spelled as root, separator, rest is `rest` once the root and the separator are trimmed |
| Scanner.FileAtRootIsModule | api.go:85-92 | a file directly under the root gets the module path itself |
| Scanner.DirSegmentsOf | api.go:87-90 | for any separator, a relative path of directories and a file name joined by that separator yields exactly those directories |
| Scanner.JoinImportSegments | api.go:85-92 | for any separator (`/` or Windows' `\`), the import path's segments are the module path's segments followed by the file's directories, with the file name dropped |
| Scanner.DeclaredImportPath | api.go:85-92 | for any separator, a file in directories `dirs` gets `module/dirs` as its import path, the directories joined by `/` |
| Scanner.FieldReference | api.go:123-130 | a rendered type yields a reference exactly when it contains a dot; the package comes from the text before the first dot, and the name is the text between the first and second dots |
| Scanner.RefOf | api.go:122-130 | as written, a field yields a reference exactly when it mentions a dot; unwrapped, exactly when it names a qualified type, and the reference uses that alias and name |
| Scanner.FieldReferences | api.go:122-132 | there are at most as many references as fields |
| Scanner.NoReferenceWithoutField | api.go:122-132 | a struct none of whose fields yields a reference has no references |
| Scanner.ReferencesComeFromFields | api.go:122-132 | every reference of a struct comes from one of its fields |
| Scanner.FieldsAreReferenced | api.go:122-132 | every field that yields a reference contributes it |
| Scanner.MakeStruct | api.go:116-120 | the record carries the declared name, the file's import path and the file's base name |
| Scanner.IsExportedStruct | api.go:110-115 | a declaration is kept exactly when it is a struct whose name starts with one of the 26 ASCII capitals; the name of anything else is not read |
| Scanner.VisitTypeSpec | api.go:109-133 | a record is built exactly for a struct whose name starts with an ASCII capital, and its lookup map is empty |
| Scanner.VisitedReferencesAreBlank | api.go:125-130 | as written, every reference a visited struct records has an empty import path and directory |
| Scanner.UnwrappedThroughLayers | api.go:160-169 | once unwrapped, any layers of pointers, arrays and map values around `p.T` name the same alias and type as `p.T` |
| Scanner.OpaqueFieldsYieldNothing | api.go:156-159 | interface, function and channel fields render without a dot, so the field test of api.go:123 yields no reference for them under either rule |
| Scanner.SliceKeepsBrackets | api.go:160-161 | as written, `[]p.T` looks up the alias `[]p`, while unwrapping looks up `p` |
| Scanner.MapKeyCapturesName | api.go:162-163 | as written, `map[p.K]q.V` records the name `K]q` under alias `map[p`, while unwrapping gives `q.V` |
| Scanner.Visited | api.go:100-136 | the walk builds at most one record per declaration, and at least one when some declaration is an exported struct |
| Scanner.ExportedAreVisited | api.go:109-121 | the record the visitor builds for each exported struct declaration is among the records of the walk |
| Scanner.VisitedAreExported | api.go:109-121 | every record of the walk is the one the visitor builds for some exported struct declaration of the file |
| Scanner.StructsFromFile | api.go:140-152 | as written, the result is an error exactly when parsing fails, and otherwise always empty |
| Scanner.CollectedIsLastBinding | api.go:106-108 | the file's import map binds an alias exactly when some import declares it, and binds it to the latest such declaration as the corrected `GoMod.GetImportsQualified` resolves it (path kept whole) |
| Scanner.DeclaredStructs | api.go:109-133 | every record carries the file's import path, base name and import map |
| Scanner.ExportedAreDeclared | api.go:110-121 | every exported struct declaration of the file has its record |
| Scanner.DeclaredAreExported | api.go:110-121 | every record is exactly the one built from some exported struct declaration of the file |
| Scanner.ExtractStructs | api.go:140-152 | the corrected extraction fails exactly when parsing fails, returns nothing for package `main`, and otherwise gives records carrying the file's import path |
| Scanner.DeclaredStructsAreDropped | api.go:140-152 | a non-main file with an exported struct yields nothing as written, while the corrected extraction returns a record with that struct's name |
| Scanner.ReferencesFollowFileImports | api.go:106-129 | in the corrected extraction, a field naming `alias.T` refers to the package that the file's latest import of `alias` resolves to |
| Scanner.SingleSegmentImportResolves | api.go:106-129 | corrected, a field `seg.Name` in a file whose only import is the unnamed `module/seg` refers to `Name` in `module/seg`, in the root joined with `/seg` |
| Scanner.ImportPathOfPackage | gomod.go:29-32 | an import of a package below the root records only `/dirs` as written, while the declaring file's import path, under any separator, is `module/dirs`; kept whole, the two agree |
| Registry.Package | global.go:34-36 | the clause starts with `package ` |
| Registry.PackageRoundTrip | global.go:34-36 | the package name can be read back from the clause |
| Registry.TwoSegments | global.go:43-44 | an import path with a slash has at least two segments, so the slice stays in bounds |
| Registry.Alias | global.go:43-45 | the alias has no slash |
| Registry.AliasOfPair | global.go:43-45 | `a/b` gets the alias `ab` |
| Registry.AliasOfLastTwo | global.go:43-45 | whatever precedes them, the last two segments `a/b` give the alias `ab` |
| Registry.ImportsAndVars | global.go:38-50 | one import line and one entry per struct, at the struct's position; equal structs give equal lines |
| Registry.Vars | global.go:52-57 | the struct names, in input order |
| Registry.ImportLine | global.go:46 | the line starts with the alias and a space, and the rest of it is the struct's import path in double quotes |
| Registry.VarLine | global.go:47 | the entry starts with the alias and a dot, and the rest of it is the struct's name |
| Registry.ImportLineResolves | global.go:46 | when the alias is a Go identifier (so that the line is an import declaration at all), the emitted line, read back as one, binds its alias, and resolved by the corrected `GoMod.GetImportsQualified` (path kept whole) gives the struct's import path |
| Registry.VarLineSplits | global.go:47 | when the alias and the name are free of dots, as Go identifiers are, an entry splits at its dot into the alias and the struct name |
| Registry.DottedSegmentAlias | global.go:43-45 | a dot in the next-to-last segment stays in the alias, which is then not a Go identifier |
| Registry.DottedModuleEntry | global.go:43-47 | a struct in the root package of `host.tld/app` gets the alias `host.tldapp`, no identifier, and its entry splits into three pieces |
| Registry.RootPackageAlias | global.go:43-45 | the root package of `example.com/app` gets the alias `example.comapp`, which is not a Go identifier |
| Registry.RootPackageEntry | global.go:47 | the entry `example.comapp.User` splits into `example`, `comapp` and `User`, not into alias and name |
| Registry.HyphenSegmentAlias | global.go:43-45 | `github.com/foo/go-bar` gets the alias `foogo-bar`, which is not a Go identifier |
| Registry.ModelsUserEntry | global.go:43-47 | a `User` struct in `example.com/app/models` gets the entry `appmodels.User` |

## Left out

- Walking the directory, reading `go.mod`, parsing Go files and writing the output file are I/O. Their results are parameters: walk entries, the module descriptor, a parse outcome, and the generated text.
- `NewApi` and `parseGoModule` (api.go:58-73) only read `go.mod` through `modfile.ModulePath`, which is not part of this model. A `GoModule` value is given instead.
- `ModulePath` (gomod.go:40-60) reads environment variables and escapes paths through `golang.org/x/mod`. No core operation calls it.
- `getGoModule` (gomod.go:62-70) reads `go.mod` and is never called.
- `GenerateFile` (global.go:17-32) only concatenates lines and writes the file. It runs a text template whose body is `Body` (global.go:60-65). The lines themselves are modelled by `Package` and `ImportsAndVars`.
- `main` (api.go:176-198) is sequencing and logging around the modelled operations.
- The accessor methods of `_struct` (api.go:37-50) are the record's fields in `Symbols.Struct`.
- `filepath.Join` and `filepath.Base` are opaque parameters. Path cleaning is not modelled.
- Go strings are byte sequences; the model uses `seq<char>`. Every character the code searches for or compares against (`/`, `.`, `"`, `A`–`Z`) is ASCII and cannot occur inside a multi-byte UTF-8 sequence, so cutting at those characters gives the same pieces on bytes as on characters.
- A raw-string import literal (in backquotes) is trimmed of double quotes only, as the code does. The literal's other escapes are not decoded.
- `filepath.Walk` also reports directories and can stop on an error. The model's walk entries are what the callback sees, and the callback never fails. When `os.Lstat` fails on an entry, `filepath.Walk` calls the callback with a nil `FileInfo`, and `info.Name()` (api.go:78) then panics; the model has no such entry. `return files, filepath.Walk(...)` (api.go:77) returns the filled slice only because the gc compiler evaluates the call before it reads `files`; the Go specification leaves that order unspecified, and the model takes the filled slice.
- The visitor's own `imports` map (api.go:101, 107-108) belongs to each visitor and is filled but never read, so the as-written model does not keep it. Reading that map instead of `s.imports` would still miss the imports: an import and a type declaration sit in different `GenDecl` nodes, and the visitor that reaches a `TypeSpec` is not the one whose map its file's imports filled. The corrected extraction therefore collects all of a file's imports with `CollectImports`.
- `Scanner.FieldReferences`: its contract gives only the length bound; the no-reference case is stated by `NoReferenceWithoutField`, and membership both ways by `ReferencesComeFromFields` and `FieldsAreReferenced`. No lemma states that the references follow field order or that there is one per yielding field; a reordering or deduplicating definition would meet the same lemmas.
- `Scanner.DeclaredStructs`: `ExportedAreDeclared` and `DeclaredAreExported` state membership both ways, not that the records follow declaration order or that there is exactly one per exported declaration.
- `Registry.VarLineSplits` and `Registry.ImportLineResolves` hold only when the alias is a Go identifier. The generator does not ensure that: the alias joins the last two `/`-segments (global.go:43-45) whatever they contain, so a struct in the root package of a two-segment module gets `example.comapp` (`RootPackageAlias`, `RootPackageEntry`), and a segment with `-` gives `foogo-bar` (`HyphenSegmentAlias`). The generated file is then not valid Go. `Alias` is modelled as written; the model does not say what alias was meant.
- `Scanner.Visited`: its contract gives only count bounds; which records the walk builds, both ways, is stated by `ExportedAreVisited` and `VisitedAreExported`.
- `GoStrings.Split`: its contract gives only that there is at least one piece; the pieces are characterised by `JoinSplit`, `SplitJoin`, `SplitPiecesFree`, `SplitAround` and `SplitCount`.

## Findings

| source | as written | input that shows it | evidently intended | confidence | as-written member | corrected member |
|---|---|---|---|---|---|---|
| api.go:121 | `p.Structs = append(p.Structs)` appends nothing, and `results` (api.go:141) is returned unchanged, so every file yields an empty list | a non-main file declaring `type User struct{}` | the records built for the file's exported structs are returned | not executed | Scanner.DeclaredStructsAreDropped | Scanner.ExtractStructs |
| api.go:126-129 | field references are looked up in `s.imports`, a map that is never filled, so their import path and directory are always empty | a struct with a field `m models.User` in a file with `import models "example.com/app/models"` | the lookup uses the file's import declarations | not executed | Scanner.VisitedReferencesAreBlank | Scanner.ReferencesFollowFileImports |
| gomod.go:31 | the recorded import path is the remainder after the module path (`/models`), not a path a struct's own record ever carries (`example.com/app/models`) | importing `example.com/app/models` in module `example.com/app` | the import path is recorded whole, as the declaring file's `joinImport` gives it | not executed | GoMod.ModuleDroppedAsWritten | GoMod.GetImportsQualified |
| gomod.go:33 | an unnamed internal import derives its alias only when the last slash of the remainder is at an index `> 0`, so a package one level below the module gets the alias `""` | an unnamed import of `example.com/app/models` in module `example.com/app` (remainder `/models`) | the last segment is the alias whenever the remainder has a slash (`index >= 0`), here `models` | not executed | GoMod.SingleSegmentHasNoAlias | GoMod.SingleSegmentTakesSegment |
| api.go:123-128 | the rendered type is split at its first dot with slice and map wrappers still on it, so the alias is `[]p` or `map[p` and a map's name can be `K]q` | the fields `[]p.T` and `map[p.K]q.V` | the qualified name under pointers, slices and map values is used (`p`, `T`; `q`, `V`) | not executed | Scanner.MapKeyCapturesName | Scanner.UnwrappedThroughLayers |
