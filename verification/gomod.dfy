/**
 * Import resolution against the module description (gomod.go): from one
 * import declaration to the alias it binds, the package directory on disk and
 * the import path recorded for it.
 */
module GoMod {
  import opened Optional
  import opened GoStrings

  /** The module description: `modulePath` is the `Module` line read from go.mod. */
  datatype GoModule = GoModule(version: string, modulePath: string, root: string)

  /** An import declaration: the optional local name and the path literal as written, quotes included. */
  datatype ImportSpec = ImportSpec(name: Option<string>, pathLit: string)

  /** What `getImports` returns for one import declaration. */
  datatype ImportBinding = ImportBinding(alias: string, absPath: string, importPath: string)

  /** `getRoot` */
  function Root(d: GoModule): string {
    d.root
  }

  /** The alias the declaration states itself, or "" when it has no name. */
  function ExplicitAlias(spec: ImportSpec): string {
    match spec.name
    case Some(n) => n
    case None => ""
  }

  /** The import path with its surrounding quote characters removed. */
  function Unquoted(spec: ImportSpec): string {
    Trim(spec.pathLit, '"')
  }

  /**
   * The alias derived from a module-relative remainder: the text after its
   * last slash, provided that slash is not the first character.
   */
  function DerivedAlias(rest: string): (a: string)
    ensures '/' !in a
    ensures a != "" ==> |a| + 1 < |rest| && rest[|rest| - |a| - 1] == '/' && rest[|rest| - |a|..] == a
  {
    var index := LastIndex(rest, '/');
    if index > 0 then rest[index + 1..] else ""
  }

  /**
   * `getImports`, as written: the alias is the declared name, or derived from
   * the path when the path lies in the module; `importPath` is the unquoted
   * path with the module path removed from its front; `absPath` joins the
   * module root with that remainder. `join` stands for filepath.Join.
   */
  function GetImports(d: GoModule, spec: ImportSpec, join: (string, string) -> string): (b: ImportBinding)
    ensures ExplicitAlias(spec) != "" ==> b.alias == ExplicitAlias(spec)
    ensures !Contains(Unquoted(spec), d.modulePath) ==>
              b.alias == ExplicitAlias(spec) && b.absPath == "" && b.importPath == Unquoted(spec)
    ensures Contains(Unquoted(spec), d.modulePath) ==>
              && (HasPrefix(Unquoted(spec), d.modulePath) ==> d.modulePath + b.importPath == Unquoted(spec))
              && (!HasPrefix(Unquoted(spec), d.modulePath) ==> b.importPath == Unquoted(spec))
              && b.absPath == join(Root(d), b.importPath)
    ensures ExplicitAlias(spec) == "" ==> '/' !in b.alias
    ensures b.alias != ExplicitAlias(spec) ==> b.alias == DerivedAlias(b.importPath)
  {
    var alias := ExplicitAlias(spec);
    var importPath := Unquoted(spec);
    if Contains(importPath, d.modulePath) then
      var rest := TrimPrefix(importPath, d.modulePath);
      ImportBinding(if alias == "" then DerivedAlias(rest) else alias, join(Root(d), rest), rest)
    else
      ImportBinding(alias, "", importPath)
  }

  /**
   * The alias the last segment of a remainder gives: the text after its last
   * slash, wherever that slash is, including at index 0.
   */
  function SegmentAlias(rest: string): (a: string)
    ensures '/' !in a
    ensures '/' in rest ==> |a| < |rest| && rest[|rest| - |a| - 1] == '/' && rest[|rest| - |a|..] == a
    ensures '/' !in rest ==> a == ""
  {
    var index := LastIndex(rest, '/');
    if index >= 0 then rest[index + 1..] else ""
  }

  /** Where the guarded derivation gives an alias, the last-segment derivation gives the same one. */
  lemma SegmentAliasExtendsDerived(rest: string)
    ensures DerivedAlias(rest) != "" ==> SegmentAlias(rest) == DerivedAlias(rest)
    ensures LastIndex(rest, '/') != 0 ==> SegmentAlias(rest) == DerivedAlias(rest)
  {
  }

  /**
   * `getImports` corrected: the recorded import path is the unquoted path
   * kept whole, not the remainder after the module path, and an unnamed
   * import inside the module takes the last segment of the remainder as
   * alias even when that segment is the only one. The directory is the one
   * `getImports` joins.
   */
  function GetImportsQualified(d: GoModule, spec: ImportSpec, join: (string, string) -> string): (b: ImportBinding)
    ensures b.importPath == Unquoted(spec)
    ensures b.absPath == GetImports(d, spec, join).absPath
    ensures ExplicitAlias(spec) != "" ==> b.alias == ExplicitAlias(spec)
    ensures GetImports(d, spec, join).alias != "" ==> b.alias == GetImports(d, spec, join).alias
    ensures ExplicitAlias(spec) == "" ==> '/' !in b.alias
    ensures ExplicitAlias(spec) == "" && Contains(Unquoted(spec), d.modulePath) ==>
              b.alias == SegmentAlias(GetImports(d, spec, join).importPath)
    ensures Contains(Unquoted(spec), d.modulePath) && HasPrefix(Unquoted(spec), d.modulePath) ==>
              b.importPath == d.modulePath + GetImports(d, spec, join).importPath
  {
    var alias := ExplicitAlias(spec);
    var importPath := Unquoted(spec);
    if Contains(importPath, d.modulePath) then
      var rest := TrimPrefix(importPath, d.modulePath);
      SegmentAliasExtendsDerived(rest);
      ImportBinding(if alias == "" then SegmentAlias(rest) else alias, join(Root(d), rest), importPath)
    else
      ImportBinding(alias, "", importPath)
  }

  /** The literal Go source gives an import path: the path between double quotes. */
  function Quote(path: string): string {
    "\"" + path + "\""
  }

  /** A quote-free path survives quoting and unquoting. */
  lemma UnquoteQuote(path: string)
    requires '"' !in path
    ensures Trim(Quote(path), '"') == path
  {
    TrimQuoted(path, '"');
    assert Quote(path) == ['"'] + path + ['"'];
  }

  /** An import with a nonempty alias of its own binds that alias and, kept whole, its path. */
  lemma ExplicitImport(d: GoModule, alias: string, path: string, join: (string, string) -> string)
    requires alias != "" && '"' !in path
    ensures GetImports(d, ImportSpec(Some(alias), Quote(path)), join).alias == alias
    ensures GetImportsQualified(d, ImportSpec(Some(alias), Quote(path)), join).importPath == path
  {
    var spec := ImportSpec(Some(alias), Quote(path));
    UnquoteQuote(path);
    assert Unquoted(spec) == path;
    assert ExplicitAlias(spec) == alias;
  }

  /** Every string contains itself, at position 0. */
  lemma ContainsPrefix(s: string, prefix: string)
    requires HasPrefix(s, prefix)
    ensures Contains(s, prefix)
  {
    assert OccursAt(s, prefix, 0);
  }

  /**
   * Importing the module path itself leaves nothing after the module: the
   * remainder is empty, no alias is derived and the slice stays in bounds.
   */
  lemma ModulePathHasNoAlias(d: GoModule, join: (string, string) -> string)
    requires '"' !in d.modulePath
    ensures var b := GetImports(d, ImportSpec(None, Quote(d.modulePath)), join);
            b.alias == "" && b.importPath == "" && b.absPath == join(d.root, "")
  {
    var spec := ImportSpec(None, Quote(d.modulePath));
    UnquoteQuote(d.modulePath);
    assert HasPrefix(d.modulePath, d.modulePath);
    ContainsPrefix(d.modulePath, d.modulePath);
  }

  /**
   * A remainder with a single segment (`/models`) puts its only slash at
   * index 0, so the `index > 0` guard leaves the alias empty.
   */
  lemma SingleSegmentHasNoAlias(d: GoModule, seg: string, join: (string, string) -> string)
    requires '"' !in d.modulePath && '"' !in seg && '/' !in seg
    ensures var b := GetImports(d, ImportSpec(None, Quote(d.modulePath + "/" + seg)), join);
            b.alias == "" && b.importPath == "/" + seg && b.absPath == join(d.root, "/" + seg)
  {
    var rest := "/" + seg;
    assert d.modulePath + "/" + seg == d.modulePath + rest;
    RemainderAfterModule(d, rest, join);
    assert rest[1..] == seg;
    assert LastIndex(rest, '/') == 0;
    assert DerivedAlias(rest) == "";
  }

  /**
   * Corrected, an unnamed import of the package one level below the module
   * (`module/models`) takes its segment (`models`) as alias.
   */
  lemma SingleSegmentTakesSegment(d: GoModule, seg: string, join: (string, string) -> string)
    requires '"' !in d.modulePath && '"' !in seg && '/' !in seg
    ensures var b := GetImportsQualified(d, ImportSpec(None, Quote(d.modulePath + "/" + seg)), join);
            b.alias == seg && b.importPath == d.modulePath + "/" + seg && b.absPath == join(d.root, "/" + seg)
  {
    var rest := "/" + seg;
    assert d.modulePath + "/" + seg == d.modulePath + rest;
    RemainderAfterModule(d, rest, join);
    UnquoteQuote(d.modulePath + rest);
    assert rest[1..] == seg;
    assert LastIndex(rest, '/') == 0;
  }

  /**
   * Below the module, a remainder `pre/last` whose slash is not the first
   * character derives the alias `last`, the final path segment.
   */
  lemma DerivedAliasIsLastSegment(d: GoModule, pre: string, last: string, join: (string, string) -> string)
    requires '"' !in d.modulePath && '"' !in pre && '"' !in last
    requires |pre| > 0 && '/' !in last
    ensures var b := GetImports(d, ImportSpec(None, Quote(d.modulePath + pre + "/" + last)), join);
            b.alias == last && b.importPath == pre + "/" + last
  {
    var rest := pre + "/" + last;
    assert d.modulePath + pre + "/" + last == d.modulePath + rest;
    RemainderAfterModule(d, rest, join);
    assert rest == pre + ['/'] + last;
    LastIndexBefore(pre, '/', last);
    assert rest[|pre| + 1..] == last;
    assert DerivedAlias(rest) == last;
  }

  /**
   * The internal test is a substring test, not a prefix test: a path that
   * contains the module path anywhere but at its front (a fork such as
   * `github.com/fork/example.com/app/util`) is treated as internal, keeps its
   * whole text as import path, is joined onto the module root and derives
   * its alias from the whole path.
   */
  lemma InternalTestIsContainment(d: GoModule, path: string, join: (string, string) -> string)
    requires '"' !in path
    requires Contains(path, d.modulePath) && !HasPrefix(path, d.modulePath)
    ensures GetImports(d, ImportSpec(None, Quote(path)), join)
              == ImportBinding(DerivedAlias(path), join(d.root, path), path)
  {
    UnquoteQuote(path);
  }

  /** An import of a path that starts with the module path records what follows the module path. */
  lemma RemainderAfterModule(d: GoModule, rest: string, join: (string, string) -> string)
    requires '"' !in d.modulePath && '"' !in rest
    ensures GetImports(d, ImportSpec(None, Quote(d.modulePath + rest)), join)
              == ImportBinding(DerivedAlias(rest), join(d.root, rest), rest)
  {
    var path := d.modulePath + rest;
    UnquoteQuote(path);
    assert path[..|d.modulePath|] == d.modulePath;
    ContainsPrefix(path, d.modulePath);
    assert TrimPrefix(path, d.modulePath) == rest;
  }

  /**
   * As written, importing the package `module/j` records only `/j`: the
   * module path is cut off the import path.
   */
  lemma ModuleDroppedAsWritten(d: GoModule, j: string, join: (string, string) -> string)
    requires '"' !in d.modulePath && '"' !in j
    ensures GetImports(d, ImportSpec(None, Quote(d.modulePath + "/" + j)), join).importPath == "/" + j
  {
    var rest := "/" + j;
    assert d.modulePath + "/" + j == d.modulePath + rest;
    RemainderAfterModule(d, rest, join);
  }

  /** Kept whole, the import of `module/j` records `module/j`. */
  lemma QualifiedKeepsModule(d: GoModule, j: string, join: (string, string) -> string)
    requires '"' !in d.modulePath && '"' !in j
    ensures GetImportsQualified(d, ImportSpec(None, Quote(d.modulePath + "/" + j)), join).importPath
              == d.modulePath + "/" + j
  {
    UnquoteQuote(d.modulePath + "/" + j);
  }
}
