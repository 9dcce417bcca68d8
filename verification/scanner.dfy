/**
 * The per-file scanner of api.go: which walked files are read, the import
 * path of a file, which type declarations are kept, and how a field's type
 * becomes a reference to a struct of another package.
 */
module Scanner {
  import opened Optional
  import opened GoStrings
  import opened TypeExpr
  import opened Symbols
  import opened GoMod

  // ---------------------------------------------------------------------------
  // File enumeration
  // ---------------------------------------------------------------------------

  /**
   * The walk's filter: a file is scanned when its name ends in `.go` but not
   * in `_test.go`, that is, when it is a stem followed by `.go` and the stem
   * does not end in `_test`.
   */
  predicate IsSourceFile(name: string): (b: bool)
    ensures b <==> |name| >= 3 && name[|name| - 3..] == ".go" && !HasSuffix(name[..|name| - 3], "_test")
  {
    HasSuffix(name, ".go") && !HasSuffix(name, "_test.go")
  }

  /**
   * For a name `stem.go`, the filter rejects it exactly when the stem ends in
   * `_test`; every `_test.go` name is rejected.
   */
  lemma SourceFileFilter(stem: string)
    ensures IsSourceFile(stem + ".go") <==> !HasSuffix(stem, "_test")
    ensures !IsSourceFile(stem + "_test.go")
  {
    var name := stem + ".go";
    assert name[|name| - 3..] == ".go";
    if HasSuffix(stem, "_test") {
      assert name[|name| - 8..] == stem[|stem| - 5..] + ".go";
    }
    if HasSuffix(name, "_test.go") {
      assert stem[|stem| - 5..] == name[|name| - 8..|name| - 3];
    }
    var t := stem + "_test.go";
    assert t[|t| - 8..] == "_test.go";
    assert t[|t| - 3..] == ".go";
  }

  /** One entry the directory walk reports: its full path and its base name. */
  datatype WalkEntry = WalkEntry(path: string, name: string)

  /** The paths of the source files among the walked entries, in walk order. */
  function SourcePaths(entries: seq<WalkEntry>): seq<string>
    decreases |entries|
  {
    if |entries| == 0 then []
    else
      var last := entries[|entries| - 1];
      SourcePaths(entries[..|entries| - 1]) + (if IsSourceFile(last.name) then [last.path] else [])
  }

  /** A path is among the source paths exactly when some entry with a passing name has it. */
  lemma {:induction false} SourcePathsMembers(entries: seq<WalkEntry>)
    ensures forall f :: f in SourcePaths(entries) <==>
              exists i :: 0 <= i < |entries| && entries[i].path == f && IsSourceFile(entries[i].name)
    decreases |entries|
  {
    if |entries| > 0 {
      var init := entries[..|entries| - 1];
      SourcePathsMembers(init);
      assert forall i :: 0 <= i < |init| ==> init[i] == entries[i];
    }
  }

  /**
   * `getFiles` after the walk: keeps the paths of entries whose name passes
   * the filter, in walk order.
   */
  method GetFiles(entries: seq<WalkEntry>) returns (files: seq<string>)
    ensures files == SourcePaths(entries)
    ensures |files| <= |entries|
  {
    files := [];
    var n := 0;
    while n < |entries|
      invariant 0 <= n <= |entries|
      invariant files == SourcePaths(entries[..n])
      invariant |files| <= n
    {
      assert entries[..n + 1][..n] == entries[..n];
      if IsSourceFile(entries[n].name) {
        files := files + [entries[n].path];
      }
      n := n + 1;
    }
    assert entries[..n] == entries;
  }

  // ---------------------------------------------------------------------------
  // Import path of a scanned file
  // ---------------------------------------------------------------------------

  /** The file's path below the module root, without a leading separator. */
  function RelativePath(d: GoModule, sep: char, filename: string): string {
    TrimPrefix(TrimPrefix(filename, d.root), [sep])
  }

  /** The directories between the module root and the file. */
  function DirSegments(d: GoModule, sep: char, filename: string): (dirs: seq<string>)
    ensures forall i :: 0 <= i < |dirs| ==> sep !in dirs[i]
  {
    var parts := Split(RelativePath(d, sep, filename), sep);
    SplitPiecesFree(RelativePath(d, sep, filename), sep);
    parts[..|parts| - 1]
  }

  /**
   * `joinImport`: the module path followed by the file's directories below
   * the root, joined with `/`. `sep` is the operating system's separator.
   */
  function JoinImport(d: GoModule, sep: char, filename: string): (r: string)
    ensures HasPrefix(r, d.modulePath)
    ensures |DirSegments(d, sep, filename)| == 0 ==> r == d.modulePath
    ensures |DirSegments(d, sep, filename)| > 0 ==>
              r == d.modulePath + "/" + Join(DirSegments(d, sep, filename), "/")
  {
    var mstrs := Split(d.modulePath, '/');
    var all := mstrs + Split(RelativePath(d, sep, filename), sep);
    var r := Join(all[..|all| - 1], "/");
    assert all[..|all| - 1] == mstrs + DirSegments(d, sep, filename);
    ModuleThenDirs(d.modulePath, DirSegments(d, sep, filename));
    r
  }

  /** Joining the module's segments and some directories extends the module path. */
  lemma ModuleThenDirs(m: string, dirs: seq<string>)
    ensures |dirs| == 0 ==> Join(Split(m, '/') + dirs, "/") == m
    ensures |dirs| > 0 ==> Join(Split(m, '/') + dirs, "/") == m + "/" + Join(dirs, "/")
  {
    JoinSplit(m, '/');
    if |dirs| == 0 {
      assert Split(m, '/') + dirs == Split(m, '/');
    } else {
      JoinAppend(Split(m, '/'), dirs, "/");
    }
  }

  /** A path spelled as root, separator, rest is `rest` relative to the root. */
  lemma RelativeOfRooted(d: GoModule, sep: char, rest: string)
    ensures RelativePath(d, sep, d.root + [sep] + rest) == rest
  {
    var filename := d.root + [sep] + rest;
    assert filename[..|d.root|] == d.root;
    assert TrimPrefix(filename, d.root) == [sep] + rest;
    assert ([sep] + rest)[..1] == [sep];
  }

  /** A file directly under the root maps to the module path itself. */
  lemma FileAtRootIsModule(d: GoModule, sep: char, name: string)
    requires sep !in name
    ensures JoinImport(d, sep, d.root + [sep] + name) == d.modulePath
  {
    RelativeOfRooted(d, sep, name);
    SplitNoSeparator(name, sep);
  }

  /** A relative path of directories and a file name yields those directories. */
  lemma DirSegmentsOf(d: GoModule, sep: char, filename: string, dirs: seq<string>, name: string)
    requires forall i :: 0 <= i < |dirs| ==> sep !in dirs[i]
    requires sep !in name
    requires RelativePath(d, sep, filename) == Join(dirs + [name], [sep])
    ensures DirSegments(d, sep, filename) == dirs
  {
    var parts := dirs + [name];
    assert forall i :: 0 <= i < |parts| ==> sep !in parts[i];
    SplitJoin(parts, sep);
    assert Split(RelativePath(d, sep, filename), sep) == parts;
    assert parts[..|parts| - 1] == dirs;
  }

  /**
   * Whatever the separator, the import path's segments are the module's
   * segments followed by the file's directories: the file name is dropped.
   * The directories must not hold `/`, which the import path uses.
   */
  lemma JoinImportSegments(d: GoModule, sep: char, dirs: seq<string>, name: string)
    requires forall i :: 0 <= i < |dirs| ==> sep !in dirs[i] && '/' !in dirs[i]
    requires sep !in name
    ensures var filename := d.root + [sep] + Join(dirs + [name], [sep]);
            Split(JoinImport(d, sep, filename), '/') == Split(d.modulePath, '/') + dirs
  {
    var filename := d.root + [sep] + Join(dirs + [name], [sep]);
    RelativeOfRooted(d, sep, Join(dirs + [name], [sep]));
    DirSegmentsOf(d, sep, filename, dirs, name);
    var r := JoinImport(d, sep, filename);
    if |dirs| > 0 {
      var j := Join(dirs, "/");
      assert r == d.modulePath + ['/'] + j;
      SplitAround(d.modulePath, '/', j);
      SplitJoin(dirs, '/');
    } else {
      assert Split(d.modulePath, '/') + dirs == Split(d.modulePath, '/');
    }
  }

  // ---------------------------------------------------------------------------
  // Type declarations and their fields
  // ---------------------------------------------------------------------------

  /** The right-hand side of a type declaration: a struct with field types, or anything else. */
  datatype TypeBody = StructType(fields: seq<Expr>) | NonStructType

  /** `type name body` */
  datatype TypeSpec = TypeSpec(name: string, body: TypeBody)

  /**
   * What the visitor can inspect without panicking: a struct declaration has
   * a nonempty name (its first byte is read), and an exported one has field
   * types whose selectors have identifier bases (its fields are rendered).
   */
  predicate SpecWellFormed(spec: TypeSpec) {
    spec.body.StructType? ==>
      && |spec.name| > 0
      && ('A' <= spec.name[0] <= 'Z' ==>
            forall i :: 0 <= i < |spec.body.fields| ==> WellFormed(spec.body.fields[i]))
  }

  /** The 26 ASCII capital letters. */
  const Capitals: set<char> := {'A', 'B', 'C', 'D', 'E', 'F', 'G', 'H', 'I', 'J', 'K', 'L', 'M',
                                'N', 'O', 'P', 'Q', 'R', 'S', 'T', 'U', 'V', 'W', 'X', 'Y', 'Z'}

  /**
   * A declaration is kept when it declares a struct whose name starts with
   * one of the ASCII capitals; the name of anything else is never read.
   */
  function IsExportedStruct(spec: TypeSpec): (b: bool)
    requires spec.body.StructType? ==> |spec.name| > 0
    ensures b <==> spec.body.StructType? && spec.name[0] in Capitals
  {
    spec.body.StructType? && 'A' <= spec.name[0] <= 'Z'
  }

  /**
   * The dot rule for one field, given its rendered type: a type containing a
   * dot is split on dots; the first piece is looked up among `imports` for
   * the package's paths and the second piece is the referenced type's name.
   */
  function FieldReference(rendered: string, imports: map<string, StructPath>): (r: Option<Struct>)
    ensures r.Some? <==> '.' in rendered
    ensures r.Some? ==>
              && r.value.source == Lookup(imports, UpTo(rendered, '.')).importPath
              && r.value.path == Lookup(imports, UpTo(rendered, '.')).absPath
              && r.value.name == UpTo(After(rendered, '.'), '.')
              && r.value.refs == []
  {
    if '.' in rendered then
      var strs := Split(rendered, '.');
      SplitPieces(rendered, '.');
      var sp := Lookup(imports, strs[0]);
      Some(Struct(imports, sp.importPath, strs[1], sp.absPath, []))
    else None
  }

  /**
   * The package-qualified name a field type refers to once pointers, arrays
   * and map values are unwrapped; None for every other kind of type.
   */
  function QualifiedName(e: Expr): Option<(string, string)>
    requires WellFormed(e)
  {
    match e
    case StarExpr(x) => QualifiedName(x)
    case ArrayType(_, elt) => QualifiedName(elt)
    case MapType(_, v) => QualifiedName(v)
    case SelectorExpr(x, sel) => Some((x.name, sel))
    case _ => None
  }

  /**
   * How a field type becomes a reference: `AsWritten` renders the type and
   * applies the dot rule to the text; `Unwrapped` classifies the unwrapped
   * type directly.
   */
  datatype FieldRule = AsWritten | Unwrapped

  /** The reference field type `f` yields under `rule`, with packages looked up in `imports`. */
  function RefOf(rule: FieldRule, f: Expr, imports: map<string, StructPath>): (r: Option<Struct>)
    requires WellFormed(f)
    ensures rule.AsWritten? ==> (r.Some? <==> MentionsDot(f))
    ensures rule.Unwrapped? ==> (r.Some? <==> QualifiedName(f).Some?)
    ensures rule.Unwrapped? && r.Some? ==>
              var (alias, name) := QualifiedName(f).value;
              && r.value.source == Lookup(imports, alias).importPath
              && r.value.path == Lookup(imports, alias).absPath
              && r.value.name == name
  {
    match rule
    case AsWritten =>
      FieldReference(Render(f), imports)
    case Unwrapped =>
      match QualifiedName(f)
      case Some((alias, name)) =>
        var sp := Lookup(imports, alias);
        Some(Struct(imports, sp.importPath, name, sp.absPath, []))
      case None => None
  }

  /** The references of a struct's fields, in field order. */
  function FieldReferences(rule: FieldRule, fields: seq<Expr>, imports: map<string, StructPath>): (r: seq<Struct>)
    requires forall i :: 0 <= i < |fields| ==> WellFormed(fields[i])
    ensures |r| <= |fields|
    decreases |fields|
  {
    if |fields| == 0 then []
    else
      var rest := FieldReferences(rule, fields[1..], imports);
      assert forall i :: 1 <= i < |fields| ==> fields[i] == fields[1..][i - 1];
      match RefOf(rule, fields[0], imports)
      case Some(ref) => [ref] + rest
      case None => rest
  }

  /** Field type `f` yields `ref` under `rule`. */
  ghost predicate RefFromField(rule: FieldRule, f: Expr, imports: map<string, StructPath>, ref: Struct) {
    WellFormed(f) && RefOf(rule, f, imports) == Some(ref)
  }

  /** Every reference comes from one of the fields. */
  lemma {:induction false} ReferencesComeFromFields(rule: FieldRule, fields: seq<Expr>, imports: map<string, StructPath>)
    requires forall i :: 0 <= i < |fields| ==> WellFormed(fields[i])
    ensures forall ref :: ref in FieldReferences(rule, fields, imports) ==>
              exists f :: f in fields && RefFromField(rule, f, imports, ref)
    decreases |fields|
  {
    if |fields| > 0 {
      ReferencesComeFromFields(rule, fields[1..], imports);
      forall ref | ref in FieldReferences(rule, fields, imports)
        ensures exists f :: f in fields && RefFromField(rule, f, imports, ref)
      {
        if ref !in FieldReferences(rule, fields[1..], imports) {
          assert RefFromField(rule, fields[0], imports, ref);
        } else {
          var f :| f in fields[1..] && RefFromField(rule, f, imports, ref);
          assert f in fields;
        }
      }
    }
  }

  /** A struct none of whose fields yields a reference has no references. */
  lemma {:induction false} NoReferenceWithoutField(rule: FieldRule, fields: seq<Expr>, imports: map<string, StructPath>)
    requires forall i :: 0 <= i < |fields| ==> WellFormed(fields[i])
    requires forall i :: 0 <= i < |fields| ==> RefOf(rule, fields[i], imports).None?
    ensures FieldReferences(rule, fields, imports) == []
    decreases |fields|
  {
    if |fields| > 0 {
      NoReferenceWithoutField(rule, fields[1..], imports);
    }
  }

  /** Every field that yields a reference under `rule` contributes it. */
  lemma {:induction false} FieldsAreReferenced(rule: FieldRule, fields: seq<Expr>, imports: map<string, StructPath>)
    requires forall i :: 0 <= i < |fields| ==> WellFormed(fields[i])
    ensures forall f :: f in fields && RefOf(rule, f, imports).Some? ==>
              RefOf(rule, f, imports).value in FieldReferences(rule, fields, imports)
    decreases |fields|
  {
    if |fields| > 0 {
      FieldsAreReferenced(rule, fields[1..], imports);
      forall f | f in fields && RefOf(rule, f, imports).Some?
        ensures RefOf(rule, f, imports).value in FieldReferences(rule, fields, imports)
      {
        if f != fields[0] {
          assert f in fields[1..];
        }
      }
    }
  }

  /** The record built for an exported struct declaration. */
  function MakeStruct(rule: FieldRule, d: GoModule, sep: char, path: string, basePath: string,
                      imports: map<string, StructPath>, spec: TypeSpec): (s: Struct)
    requires SpecWellFormed(spec) && IsExportedStruct(spec)
    ensures s.name == spec.name && s.source == JoinImport(d, sep, path) && s.path == basePath
    ensures |s.refs| <= |spec.body.fields|
  {
    Struct(imports, JoinImport(d, sep, path), spec.name, basePath,
           FieldReferences(rule, spec.body.fields, imports))
  }

  /**
   * What the visitor builds for one type declaration, as written: a record
   * for an exported struct whose field references are looked up in the
   * record's own `imports` map, which nothing ever fills.
   */
  function VisitTypeSpec(d: GoModule, sep: char, path: string, basePath: string, spec: TypeSpec): (r: Option<Struct>)
    requires SpecWellFormed(spec)
    ensures r.Some? <==> IsExportedStruct(spec)
    ensures r.Some? ==>
              && r.value.name == spec.name
              && r.value.source == JoinImport(d, sep, path)
              && r.value.path == basePath
              && r.value.imports == map[]
  {
    if IsExportedStruct(spec) then Some(MakeStruct(AsWritten, d, sep, path, basePath, map[], spec))
    else None
  }

  /**
   * As written, every reference of a visited struct has an empty import path
   * and directory: the lookup goes to a map that is never filled.
   */
  lemma VisitedReferencesAreBlank(d: GoModule, sep: char, path: string, basePath: string, spec: TypeSpec)
    requires SpecWellFormed(spec)
    ensures var r := VisitTypeSpec(d, sep, path, basePath, spec);
            r.Some? ==> forall ref :: ref in r.value.refs ==> ref.source == "" && ref.path == ""
  {
    if IsExportedStruct(spec) {
      ReferencesComeFromFields(AsWritten, spec.body.fields, map[]);
    }
  }

  // ---------------------------------------------------------------------------
  // Wrapped field types
  // ---------------------------------------------------------------------------

  /** One layer around a field type: a pointer, an array or slice, or a map with the given key. */
  datatype Wrapper = Pointer | Slice(len: Option<Expr>) | MapOf(key: Expr)

  /** `x` inside the layers `ws`, the first layer outermost. */
  function Wrap(ws: seq<Wrapper>, x: Expr): Expr
    decreases |ws|
  {
    if |ws| == 0 then x
    else
      var inner := Wrap(ws[1..], x);
      match ws[0]
      case Pointer => StarExpr(inner)
      case Slice(len) => ArrayType(len, inner)
      case MapOf(k) => MapType(k, inner)
  }

  /**
   * Unwrapping sees through every layer: a `[]*p.T` field and a `p.T` field
   * name the same package alias and type.
   */
  lemma {:induction false} UnwrappedThroughLayers(ws: seq<Wrapper>, x: Expr)
    requires WellFormed(x)
    requires forall i :: 0 <= i < |ws| ==> ws[i].MapOf? ==> WellFormed(ws[i].key)
    ensures WellFormed(Wrap(ws, x))
    ensures QualifiedName(Wrap(ws, x)) == QualifiedName(x)
    decreases |ws|
  {
    if |ws| > 0 {
      assert forall i :: 1 <= i < |ws| ==> ws[1..][i - 1] == ws[i];
      UnwrappedThroughLayers(ws[1..], x);
    }
  }

  /** Interface, function and channel fields never yield a reference, under either rule. */
  lemma OpaqueFieldsYieldNothing(rule: FieldRule, e: Expr, imports: map<string, StructPath>)
    requires e.InterfaceType? || e.FuncType? || e.ChanType?
    ensures RefOf(rule, e, imports).None?
  {
  }

  /**
   * As written, a slice field `[]p.T` renders as `[]p.T`, so the package
   * alias looked up is `[]p`, not `p`; unwrapping looks up `p`.
   */
  lemma SliceKeepsBrackets(p: string, t: string, imports: map<string, StructPath>)
    requires '.' !in p && '.' !in t
    ensures var e := ArrayType(None, SelectorExpr(Ident(p), t));
            && FieldReference(Render(e), imports).Some?
            && FieldReference(Render(e), imports).value.source == Lookup(imports, "[]" + p).importPath
            && FieldReference(Render(e), imports).value.name == t
            && QualifiedName(e) == Some((p, t))
  {
    var rendered := "[]" + p + "." + t;
    assert Render(ArrayType(None, SelectorExpr(Ident(p), t))) == rendered;
    assert rendered[|"[]" + p|] == '.';
    assert '.' in rendered;
    assert UpTo(rendered, '.') == "[]" + p by {
      assert '.' !in "[]" + p;
      assert rendered[..|"[]" + p|] == "[]" + p;
    }
    assert After(rendered, '.') == t;
  }

  /** `map[p.K]q.V` renders as the text before its first dot, the dot, and the rest. */
  lemma MapOfSelectorsRendering(p: string, k: string, q: string, v: string)
    ensures Render(MapType(SelectorExpr(Ident(p), k), SelectorExpr(Ident(q), v)))
              == ("map[" + p) + "." + (k + "]" + q + "." + v)
  {
    assert Render(SelectorExpr(Ident(p), k)) == p + "." + k;
    assert Render(SelectorExpr(Ident(q), v)) == q + "." + v;
  }

  /**
   * As written, a map field `map[p.K]q.V` is split at its first dot, so the
   * referenced name is `K]q` and the alias looked up is `map[p`.
   */
  lemma MapKeyCapturesName(p: string, k: string, q: string, v: string, imports: map<string, StructPath>)
    requires '.' !in p && '.' !in k && '.' !in q
    ensures var e := MapType(SelectorExpr(Ident(p), k), SelectorExpr(Ident(q), v));
            && WellFormed(e)
            && FieldReference(Render(e), imports).Some?
            && FieldReference(Render(e), imports).value.name == k + "]" + q
            && FieldReference(Render(e), imports).value.source == Lookup(imports, "map[" + p).importPath
            && QualifiedName(e) == Some((q, v))
  {
    var head := "map[" + p;
    var tail := k + "]" + q + "." + v;
    var rendered := head + "." + tail;
    MapOfSelectorsRendering(p, k, q, v);
    assert '.' !in head && '.' !in k + "]" + q;
    FirstSeparator(head, '.', tail);
    FirstSeparator(k + "]" + q, '.', v);
  }

  // ---------------------------------------------------------------------------
  // One source file
  // ---------------------------------------------------------------------------

  /** The declarations of a file that the visitor reacts to, in walk order. */
  datatype Node = ImportNode(importSpec: ImportSpec) | TypeNode(typeSpec: TypeSpec) | OtherNode

  datatype SourceFile = SourceFile(packageName: string, nodes: seq<Node>)

  /** What the parser gives back for one file. */
  datatype ParseOutcome = ParseFailure(msg: string) | Parsed(file: SourceFile)

  /** Every type declaration of the file can be visited without panicking. */
  predicate NodesWellFormed(nodes: seq<Node>) {
    forall i :: 0 <= i < |nodes| ==> nodes[i].TypeNode? ==> SpecWellFormed(nodes[i].typeSpec)
  }

  /** Node `i` declares an exported struct. */
  predicate DeclaresExported(nodes: seq<Node>, i: int)
    requires NodesWellFormed(nodes)
  {
    0 <= i < |nodes| && nodes[i].TypeNode? && IsExportedStruct(nodes[i].typeSpec)
  }

  /** Dropping the first node shifts every exported declaration after it down by one. */
  lemma DeclaresExportedShift(nodes: seq<Node>)
    requires NodesWellFormed(nodes) && |nodes| > 0
    ensures NodesWellFormed(nodes[1..])
    ensures forall i :: DeclaresExported(nodes, i) && i > 0 ==>
              DeclaresExported(nodes[1..], i - 1) && nodes[1..][i - 1] == nodes[i]
    ensures forall j :: DeclaresExported(nodes[1..], j) ==> DeclaresExported(nodes, j + 1) && nodes[j + 1] == nodes[1..][j]
  {
  }

  /** The records the visitor builds while walking the file, in walk order. */
  function Visited(d: GoModule, sep: char, path: string, basePath: string, nodes: seq<Node>): (r: seq<Struct>)
    requires NodesWellFormed(nodes)
    ensures |r| <= |nodes|
    ensures forall i :: DeclaresExported(nodes, i) ==> |r| > 0
    decreases |nodes|
  {
    if |nodes| == 0 then []
    else
      var rest := Visited(d, sep, path, basePath, nodes[1..]);
      assert forall i :: DeclaresExported(nodes, i) && i > 0 ==> DeclaresExported(nodes[1..], i - 1);
      match nodes[0]
      case TypeNode(spec) =>
        (match VisitTypeSpec(d, sep, path, basePath, spec)
         case Some(s) => [s] + rest
         case None => rest)
      case _ => rest
  }

  /** Every exported struct declaration of the file has the visitor's record among the visited ones. */
  lemma {:induction false} ExportedAreVisited(d: GoModule, sep: char, path: string, basePath: string,
                                              nodes: seq<Node>, i: int)
    requires NodesWellFormed(nodes)
    requires DeclaresExported(nodes, i)
    ensures VisitTypeSpec(d, sep, path, basePath, nodes[i].typeSpec).value in Visited(d, sep, path, basePath, nodes)
    decreases |nodes|
  {
    if i > 0 {
      DeclaresExportedShift(nodes);
      ExportedAreVisited(d, sep, path, basePath, nodes[1..], i - 1);
    }
  }

  /** Every visited record is the one the visitor builds for an exported struct declaration of the file. */
  lemma {:induction false} VisitedAreExported(d: GoModule, sep: char, path: string, basePath: string,
                                              nodes: seq<Node>, s: Struct)
    requires NodesWellFormed(nodes)
    requires s in Visited(d, sep, path, basePath, nodes)
    ensures exists i :: DeclaresExported(nodes, i) && VisitTypeSpec(d, sep, path, basePath, nodes[i].typeSpec) == Some(s)
    decreases |nodes|
  {
    DeclaresExportedShift(nodes);
    var rest := Visited(d, sep, path, basePath, nodes[1..]);
    if s in rest {
      VisitedAreExported(d, sep, path, basePath, nodes[1..], s);
      var j :| DeclaresExported(nodes[1..], j) && VisitTypeSpec(d, sep, path, basePath, nodes[1..][j].typeSpec) == Some(s);
      assert DeclaresExported(nodes, j + 1);
    } else {
      assert DeclaresExported(nodes, 0);
    }
  }

  /**
   * `getStructsFromFile`, as written: a parse failure is an error, a `main`
   * package yields nothing, and otherwise the walk builds its records but the
   * result list is never appended to, so the file yields nothing either.
   */
  function StructsFromFile(d: GoModule, sep: char, path: string, basePath: string, parsed: ParseOutcome)
    : (r: Result<seq<Struct>>)
    requires parsed.Parsed? ==> NodesWellFormed(parsed.file.nodes)
    ensures r.Err? <==> parsed.ParseFailure?
    ensures r.Ok? ==> r.value == []
  {
    match parsed
    case ParseFailure(msg) => Err(msg)
    case Parsed(f) =>
      if f.packageName == "main" then Ok([])
      else
        var dropped := Visited(d, sep, path, basePath, f.nodes);
        Ok([])
  }

  /** The binding an import declaration adds to the file's map, keyed by alias. */
  function Binding(d: GoModule, spec: ImportSpec, join: (string, string) -> string): (string, StructPath) {
    var b := GetImportsQualified(d, spec, join);
    (b.alias, StructPath(b.absPath, b.importPath))
  }

  /** The file's import map after its declarations in order, a later alias overriding an earlier one. */
  function CollectImports(d: GoModule, join: (string, string) -> string, nodes: seq<Node>): map<string, StructPath>
    decreases |nodes|
  {
    if |nodes| == 0 then map[]
    else
      var m := CollectImports(d, join, nodes[..|nodes| - 1]);
      match nodes[|nodes| - 1]
      case ImportNode(spec) =>
        var (alias, sp) := Binding(d, spec, join);
        m[alias := sp]
      case _ => m
  }

  /** The latest import declaration among `nodes` that binds `alias`, found from the end. */
  function LastBinding(d: GoModule, join: (string, string) -> string, nodes: seq<Node>, alias: string)
    : Option<StructPath>
    decreases |nodes|
  {
    if |nodes| == 0 then None
    else
      var last := nodes[|nodes| - 1];
      if last.ImportNode? && Binding(d, last.importSpec, join).0 == alias then
        Some(Binding(d, last.importSpec, join).1)
      else LastBinding(d, join, nodes[..|nodes| - 1], alias)
  }

  /** The collected map binds an alias exactly as its latest import declaration does. */
  lemma {:induction false} CollectedIsLastBinding(d: GoModule, join: (string, string) -> string, nodes: seq<Node>, alias: string)
    ensures alias in CollectImports(d, join, nodes) <==> LastBinding(d, join, nodes, alias).Some?
    ensures alias in CollectImports(d, join, nodes) ==>
              CollectImports(d, join, nodes)[alias] == LastBinding(d, join, nodes, alias).value
    decreases |nodes|
  {
    if |nodes| > 0 {
      CollectedIsLastBinding(d, join, nodes[..|nodes| - 1], alias);
    }
  }

  /** The records of a file's exported structs, fields resolved through `imports` by unwrapping. */
  function DeclaredStructs(d: GoModule, sep: char, path: string, basePath: string,
                           imports: map<string, StructPath>, nodes: seq<Node>): (r: seq<Struct>)
    requires NodesWellFormed(nodes)
    ensures forall s :: s in r ==> s.source == JoinImport(d, sep, path) && s.path == basePath && s.imports == imports
    decreases |nodes|
  {
    if |nodes| == 0 then []
    else
      var rest := DeclaredStructs(d, sep, path, basePath, imports, nodes[1..]);
      match nodes[0]
      case TypeNode(spec) =>
        if IsExportedStruct(spec) then [MakeStruct(Unwrapped, d, sep, path, basePath, imports, spec)] + rest
        else rest
      case _ => rest
  }

  /** Every exported struct declaration of the file has its record among the declared ones. */
  lemma {:induction false} ExportedAreDeclared(d: GoModule, sep: char, path: string, basePath: string,
                                               imports: map<string, StructPath>, nodes: seq<Node>, i: int)
    requires NodesWellFormed(nodes)
    requires DeclaresExported(nodes, i)
    ensures MakeStruct(Unwrapped, d, sep, path, basePath, imports, nodes[i].typeSpec)
              in DeclaredStructs(d, sep, path, basePath, imports, nodes)
    decreases |nodes|
  {
    if i > 0 {
      assert DeclaresExported(nodes[1..], i - 1);
      ExportedAreDeclared(d, sep, path, basePath, imports, nodes[1..], i - 1);
    }
  }

  /** Every declared record is the one built from an exported struct declaration of the file. */
  lemma {:induction false} DeclaredAreExported(d: GoModule, sep: char, path: string, basePath: string,
                                               imports: map<string, StructPath>, nodes: seq<Node>, s: Struct)
    requires NodesWellFormed(nodes)
    requires s in DeclaredStructs(d, sep, path, basePath, imports, nodes)
    ensures exists i :: DeclaresExported(nodes, i) &&
              s == MakeStruct(Unwrapped, d, sep, path, basePath, imports, nodes[i].typeSpec)
    decreases |nodes|
  {
    DeclaresExportedShift(nodes);
    var rest := DeclaredStructs(d, sep, path, basePath, imports, nodes[1..]);
    if s in rest {
      DeclaredAreExported(d, sep, path, basePath, imports, nodes[1..], s);
      var i :| DeclaresExported(nodes[1..], i) &&
               s == MakeStruct(Unwrapped, d, sep, path, basePath, imports, nodes[1..][i].typeSpec);
      assert DeclaresExported(nodes, i + 1);
    } else {
      assert DeclaresExported(nodes, 0);
    }
  }


  /**
   * `getStructsFromFile` as evidently intended: the records of the file's
   * exported structs are returned, with field references resolved through
   * the file's own imports.
   */
  function ExtractStructs(d: GoModule, sep: char, path: string, basePath: string,
                          join: (string, string) -> string, parsed: ParseOutcome): (r: Result<seq<Struct>>)
    requires parsed.Parsed? ==> NodesWellFormed(parsed.file.nodes)
    ensures r.Err? <==> parsed.ParseFailure?
    ensures r.Ok? && parsed.file.packageName == "main" ==> r.value == []
    ensures r.Ok? ==> forall s :: s in r.value ==> s.source == JoinImport(d, sep, path)
  {
    match parsed
    case ParseFailure(msg) => Err(msg)
    case Parsed(f) =>
      if f.packageName == "main" then Ok([])
      else Ok(DeclaredStructs(d, sep, path, basePath, CollectImports(d, join, f.nodes), f.nodes))
  }

  /**
   * A file declaring an exported struct yields nothing as written, while the
   * intended extraction returns that struct's record.
   */
  lemma DeclaredStructsAreDropped(d: GoModule, sep: char, path: string, basePath: string,
                                  join: (string, string) -> string, f: SourceFile, i: int)
    requires f.packageName != "main" && NodesWellFormed(f.nodes)
    requires DeclaresExported(f.nodes, i)
    ensures var r := ExtractStructs(d, sep, path, basePath, join, Parsed(f));
            && StructsFromFile(d, sep, path, basePath, Parsed(f)) == Ok([])
            && r.Ok? && exists s :: s in r.value && s.name == f.nodes[i].typeSpec.name
  {
    var imports := CollectImports(d, join, f.nodes);
    ExportedAreDeclared(d, sep, path, basePath, imports, f.nodes, i);
  }

  /**
   * In the intended extraction, a field naming `alias.Name` (under any
   * pointers, slices and map values) refers to the package the file's latest
   * import of `alias` resolves to.
   */
  lemma ReferencesFollowFileImports(d: GoModule, sep: char, path: string, basePath: string,
                                    join: (string, string) -> string, f: SourceFile, i: int, field: Expr)
    requires f.packageName != "main" && NodesWellFormed(f.nodes)
    requires DeclaresExported(f.nodes, i)
    requires field in f.nodes[i].typeSpec.body.fields
    requires WellFormed(field) && QualifiedName(field).Some?
    requires LastBinding(d, join, f.nodes, QualifiedName(field).value.0).Some?
    ensures var r := ExtractStructs(d, sep, path, basePath, join, Parsed(f));
            var sp := LastBinding(d, join, f.nodes, QualifiedName(field).value.0).value;
            r.Ok? && exists s, ref :: s in r.value && s.name == f.nodes[i].typeSpec.name && ref in s.refs
                                        && ref.source == sp.importPath && ref.path == sp.absPath
                                        && ref.name == QualifiedName(field).value.1
  {
    var imports := CollectImports(d, join, f.nodes);
    var spec := f.nodes[i].typeSpec;
    var s := MakeStruct(Unwrapped, d, sep, path, basePath, imports, spec);
    ExportedAreDeclared(d, sep, path, basePath, imports, f.nodes, i);
    CollectedIsLastBinding(d, join, f.nodes, QualifiedName(field).value.0);
    FieldsAreReferenced(Unwrapped, spec.body.fields, imports);
    var ref := RefOf(Unwrapped, field, imports).value;
    assert ref in s.refs;
  }

  /**
   * Corrected, a field `seg.Name` in a file whose only import is the unnamed
   * `module/seg` refers to `Name` in that package: the import binds `seg`.
   */
  lemma SingleSegmentImportResolves(d: GoModule, seg: string, name: string, join: (string, string) -> string)
    requires '"' !in d.modulePath && '"' !in seg && '/' !in seg
    ensures var imports := CollectImports(d, join, [ImportNode(ImportSpec(None, Quote(d.modulePath + "/" + seg)))]);
            var r := RefOf(Unwrapped, SelectorExpr(Ident(seg), name), imports);
            && r.Some?
            && r.value.source == d.modulePath + "/" + seg
            && r.value.path == join(d.root, "/" + seg)
            && r.value.name == name
  {
    assert QualifiedName(SelectorExpr(Ident(seg), name)) == Some((seg, name));
    var spec := ImportSpec(None, Quote(d.modulePath + "/" + seg));
    SingleSegmentTakesSegment(d, seg, join);
    var sp := StructPath(join(d.root, "/" + seg), d.modulePath + "/" + seg);
    assert Binding(d, spec, join) == (seg, sp);
    OneImportMap(d, join, spec);
  }

  /** A file with a single import declaration maps exactly the alias it binds. */
  lemma OneImportMap(d: GoModule, join: (string, string) -> string, spec: ImportSpec)
    ensures CollectImports(d, join, [ImportNode(spec)]) == map[Binding(d, spec, join).0 := Binding(d, spec, join).1]
  {
    assert [ImportNode(spec)][..0] == [];
  }

  /** A file in directories `dirs` below the root gets the module path followed by those directories. */
  lemma DeclaredImportPath(d: GoModule, sep: char, dirs: seq<string>, name: string)
    requires |dirs| > 0 && sep !in name
    requires forall i :: 0 <= i < |dirs| ==> sep !in dirs[i]
    ensures JoinImport(d, sep, d.root + [sep] + Join(dirs + [name], [sep])) == d.modulePath + "/" + Join(dirs, "/")
  {
    var filename := d.root + [sep] + Join(dirs + [name], [sep]);
    RelativeOfRooted(d, sep, Join(dirs + [name], [sep]));
    DirSegmentsOf(d, sep, filename, dirs, name);
  }


  /**
   * A package below the module root is known under one import path: the
   * path `joinImport` gives a file in its directory. Resolving an import of
   * that package as written records only the part after the module path;
   * keeping the path whole records the same path as the declaring file.
   */
  lemma ImportPathOfPackage(d: GoModule, sep: char, dirs: seq<string>, name: string, join: (string, string) -> string)
    requires |dirs| > 0 && sep !in name
    requires forall i :: 0 <= i < |dirs| ==> sep !in dirs[i] && '"' !in dirs[i]
    requires '"' !in d.modulePath
    ensures var pkg := d.modulePath + "/" + Join(dirs, "/");
            var declared := JoinImport(d, sep, d.root + [sep] + Join(dirs + [name], [sep]));
            var spec := ImportSpec(None, Quote(pkg));
            && declared == pkg
            && GetImportsQualified(d, spec, join).importPath == declared
            && GetImports(d, spec, join).importPath == "/" + Join(dirs, "/")
  {
    DeclaredImportPath(d, sep, dirs, name);
    QuoteFreeJoin(dirs);
    ModuleDroppedAsWritten(d, Join(dirs, "/"), join);
    QualifiedKeepsModule(d, Join(dirs, "/"), join);
  }


  /** Quote-free segments join to a quote-free path. */
  lemma {:induction false} QuoteFreeJoin(parts: seq<string>)
    requires forall i :: 0 <= i < |parts| ==> '"' !in parts[i]
    ensures '"' !in Join(parts, "/")
    decreases |parts|
  {
    if |parts| > 1 {
      QuoteFreeJoin(parts[1..]);
    }
  }
}
