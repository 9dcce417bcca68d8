/**
 * The registry file's text (global.go): the package clause, one import line
 * and one `alias.Name` entry per discovered struct, in input order and
 * without deduplication.
 */
module Registry {
  import opened Optional
  import opened GoStrings
  import opened Symbols
  import opened GoMod

  /** The generator's input: the structs, the output file's name and the package to declare. */
  datatype Global = Global(structs: seq<Struct>, filename: string, packageName: string)

  /** `Package`: the package clause of the generated file. */
  function Package(g: Global): (r: string)
    ensures HasPrefix(r, "package ")
  {
    "package " + g.packageName
  }

  /** The declared package name can be read back from the clause. */
  lemma PackageRoundTrip(g: Global)
    ensures TrimPrefix(Package(g), "package ") == g.packageName
  {
    assert Package(g)[|"package "|..] == g.packageName;
  }

  /** An import path with a slash has at least two segments. */
  lemma TwoSegments(imp: string)
    requires '/' in imp
    ensures |Split(imp, '/')| >= 2
  {
    SplitCount(imp, '/');
    assert multiset(imp)['/'] > 0;
  }

  /**
   * The local alias of an import path: its last two `/`-segments written
   * together. The path must contain a slash; with none, the slice in the
   * generator starts at a negative index and panics.
   */
  function Alias(imp: string): (a: string)
    requires '/' in imp
    ensures '/' !in a
  {
    var strs := Split(imp, '/');
    TwoSegments(imp);
    SplitPiecesFree(imp, '/');
    var lastTwo := strs[|strs| - 2..];
    assert lastTwo == [strs[|strs| - 2], strs[|strs| - 1]];
    JoinPair(strs[|strs| - 2], strs[|strs| - 1], "");
    Join(lastTwo, "")
  }

  /** `a/b` gets the alias `ab`. */
  lemma AliasOfPair(a: string, b: string)
    requires '/' !in a && '/' !in b
    ensures Alias(a + "/" + b) == a + b
  {
    SplitNoSeparator(a, '/');
    SplitNoSeparator(b, '/');
    assert a + "/" + b == a + ['/'] + b;
    SplitAround(a, '/', b);
    assert Split(a + "/" + b, '/') == [a, b];
    JoinPair(a, b, "");
  }

  /** Whatever precedes them, the last two segments `a/b` give the alias `ab`. */
  lemma AliasOfLastTwo(pre: string, a: string, b: string)
    requires '/' !in a && '/' !in b
    ensures Alias(pre + "/" + a + "/" + b) == a + b
  {
    var tail := a + "/" + b;
    SplitNoSeparator(a, '/');
    SplitNoSeparator(b, '/');
    assert tail == a + ['/'] + b;
    SplitAround(a, '/', b);
    assert pre + "/" + a + "/" + b == pre + ['/'] + tail;
    SplitAround(pre, '/', tail);
    var whole := Split(pre, '/') + [a, b];
    assert Split(pre + "/" + a + "/" + b, '/') == whole;
    assert whole[|whole| - 2..] == [a, b];
    JoinPair(a, b, "");
  }

  /** The import line for one struct: alias, then the quoted import path. */
  function ImportLine(s: Struct): (r: string)
    requires '/' in s.source
    ensures HasPrefix(r, Alias(s.source) + " ")
    ensures TrimPrefix(r, Alias(s.source) + " ") == Quote(s.source)
  {
    Alias(s.source) + " " + Quote(s.source)
  }

  /** The registry entry for one struct: `alias.Name`. */
  function VarLine(s: Struct): (r: string)
    requires '/' in s.source
    ensures HasPrefix(r, Alias(s.source) + ".")
    ensures TrimPrefix(r, Alias(s.source) + ".") == s.name
  {
    Alias(s.source) + "." + s.name
  }

  /**
   * `ImportsAndVars`: position `i` of both lists belongs to struct `i`; equal
   * import paths give equal import lines, however often they occur.
   */
  method ImportsAndVars(g: Global) returns (imports: seq<string>, vars: seq<string>)
    requires forall i :: 0 <= i < |g.structs| ==> '/' in g.structs[i].source
    ensures |imports| == |g.structs| && |vars| == |g.structs|
    ensures forall i :: 0 <= i < |g.structs| ==> imports[i] == ImportLine(g.structs[i])
    ensures forall i :: 0 <= i < |g.structs| ==> vars[i] == VarLine(g.structs[i])
    ensures forall i, j :: 0 <= i < |g.structs| && 0 <= j < |g.structs| && g.structs[i] == g.structs[j] ==>
              imports[i] == imports[j] && vars[i] == vars[j]
  {
    imports := [];
    vars := [];
    var i := 0;
    while i < |g.structs|
      invariant 0 <= i <= |g.structs|
      invariant |imports| == i && |vars| == i
      invariant forall k :: 0 <= k < i ==> imports[k] == ImportLine(g.structs[k])
      invariant forall k :: 0 <= k < i ==> vars[k] == VarLine(g.structs[k])
    {
      var v := g.structs[i];
      var imp := v.source;
      var alias := Alias(imp);
      imports := imports + [alias + " " + Quote(imp)];
      vars := vars + [alias + "." + v.name];
      i := i + 1;
    }
  }

  /** `Vars`: the struct names, in input order. */
  method Vars(g: Global) returns (results: seq<string>)
    ensures |results| == |g.structs|
    ensures forall i :: 0 <= i < |g.structs| ==> results[i] == g.structs[i].name
  {
    results := [];
    var i := 0;
    while i < |g.structs|
      invariant 0 <= i <= |g.structs|
      invariant |results| == i
      invariant forall k :: 0 <= k < i ==> results[k] == g.structs[k].name
    {
      results := results + [g.structs[i].name];
      i := i + 1;
    }
  }

  /**
   * An emitted import line read back as an import declaration binds the
   * alias it states and, resolved with the path kept whole, the struct's
   * own import path.
   */
  lemma ImportLineResolves(d: GoModule, s: Struct, join: (string, string) -> string)
    requires '/' in s.source && '"' !in s.source && Alias(s.source) != ""
    ensures var spec := ImportSpec(Some(Alias(s.source)), Quote(s.source));
            && ImportLine(s) == spec.name.value + " " + spec.pathLit
            && GetImports(d, spec, join).alias == Alias(s.source)
            && GetImportsQualified(d, spec, join).importPath == s.source
  {
    ExplicitImport(d, Alias(s.source), s.source, join);
  }

  /**
   * A registry entry whose alias and name are free of dots, as every Go
   * identifier is, splits at its dot into the alias and the struct name.
   */
  lemma VarLineSplits(s: Struct)
    requires '/' in s.source && '.' !in Alias(s.source) && '.' !in s.name
    ensures Split(VarLine(s), '.') == [Alias(s.source), s.name]
  {
    SplitAround(Alias(s.source), '.', s.name);
    assert VarLine(s) == Alias(s.source) + ['.'] + s.name;
    SplitNoSeparator(Alias(s.source), '.');
    SplitNoSeparator(s.name, '.');
  }

  /** A Go identifier, over ASCII: a letter or `_`, then letters, digits and `_`. */
  predicate IsIdentifier(a: string) {
    && |a| > 0
    && !('0' <= a[0] <= '9')
    && forall i :: 0 <= i < |a| ==> ('a' <= a[i] <= 'z' || 'A' <= a[i] <= 'Z' || '0' <= a[i] <= '9' || a[i] == '_')
  }

  /** Three dot-free pieces joined by dots split back into those pieces. */
  lemma SplitThree(x: string, y: string, z: string)
    requires '.' !in x && '.' !in y && '.' !in z
    ensures Split(x + "." + y + "." + z, '.') == [x, y, z]
  {
    assert x + "." + y + "." + z == x + ['.'] + (y + ['.'] + z);
    SplitNoSeparator(x, '.');
    SplitNoSeparator(y, '.');
    SplitNoSeparator(z, '.');
    SplitAround(y, '.', z);
    SplitAround(x, '.', y + ['.'] + z);
  }

  /** A dot in the next-to-last segment carries into the alias, which is then no identifier. */
  lemma DottedSegmentAlias(a: string, b: string)
    requires '/' !in a && '/' !in b && '.' in a
    ensures Alias(a + "/" + b) == a + b
    ensures !IsIdentifier(Alias(a + "/" + b))
  {
    AliasOfPair(a, b);
    var i :| 0 <= i < |a| && a[i] == '.';
    assert (a + b)[i] == '.';
  }

  /**
   * A struct in the root package of a module `host.tld/app` gets the alias
   * `host.tldapp`, which is no identifier, and its entry splits into three
   * pieces instead of alias and name.
   */
  lemma DottedModuleEntry(s: Struct, host: string, tld: string, app: string)
    requires '/' !in host && '/' !in tld && '/' !in app
    requires '.' !in host && '.' !in tld && '.' !in app && '.' !in s.name
    requires s.source == host + "." + tld + "/" + app
    ensures Alias(s.source) == host + "." + tld + app
    ensures !IsIdentifier(Alias(s.source))
    ensures Split(VarLine(s), '.') == [host, tld + app, s.name]
  {
    var a := host + "." + tld;
    assert a[|host|] == '.';
    assert '/' !in a by {
      assert forall i :: 0 <= i < |a| ==> a[i] == if i < |host| then host[i] else if i == |host| then '.' else tld[i - |host| - 1];
    }
    DottedSegmentAlias(a, app);
    assert VarLine(s) == host + "." + (tld + app) + "." + s.name;
    SplitThree(host, tld + app, s.name);
  }

  /** The module `example.com/app` gives its root package the alias `example.comapp`, which is no identifier. */
  lemma RootPackageAlias(s: Struct)
    requires s.source == "example.com/app"
    ensures Alias(s.source) == "example.comapp"
    ensures !IsIdentifier(Alias(s.source))
  {
    var host, app := "example.com", "app";
    assert host[7] == '.';
    assert host + app == "example.comapp";
    assert host + "/" + app == s.source;
    DottedSegmentAlias(host, app);
  }

  /** The entry of `User` in the root package of `example.com/app` splits into three pieces. */
  lemma RootPackageEntry(s: Struct)
    requires s.source == "example.com/app" && s.name == "User"
    ensures Split(VarLine(s), '.') == ["example", "comapp", "User"]
  {
    var host, tld, app := "example", "com", "app";
    assert [host, tld + app, s.name] == ["example", "comapp", "User"] by {
      assert tld + app == "comapp";
    }
    assert host + "." + tld + "/" + app == s.source;
    DottedModuleEntry(s, host, tld, app);
  }

  /** A hyphen in one of the last two segments carries into the alias, which is then no identifier. */
  lemma HyphenSegmentAlias(s: Struct)
    requires s.source == "github.com/foo/go-bar"
    ensures Alias(s.source) == "foogo-bar"
    ensures !IsIdentifier(Alias(s.source))
  {
    var pre, a, b := "github.com", "foo", "go-bar";
    assert pre + "/" + a + "/" + b == s.source;
    AliasOfLastTwo(pre, a, b);
    assert (a + b)[5] == '-';
  }

  /** The registry entry of a `User` struct in `example.com/app/models`. */
  lemma ModelsUserEntry(s: Struct)
    requires s.source == "example.com/app/models" && s.name == "User"
    ensures VarLine(s) == "appmodels.User"
  {
    AliasOfLastTwo("example.com", "app", "models");
    assert "example.com" + "/" + "app" + "/" + "models" == s.source;
  }
}
