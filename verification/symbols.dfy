/**
 * The record the scanner builds for every exported struct it meets (`_struct`
 * in api.go), seen through the `Struct` interface: Import() is `source`,
 * String() is `name`, AbsPath() is `path` and References() is `refs`.
 */
module Symbols {

  /** Where an imported package lives: on disk and as an import path. */
  datatype StructPath = StructPath(absPath: string, importPath: string)

  datatype Struct = Struct(
    imports: map<string, StructPath>,
    source: string,
    name: string,
    path: string,
    refs: seq<Struct>)

  /** Go's map index: a missing key reads as the zero value. */
  function Lookup(m: map<string, StructPath>, key: string): (r: StructPath)
    ensures key in m ==> r == m[key]
    ensures key !in m ==> r.absPath == "" && r.importPath == ""
  {
    if key in m then m[key] else StructPath("", "")
  }
}
