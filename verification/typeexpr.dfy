/**
 * Field type expressions and their rendering to text (`getExprType` in api.go).
 * Only the node kinds the renderer distinguishes are kept; every other node is
 * `OtherExpr`, carrying the text that Go's `%v` formatting would give it.
 */
module TypeExpr {
  import opened Optional

  datatype Expr =
    | InterfaceType
    | FuncType
    | ChanType
      /** `[len]elt`, or `[]elt` for a slice (`len` is None). */
    | ArrayType(len: Option<Expr>, elt: Expr)
    | MapType(key: Expr, value: Expr)
      /** `x.sel`, a package-qualified name. */
    | SelectorExpr(x: Expr, sel: string)
    | Ident(name: string)
    | StarExpr(x: Expr)
    | OtherExpr(printed: string)

  /**
   * Every selector that rendering reaches has an identifier on its left; on any
   * other base the renderer's type assertion panics.
   */
  predicate WellFormed(e: Expr) {
    match e
    case ArrayType(_, elt) => WellFormed(elt)
    case MapType(k, v) => WellFormed(k) && WellFormed(v)
    case SelectorExpr(x, _) => x.Ident?
    case StarExpr(x) => WellFormed(x)
    case _ => true
  }

  /**
   * A structural reading of where a `'.'` can come from: a selector anywhere
   * under pointers, arrays and maps, or a dot inside a name or printed node.
   */
  predicate MentionsDot(e: Expr) {
    match e
    case InterfaceType => false
    case FuncType => false
    case ChanType => false
    case ArrayType(_, elt) => MentionsDot(elt)
    case MapType(k, v) => MentionsDot(k) || MentionsDot(v)
    case SelectorExpr(_, _) => true
    case Ident(n) => '.' in n
    case StarExpr(x) => MentionsDot(x)
    case OtherExpr(p) => '.' in p
  }

  /**
   * The text `getExprType` produces for a field type. It contains a dot
   * exactly when the expression mentions one, which is what lets the dot
   * rule tell qualified names from local ones.
   */
  function Render(e: Expr): (r: string)
    requires WellFormed(e)
    ensures '.' in r <==> MentionsDot(e)
  {
    match e
    case InterfaceType => assert '.' !in "interface{}"; "interface{}"
    case FuncType => ""
    case ChanType => ""
    case ArrayType(_, elt) => assert '.' !in "[]"; "[]" + Render(elt)
    case MapType(k, v) => assert '.' !in "map[" && '.' !in "]"; "map[" + Render(k) + "]" + Render(v)
    case SelectorExpr(x, sel) => assert (x.name + "." + sel)[|x.name|] == '.'; x.name + "." + sel
    case Ident(n) => n
    case StarExpr(x) => Render(x)
    case OtherExpr(p) => p
  }

  /** `n` pointer stars in front of `x`. */
  function Stars(n: nat, x: Expr): Expr {
    if n == 0 then x else StarExpr(Stars(n - 1, x))
  }

  /** Pointers are transparent: any number of stars renders as the target alone. */
  lemma {:induction false} StarsTransparent(n: nat, x: Expr)
    requires WellFormed(x)
    ensures WellFormed(Stars(n, x))
    ensures Render(Stars(n, x)) == Render(x)
  {
    if n > 0 {
      StarsTransparent(n - 1, x);
    }
  }

  /**
   * An array renders the same with or without a length, as `[]` followed by
   * its element, so arrays and slices are not told apart; a map renders as
   * `map[K]V`.
   */
  lemma ContainerRendering(len: Option<Expr>, elt: Expr, k: Expr, v: Expr)
    requires WellFormed(elt) && WellFormed(k) && WellFormed(v)
    ensures Render(ArrayType(len, elt)) == Render(ArrayType(None, elt)) == "[]" + Render(elt)
    ensures Render(MapType(k, v)) == "map[" + Render(k) + "]" + Render(v)
  {
  }

  /** A qualified name renders as `pkg.Name`; a bare identifier as its own name. */
  lemma NameRendering(pkg: string, sel: string, name: string)
    ensures Render(SelectorExpr(Ident(pkg), sel)) == pkg + "." + sel
    ensures Render(Ident(name)) == name
  {
  }

  /** Interfaces, functions and channels render without a dot. */
  lemma OpaqueKindsHaveNoDot(e: Expr)
    requires e.InterfaceType? || e.FuncType? || e.ChanType?
    ensures '.' !in Render(e)
  {
  }
}
