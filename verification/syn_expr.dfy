/** The part of syn's expression syntax the prototype parsers inspect:
    paths, calls, assignments, string literals, and everything else kept as
    its token text. Token-level parsing and printing are not modelled; an
    attribute reaches the parsers as the list of its argument
    expressions. */
module SynExpr {
  import Text
  import opened Outcome

  datatype Expr =
    | Path(segments: seq<string>)
    | Call(func: Expr, args: seq<Expr>)
    | Assign(left: Expr, right: Expr)
    | StrLit(value: string)
    | Other(text: string)

  /** A path made of one identifier: what `Path::get_ident` accepts. */
  predicate IsIdent(e: Expr) {
    e.Path? && |e.segments| == 1
  }

  /** `expr_ident_opt`: the identifier of a single-segment path. */
  function ExprIdentOpt(e: Expr): (r: Option<string>)
    ensures r.Some? <==> IsIdent(e)
    ensures r.Some? ==> e == Path([r.value])
  {
    if IsIdent(e) then Some(e.segments[0]) else None
  }

  /** Token text of an expression, as `quote!{#expr}.to_string()` prints
      it: tokens separated by single spaces. */
  function ToString(e: Expr): string
    decreases e
  {
    match e
    case Path(segs) => Text.Join(segs, " :: ")
    case Call(f, args) => ToString(f) + " (" + ListToString(args) + ")"
    case Assign(l, r) => ToString(l) + " = " + ToString(r)
    case StrLit(v) => "\"" + v + "\""
    case Other(t) => t
  }

  function ListToString(es: seq<Expr>): string
    decreases es
  {
    if es == [] then ""
    else if |es| == 1 then ToString(es[0])
    else ToString(es[0]) + " , " + ListToString(es[1..])
  }

  /** The text of an identifier path is the identifier. */
  lemma IdentToString(name: string)
    ensures ToString(Path([name])) == name
  {
    assert Text.Join([name], " :: ") == name;
  }
}
