/** Splitting the item a `#[safety]` attribute is applied to into its outer
    attributes and the rest, so generated documentation can be placed after
    the existing attributes. The syntax tree is reduced to the statement and
    item/expression kind plus the attribute list; everything else is a
    token list. */
module SplitAttrs {
  import opened Tokens

  /** An outer attribute `#[body]`. */
  datatype Attr = Attr(body: seq<Token>)

  datatype ItemKind =
    | Const | Enum | ExternCrate | Fn | ForeignMod | Impl | ItemMacro | Mod
    | Static | Struct | Trait | TraitAlias | Type | Union | Use | ItemVerbatim

  datatype ExprKind =
    | Array | Assign | Async | Await | Binary | Block | Break | Call | Cast
    | Closure | ExprConst | Continue | Field | ForLoop | ExprGroup | If | Index
    | Infer | Let | Lit | Loop | ExprMacro | Match | MethodCall | ExprParen | Path
    | Range | RawAddr | Reference | Repeat | Return | ExprStruct | Try | TryBlock
    | Tuple | Unary | Unsafe | ExprVerbatim | While | Yield

  /** A statement: its outer attributes and the tokens after them. An
      expression statement's `;` is kept apart from the expression. */
  datatype Stmt =
    | Local(attrs: seq<Attr>, body: seq<Token>)
    | Item(item: ItemKind, attrs: seq<Attr>, body: seq<Token>)
    | Expr(expr: ExprKind, attrs: seq<Attr>, body: seq<Token>, semi: bool)
    | Macro(attrs: seq<Attr>, body: seq<Token>)

  /** The macro input: either it parses as a statement, or it does not. */
  datatype Source = Parsed(stmt: Stmt) | Unparsed(tokens: seq<Token>)

  datatype Input = Input(attrs: seq<Token>, rest: seq<Token>, genDoc: bool)

  function AttrTokens(attrs: seq<Attr>): (ts: seq<Token>)
    ensures attrs != [] ==> ts != [] && ts[0] == Punct('#')
    ensures attrs == [] ==> ts == []
  {
    if attrs == [] then []
    else [Punct('#'), Group(Bracket, attrs[0].body)] + AttrTokens(attrs[1..])
  }

  function SemiTokens(stmt: Stmt): seq<Token> {
    if stmt.Expr? && stmt.semi then [Punct(';')] else []
  }

  /** The token stream of a statement, as the macro receives it. */
  function Print(src: Source): seq<Token> {
    match src
    case Unparsed(ts) => ts
    case Parsed(stmt) => AttrTokens(stmt.attrs) + stmt.body + SemiTokens(stmt)
  }

  /** The item kinds whose attributes are moved out. */
  predicate ItemMovesAttrs(k: ItemKind) {
    k == Fn || k == Impl || k == Trait
  }

  /** The expression kinds whose attributes are moved out. */
  predicate ExprMovesAttrs(k: ExprKind) {
    k !in {Binary, Cast, Field, ExprGroup, Index, Infer, Lit, ExprParen, Range, RawAddr,
           Reference, Tuple, Unary, ExprVerbatim}
  }

  predicate MovesAttrs(stmt: Stmt) {
    match stmt
    case Local(_, _) => true
    case Macro(_, _) => true
    case Item(k, _, _) => ItemMovesAttrs(k)
    case Expr(k, _, _, _) => ExprMovesAttrs(k)
  }

  /** `parse_item`: attributes of fns, impls and traits are moved out, and
      documentation is generated for every item. */
  function ParseItem(k: ItemKind, attrs: seq<Attr>, body: seq<Token>): (r: Input)
    ensures r.genDoc
    ensures ItemMovesAttrs(k) ==> r.attrs == AttrTokens(attrs) && r.rest == body
    ensures !ItemMovesAttrs(k) ==> r.attrs == [] && r.rest == AttrTokens(attrs) + body
  {
    if ItemMovesAttrs(k) then Input(AttrTokens(attrs), body, true)
    else Input([], AttrTokens(attrs) + body, true)
  }

  /** `parse_expr`: attributes of the listed expression kinds are moved out;
      the statement's `;` is not part of the expression and is dropped. */
  function ParseExpr(k: ExprKind, attrs: seq<Attr>, body: seq<Token>): (r: Input)
    ensures !r.genDoc
    ensures ExprMovesAttrs(k) ==> r.attrs == AttrTokens(attrs) && r.rest == body
    ensures !ExprMovesAttrs(k) ==> r.attrs == [] && r.rest == AttrTokens(attrs) + body
  {
    if ExprMovesAttrs(k) then Input(AttrTokens(attrs), body, false)
    else Input([], AttrTokens(attrs) + body, false)
  }

  /** `split_attrs_and_rest`. */
  function SplitAttrsAndRest(src: Source): (r: Input)
    ensures src.Unparsed? ==> r == Input([], src.tokens, false)
    ensures r.genDoc <==> src.Parsed? && src.stmt.Item?
    ensures src.Parsed? && MovesAttrs(src.stmt) ==> r.attrs == AttrTokens(src.stmt.attrs)
    ensures src.Parsed? && !MovesAttrs(src.stmt) ==> r.attrs == []
  {
    match src
    case Unparsed(ts) => Input([], ts, false)
    case Parsed(stmt) =>
      match stmt
      case Local(attrs, body) => Input(AttrTokens(attrs), body, false)
      case Item(k, attrs, body) => ParseItem(k, attrs, body)
      case Expr(k, attrs, body, _) => ParseExpr(k, attrs, body)
      case Macro(attrs, body) => Input(AttrTokens(attrs), body, false)
  }

  /** Nothing is lost or reordered: the attributes followed by the rest are
      the input again, except for the `;` of an expression statement. */
  lemma SplitKeepsTokens(src: Source)
    ensures var r := SplitAttrsAndRest(src);
      src.Parsed? ==> r.attrs + r.rest + SemiTokens(src.stmt) == Print(src)
    ensures src.Unparsed? ==> SplitAttrsAndRest(src).attrs + SplitAttrsAndRest(src).rest == Print(src)
  {
  }

  /** An attributed `unsafe fn` gives its attributes back. */
  lemma AttributedFnHasAttrs(a: Attr, more: seq<Attr>, body: seq<Token>)
    ensures var r := SplitAttrsAndRest(Parsed(Item(Fn, [a] + more, body)));
      r.attrs != [] && r.attrs[0] == Punct('#') && r.genDoc
  {
  }
}
