/** The properties of the driver's attribute parser: kinds and their
    tokens, the property names, the ordering of properties, and a property
    built from its components. Unlike the prototype parser's, a property
    here holds one expression: the call `Name(args)` itself. */
module DriverProperty {
  import O = Outcome
  import SynExpr
  import DP = DemoProperty

  type Expr = SynExpr.Expr

  /** Why a driver parser operation panics. */
  datatype Panic =
    | InvalidKind(token: string)
    | NotAPath(expr: Expr)
    | NotACall(expr: Expr)
    | UnsupportedName(ident: string)
    | ArgExists(arg: string)
    | PropertyExists(kind: Kind, name: PropertyName)
    | SingleProperty
    | NoKind
    | SingleMemo(memo: string)
    | NotAString(expr: Expr)

  // ---------------------------------------------------------------------
  // Kinds.

  datatype Kind = Precond | Hazard | Option | Memo

  /** The string literal a kind is written as. */
  function KindToken(k: Kind): string {
    match k
    case Precond => "precond"
    case Hazard => "hazard"
    case Option => "option"
    case Memo => "memo"
  }

  /** Position in the declaration, which the derived ordering follows. */
  function KindIndex(k: Kind): nat {
    match k
    case Precond => 0
    case Hazard => 1
    case Option => 2
    case Memo => 3
  }

  /** `Kind::new` as written: the `"memo"` arm yields `Option`. */
  function KindNewAsWritten(s: string): (r: O.Result<Kind, Panic>)
    ensures r.Ok? <==> s in {"precond", "hazard", "option", "memo"}
    ensures r.Ok? ==> r.value != Memo
    ensures r.Err? ==> r.error == InvalidKind(s)
  {
    match s
    case "precond" => O.Ok(Precond)
    case "hazard" => O.Ok(Hazard)
    case "option" => O.Ok(Option)
    case "memo" => O.Ok(Option)
    case _ => O.Err(InvalidKind(s))
  }

  /** The token of `Memo` reads back as a different kind. */
  lemma MemoReadsAsOption()
    ensures KindNewAsWritten(KindToken(Memo)) == O.Ok(Option)
    ensures KindToken(Option) != KindToken(Memo)
  {
  }

  /** `Kind::new` as its message describes it: the inverse of the tokens,
      a panic for anything else. */
  function KindNew(s: string): (r: O.Result<Kind, Panic>)
    ensures r.Ok? <==> s in {"precond", "hazard", "option", "memo"}
    ensures r.Ok? ==> KindToken(r.value) == s
    ensures r.Err? ==> r.error == InvalidKind(s)
  {
    match s
    case "precond" => O.Ok(Precond)
    case "hazard" => O.Ok(Hazard)
    case "option" => O.Ok(Option)
    case "memo" => O.Ok(Memo)
    case _ => O.Err(InvalidKind(s))
  }

  /** Every kind survives printing and reading back. */
  lemma KindRoundTrip(k: Kind)
    ensures KindNew(KindToken(k)) == O.Ok(k)
  {
  }

  /** Both readings agree on every token but `"memo"`. */
  lemma KindNewAgrees(s: string)
    requires s != "memo"
    ensures KindNewAsWritten(s) == KindNew(s)
  {
  }

  // ---------------------------------------------------------------------
  // Property names.

  datatype PropertyName =
    | Align | Size | NoPadding | NotNull | Allocated | InBound | NotOverlap
    | ValidNum | ValidString | ValidCStr | Init | Unwrap | Typed | Owning
    | Alias | Alive | Pinned | NotVolatile | Opened | Trait | Unreachable
    | Unknown

  /** Position in the declaration, which the derived ordering follows. */
  function NameIndex(p: PropertyName): nat {
    match p
    case Align => 0 case Size => 1 case NoPadding => 2 case NotNull => 3
    case Allocated => 4 case InBound => 5 case NotOverlap => 6 case ValidNum => 7
    case ValidString => 8 case ValidCStr => 9 case Init => 10 case Unwrap => 11
    case Typed => 12 case Owning => 13 case Alias => 14 case Alive => 15
    case Pinned => 16 case NotVolatile => 17 case Opened => 18 case Trait => 19
    case Unreachable => 20 case Unknown => 21
  }

  /** `to_str`. */
  function ToStr(p: PropertyName): string {
    match p
    case Align => "Align" case Size => "Size" case NoPadding => "NoPadding"
    case NotNull => "NotNull" case Allocated => "Allocated" case InBound => "InBound"
    case NotOverlap => "NotOverlap" case ValidNum => "ValidNum" case ValidString => "ValidString"
    case ValidCStr => "ValidCStr" case Init => "Init" case Unwrap => "Unwrap"
    case Typed => "Typed" case Owning => "Owning" case Alias => "Alias"
    case Alive => "Alive" case Pinned => "Pinned" case NotVolatile => "NotVolatile"
    case Opened => "Opened" case Trait => "Trait" case Unreachable => "Unreachable"
    case Unknown => "Unknown"
  }

  /** `PropertyName::new`: a name `to_str` produces is read back as itself,
      and every other string as `Unknown`. */
  function New(s: string): (r: PropertyName)
    ensures r != Unknown ==> ToStr(r) == s
  {
    match s
    case "Align" => Align case "Size" => Size case "NoPadding" => NoPadding
    case "NotNull" => NotNull case "Allocated" => Allocated case "InBound" => InBound
    case "NotOverlap" => NotOverlap case "ValidNum" => ValidNum case "ValidString" => ValidString
    case "ValidCStr" => ValidCStr case "Init" => Init case "Unwrap" => Unwrap
    case "Typed" => Typed case "Owning" => Owning case "Alias" => Alias
    case "Alive" => Alive case "Pinned" => Pinned case "NotVolatile" => NotVolatile
    case "Opened" => Opened case "Trait" => Trait case "Unreachable" => Unreachable
    case _ => Unknown
  }

  /** Every name survives printing and reading back. */
  lemma NameRoundTrip(p: PropertyName)
    ensures New(ToStr(p)) == p
  {
  }

  /** A string is read as a known name exactly when it is that name's text. */
  lemma NewRecognises(s: string)
    ensures New(s) != Unknown <==> exists p :: p != Unknown && ToStr(p) == s
  {
    if exists p :: p != Unknown && ToStr(p) == s {
      var p :| p != Unknown && ToStr(p) == s;
      NameRoundTrip(p);
    }
  }

  /** `expr_ident`: the identifier of a single-segment path, a panic for
      anything else. */
  function ExprIdent(e: Expr): (r: O.Result<string, Panic>)
    ensures r.Ok? <==> SynExpr.IsIdent(e)
    ensures r.Ok? ==> e == SynExpr.Path([r.value])
    ensures r.Err? ==> r.error == NotAPath(e)
  {
    if SynExpr.IsIdent(e) then O.Ok(e.segments[0]) else O.Err(NotAPath(e))
  }

  /** `try_from_expr_ident`: the name of an identifier, nothing for any
      other expression. */
  function TryFromExprIdent(e: Expr): (r: O.Option<PropertyName>)
    ensures r.Some? <==> SynExpr.IsIdent(e)
    ensures r.Some? ==> r.value == New(e.segments[0])
  {
    match SynExpr.ExprIdentOpt(e)
    case None => O.None
    case Some(id) => O.Some(New(id))
  }

  /** `from_expr_ident`: the name of an identifier, a panic for any other
      expression. */
  function FromExprIdent(e: Expr): (r: O.Result<PropertyName, Panic>)
    ensures r.Ok? <==> SynExpr.IsIdent(e)
    ensures r.Ok? ==> O.Some(r.value) == TryFromExprIdent(e)
    ensures r.Err? ==> r.error == NotAPath(e)
  {
    var id :- ExprIdent(e);
    O.Ok(New(id))
  }

  // ---------------------------------------------------------------------
  // Properties.

  datatype Property = Property(kind: Kind, name: PropertyName, expr: Expr, memo: O.Option<string>)

  /** `Property::from_components`: the call `Name(args)` with no memo. */
  function FromComponents(kind: Kind, name: PropertyName, args: seq<Expr>): (r: Property)
    ensures r.kind == kind && r.name == name && r.memo.None?
    ensures r.expr.Call? && r.expr.args == args
  {
    Property(kind, name, SynExpr.Call(SynExpr.Path([ToStr(name)]), args), O.None)
  }

  /** The built call names the property it was built from: reading the
      name off its function gives the name back. */
  lemma FromComponentsNamesItself(kind: Kind, name: PropertyName, args: seq<Expr>)
    ensures TryFromExprIdent(FromComponents(kind, name, args).expr).None?
    ensures FromExprIdent(FromComponents(kind, name, args).expr.func) == O.Ok(name)
  {
    NameRoundTrip(name);
  }

  // ---------------------------------------------------------------------
  // Ordering.

  /** `Ord for Property`: by kind, then by name; the expression and the
      memo are not compared. */
  function Cmp(a: Property, b: Property): (r: DP.Ordering)
    ensures r == DP.Equal <==> a.kind == b.kind && a.name == b.name
    ensures a.kind != b.kind ==> (r == DP.Less <==> KindIndex(a.kind) < KindIndex(b.kind))
    ensures a.kind == b.kind ==> (r == DP.Less <==> NameIndex(a.name) < NameIndex(b.name))
  {
    var k := DP.CmpNat(KindIndex(a.kind), KindIndex(b.kind));
    if k != DP.Equal then k else DP.CmpNat(NameIndex(a.name), NameIndex(b.name))
  }

  /** The ordering is antisymmetric and transitive, as `Ord` requires. */
  lemma CmpIsOrder(a: Property, b: Property, c: Property)
    ensures Cmp(b, a) == DP.Flip(Cmp(a, b))
    ensures Cmp(a, b) != DP.Greater && Cmp(b, c) != DP.Greater ==> Cmp(a, c) != DP.Greater
  {
  }

  /** Two properties that differ only in their expression or memo are
      unequal yet compare `Equal`: the ordering is coarser than equality. */
  lemma CmpIgnoresExpr(p: Property, e: Expr)
    requires p.expr != e
    ensures p != p.(expr := e) && Cmp(p, p.(expr := e)) == DP.Equal
  {
  }
}
