/** The driver's older `precond` attribute parser: the arguments of an
    attribute read into an unsorted set of named arguments, whose property
    is just a kind and the positional expression. Its kind enum is the
    same three kinds as `PrecondProperty.Kind`. Its panics are those of the
    newer driver parser, whose descriptions are reused. */
module PrecondArgs {
  import O = Outcome
  import Text
  import SynExpr
  import DocMemo
  import DNA = DemoNamedArgs
  import S = NamedArgSet
  import DrP = DriverProperty
  import opened PrecondProperty

  type Expr = SynExpr.Expr
  type Panic = DrP.Panic

  datatype Property = Property(kind: Kind, expr: Expr)

  datatype NamedArg = KindArg(kind: string) | PropertyArg(property: Property) | MemoArg(memo: string)

  // ---------------------------------------------------------------------
  // Named arguments.

  /** `NamedArg::new` as written: a string `memo`, and a string `kind`
      too, become a memo; any other name, or a value that is not a string,
      panics. */
  function NamedArgNewAsWritten(ident: string, e: Expr): (r: O.Result<NamedArg, Panic>)
    ensures r.Ok? <==> (ident == "memo" || ident == "kind") && e.StrLit?
    ensures r.Ok? ==> r.value == MemoArg(e.value)
    ensures r.Err? ==> r.error == DrP.UnsupportedName(ident)
  {
    if ident == "memo" && e.StrLit? then O.Ok(MemoArg(e.value))
    else if ident == "kind" && e.StrLit? then O.Ok(MemoArg(e.value))
    else O.Err(DrP.UnsupportedName(ident))
  }

  /** `kind = "hazard"` reads exactly as `memo = "hazard"` does. */
  lemma KindReadAsMemo(v: string)
    ensures NamedArgNewAsWritten("kind", SynExpr.StrLit(v)) == NamedArgNewAsWritten("memo", SynExpr.StrLit(v))
    ensures NamedArgNewAsWritten("kind", SynExpr.StrLit(v)) != O.Ok(KindArg(v))
  {
  }

  /** A kind or memo argument written back as `ident = "value"`. */
  function Written(a: NamedArg): (e: Expr)
    requires !a.PropertyArg?
    ensures e.Assign? && e.right.StrLit?
  {
    match a
    case KindArg(k) => SynExpr.Assign(SynExpr.Path(["kind"]), SynExpr.StrLit(k))
    case MemoArg(m) => SynExpr.Assign(SynExpr.Path(["memo"]), SynExpr.StrLit(m))
  }

  /** `NamedArg::new` with the `kind` arm producing a kind argument. */
  function NamedArgNew(ident: string, e: Expr): (r: O.Result<NamedArg, Panic>)
    ensures r.Ok? <==> (ident == "memo" || ident == "kind") && e.StrLit?
    ensures r.Ok? ==> !r.value.PropertyArg? && Written(r.value) == SynExpr.Assign(SynExpr.Path([ident]), e)
    ensures r.Err? ==> r.error == DrP.UnsupportedName(ident)
  {
    if ident == "memo" && e.StrLit? then O.Ok(MemoArg(e.value))
    else if ident == "kind" && e.StrLit? then O.Ok(KindArg(e.value))
    else O.Err(DrP.UnsupportedName(ident))
  }

  /** Every kind and memo argument reads back from its written form. */
  lemma NamedArgRoundTrip(a: NamedArg)
    requires !a.PropertyArg?
    ensures S.ReadAssign(Written(a), NamedArgNew) == O.Ok(a)
  {
  }

  /** `parse_named_args` as written: the assertion demands that inserting
      the argument found it already present (`assert!(!first)`). */
  function ParseNamedArgsAsWritten(exprs: seq<Expr>, args: seq<NamedArg>, positional: seq<Expr>)
    : (r: O.Result<(seq<NamedArg>, seq<Expr>), Panic>)
    ensures r.Ok? ==> r.value.0 == args
    ensures (forall i :: 0 <= i < |exprs| ==> !exprs[i].Assign?) ==> r.Ok?
    decreases |exprs|
  {
    if exprs == [] then O.Ok((args, positional))
    else if exprs[0].Assign? then
      var ident :- DrP.ExprIdent(exprs[0].left);
      var a :- NamedArgNewAsWritten(ident, exprs[0].right);
      if a !in args then O.Err(DrP.ArgExists(ident))
      else ParseNamedArgsAsWritten(exprs[1..], args, positional)
    else
      assert forall i :: 1 <= i < |exprs| ==> exprs[i] == exprs[1..][i - 1];
      ParseNamedArgsAsWritten(exprs[1..], args, positional + [exprs[0]])
  }

  /** Starting from the empty set, every named argument panics: the first
      one is necessarily new. Only an attribute without any `name = value`
      argument gets through. */
  lemma {:induction false} EveryNamedArgPanics(exprs: seq<Expr>, positional: seq<Expr>)
    ensures ParseNamedArgsAsWritten(exprs, [], positional).Ok? <==> forall i :: 0 <= i < |exprs| ==> !exprs[i].Assign?
    decreases |exprs|
  {
    if exprs != [] && !exprs[0].Assign? {
      EveryNamedArgPanics(exprs[1..], positional + [exprs[0]]);
      assert forall i :: 0 < i < |exprs| ==> exprs[i] == exprs[1..][i - 1];
    }
  }

  /** `memo = "reason"`, the named argument the attribute exists for, is
      refused. */
  lemma MemoArgumentRefused(reason: string)
    ensures ParseNamedArgsAsWritten([SynExpr.Assign(SynExpr.Path(["memo"]), SynExpr.StrLit(reason))], [], [])
      == O.Err(DrP.ArgExists("memo"))
  {
  }

  /** The named arguments of an argument list, read in order. */
  function NamedOf(exprs: seq<Expr>): seq<NamedArg> {
    S.NamedOf(exprs, NamedArgNew)
  }

  /** `parse_named_args` with the assertion the other parser makes: only
      a repeated argument panics. */
  function ParseNamedArgs(exprs: seq<Expr>): O.Result<(seq<NamedArg>, seq<Expr>), Panic> {
    S.ParseNamedArgs(exprs, [], [], NamedArgNew)
  }

  /** Reading the named arguments succeeds exactly when each is a string
      `memo` or `kind` and none is repeated; it yields them in order, and
      the other arguments in order. None of them is a property. */
  lemma ParseNamedArgsSpec(exprs: seq<Expr>)
    ensures ParseNamedArgs(exprs).Ok?
      <==> (forall i :: 0 <= i < |exprs| ==> S.Readable(exprs[i], NamedArgNew)) && Text.Distinct(NamedOf(exprs))
    ensures ParseNamedArgs(exprs).Ok? ==> ParseNamedArgs(exprs).value == (NamedOf(exprs), DNA.Positional(exprs))
    ensures forall k :: 0 <= k < |NamedOf(exprs)| ==> !NamedOf(exprs)[k].PropertyArg?
  {
    var none: seq<NamedArg> := [];
    var nothing: seq<Expr> := [];
    S.ParseNamedArgsSpec(exprs, none, nothing, NamedArgNew);
    assert none + NamedOf(exprs) == NamedOf(exprs);
    assert nothing + DNA.Positional(exprs) == DNA.Positional(exprs);
    forall k | 0 <= k < |NamedOf(exprs)|
      ensures !NamedOf(exprs)[k].PropertyArg?
    {
      S.NamedOfFrom(exprs, NamedArgNew, k);
    }
  }

  /** A single memo argument is read. */
  lemma MemoArgumentRead(reason: string)
    ensures ParseNamedArgs([SynExpr.Assign(SynExpr.Path(["memo"]), SynExpr.StrLit(reason))]) == O.Ok(([MemoArg(reason)], []))
  {
    var e := SynExpr.Assign(SynExpr.Path(["memo"]), SynExpr.StrLit(reason));
    var none: seq<NamedArg> := [];
    assert [e][1..] == [];
    var nothing: seq<Expr> := [];
    assert none + [MemoArg(reason)] == [MemoArg(reason)];
    assert S.ParseNamedArgs([], [MemoArg(reason)], nothing, NamedArgNew) == O.Ok(([MemoArg(reason)], nothing));
  }

  // ---------------------------------------------------------------------
  // Positional arguments.

  function KindOf(a: NamedArg): O.Option<string> {
    if a.KindArg? then O.Some(a.kind) else O.None
  }

  function PropertyOf(a: NamedArg): O.Option<Property> {
    if a.PropertyArg? then O.Some(a.property) else O.None
  }

  function MemoOf(a: NamedArg): O.Option<string> {
    if a.MemoArg? then O.Some(a.memo) else O.None
  }

  /** The kind of the positional property: the given kind, else the one
      the first kind argument names; without either, a property already
      present or the lack of any kind panics. */
  function PositionalKind(kind: O.Option<Kind>, args: seq<NamedArg>): (r: O.Result<Kind, Panic>)
    ensures kind.Some? ==> r == O.Ok(kind.value)
    ensures kind.None? && DocMemo.FindSome(args, KindOf).Some? ==>
      var token := DocMemo.FindSome(args, KindOf).value;
      && (r.Ok? <==> token in {"precond", "hazard", "option"})
      && (r.Ok? ==> KindToken(r.value) == token)
      && (r.Err? ==> r.error == DrP.InvalidKind(token))
    ensures kind.None? && DocMemo.FindSome(args, KindOf).None? ==>
      r.Err? && (r.error == DrP.NoKind <==> DocMemo.FindSome(args, PropertyOf).None?)
  {
    if kind.Some? then O.Ok(kind.value)
    else match DocMemo.FindSome(args, KindOf)
      case Some(token) =>
        if token == "precond" then O.Ok(Precond)
        else if token == "hazard" then O.Ok(Hazard)
        else if token == "option" then O.Ok(Option)
        else O.Err(DrP.InvalidKind(token))
      case None =>
        match DocMemo.FindSome(args, PropertyOf)
        case Some(_) => O.Err(DrP.SingleProperty)
        case None => O.Err(DrP.NoKind)
  }

  /** Every kind is read back from its token by a kind argument. */
  lemma KindArgRoundTrip(k: Kind, rest: seq<NamedArg>)
    ensures PositionalKind(O.None, [KindArg(KindToken(k))] + rest) == O.Ok(k)
  {
  }

  /** `parse_positional_args`: the first positional argument is the
      property, the second a string memo, and the rest are ignored. A memo
      already among the named arguments makes a second positional argument
      panic. */
  function ParsePositional(kind: O.Option<Kind>, args: seq<NamedArg>, positional: seq<Expr>): (r: O.Result<seq<NamedArg>, Panic>)
    ensures positional == [] ==> r == O.Ok(args)
    ensures positional != [] ==>
      && (r.Ok? ==> PositionalKind(kind, args).Ok?)
      && (PositionalKind(kind, args).Ok? ==>
            var p := PropertyArg(Property(PositionalKind(kind, args).value, positional[0]));
            && (r.Ok? <==> |positional| == 1 || (DocMemo.FindSome(args, MemoOf).None? && positional[1].StrLit?))
            && (r.Ok? && p !in args && |positional| >= 2 ==> r.value == args + [p, MemoArg(positional[1].value)])
            && (r.Ok? && p !in args && |positional| == 1 ==> r.value == args + [p]))
  {
    if positional == [] then O.Ok(args)
    else
      var k :- PositionalKind(kind, args);
      var p := PropertyArg(Property(k, positional[0]));
      var withProperty := S.Insert(args, p);
      if |positional| == 1 then O.Ok(withProperty)
      else
        match DocMemo.FindSome(withProperty, MemoOf)
        case Some(m) => O.Err(DrP.SingleMemo(m))
        case None =>
          if positional[1].StrLit? then
            MemoAfterProperty(args, p);
            O.Ok(S.Insert(withProperty, MemoArg(positional[1].value)))
          else
            MemoAfterProperty(args, p);
            O.Err(DrP.NotAString(positional[1]))
  }

  /** Adding the property changes no memo search, and a memo is found in
      no set that lacks one. */
  lemma MemoAfterProperty(args: seq<NamedArg>, p: NamedArg)
    requires p.PropertyArg?
    ensures DocMemo.FindSome(S.Insert(args, p), MemoOf) == DocMemo.FindSome(args, MemoOf)
    ensures DocMemo.FindSome(args, MemoOf).None? ==> forall m :: MemoArg(m) !in S.Insert(args, p)
  {
    if p !in args {
      DocMemo.FindSomeAppend(args, [p], MemoOf);
    }
    if DocMemo.FindSome(args, MemoOf).None? {
      var s := S.Insert(args, p);
      assert forall i :: 0 <= i < |s| ==> MemoOf(s[i]).None?;
    }
  }

  // ---------------------------------------------------------------------
  // The argument set.

  /** `NamedArgsSet::new` with the corrected named-argument reading: the
      named arguments, then the positional ones; unlike the newer parser,
      the set is left in insertion order. */
  function New(exprs: seq<Expr>, kind: O.Option<Kind>): (r: O.Result<seq<NamedArg>, Panic>)
    ensures ParseNamedArgs(exprs).Err? ==> r == O.Err(ParseNamedArgs(exprs).error)
    ensures r.Ok? ==> |NamedOf(exprs)| <= |r.value| && r.value[..|NamedOf(exprs)|] == NamedOf(exprs)
  {
    var (args, positional) :- ParseNamedArgs(exprs);
    ParseNamedArgsSpec(exprs);
    if positional != [] && PositionalKind(kind, args).Ok? then
      var p := PropertyArg(Property(PositionalKind(kind, args).value, positional[0]));
      assert forall k :: 0 <= k < |args| ==> args[k] != p;
      ParsePositional(kind, args, positional)
    else
      ParsePositional(kind, args, positional)
  }

  /** The set of `NamedArgsSet::new`, in order: the named arguments as
      written, then the property of the first positional argument, then the
      memo of the second. */
  lemma NewContents(exprs: seq<Expr>, kind: O.Option<Kind>)
    requires New(exprs, kind).Ok?
    ensures var positional := DNA.Positional(exprs);
      positional != [] ==> PositionalKind(kind, NamedOf(exprs)).Ok?
    ensures var positional := DNA.Positional(exprs);
      |positional| >= 2 ==> positional[1].StrLit?
    ensures var positional := DNA.Positional(exprs);
      var rest :=
        if positional == [] then []
        else
          [PropertyArg(Property(PositionalKind(kind, NamedOf(exprs)).value, positional[0]))]
          + (if |positional| >= 2 then [MemoArg(positional[1].value)] else []);
      New(exprs, kind).value == NamedOf(exprs) + rest
  {
    ParseNamedArgsSpec(exprs);
    var named := NamedOf(exprs);
    var positional := DNA.Positional(exprs);
    if positional == [] {
      assert named + [] == named;
    } else {
      var p := PropertyArg(Property(PositionalKind(kind, named).value, positional[0]));
      assert forall k :: 0 <= k < |named| ==> named[k] != p;
      if |positional| >= 2 {
        assert [p] + [MemoArg(positional[1].value)] == [p, MemoArg(positional[1].value)];
      }
    }
  }

  /** A kind given as a named argument is the property's kind when the
      parser is given none. */
  lemma NamedKindUsed(k: Kind, e: Expr)
    requires !e.Assign?
    ensures New([SynExpr.Assign(SynExpr.Path(["kind"]), SynExpr.StrLit(KindToken(k))), e], O.None)
      == O.Ok([KindArg(KindToken(k)), PropertyArg(Property(k, e))])
  {
    var a := SynExpr.Assign(SynExpr.Path(["kind"]), SynExpr.StrLit(KindToken(k)));
    var exprs := [a, e];
    var ka := KindArg(KindToken(k));
    var none: seq<NamedArg> := [];
    var nothing: seq<Expr> := [];
    assert exprs[1..] == [e];
    assert [e][1..] == [];
    assert none + [ka] == [ka];
    assert nothing + [e] == [e];
    assert S.ParseNamedArgs([], [ka], [e], NamedArgNew) == O.Ok(([ka], [e]));
    assert S.ParseNamedArgs([e], [ka], [], NamedArgNew) == O.Ok(([ka], [e]));
    assert ParseNamedArgs(exprs) == O.Ok(([ka], [e]));
    KindArgRoundTrip(k, []);
    assert [ka] + [] == [ka];
    assert PositionalKind(O.None, [ka]) == O.Ok(k);
    var p := PropertyArg(Property(k, e));
    assert S.Insert([ka], p) == [ka, p];
    assert ParsePositional(O.None, [ka], [e]) == O.Ok([ka, p]);
  }

  /** `NamedArg::generate_doc_comments`: the doc lines of a memo, nothing
      for the other arguments. */
  function DocComments(a: NamedArg): (r: seq<string>)
    ensures !a.MemoArg? ==> r == []
    ensures a.MemoArg? ==> |r| == |Text.Lines(Text.Trim(a.memo))|
    ensures a.MemoArg? && Text.AllWhitespace(a.memo) ==> r == []
  {
    if a.MemoArg? then DocMemo.MemoBlank(a.memo); DocMemo.Memo(a.memo) else []
  }
}
