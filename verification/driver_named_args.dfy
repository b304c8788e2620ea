/** The driver parser's reading of a safety attribute's arguments into a
    sorted set of named arguments (`NamedArgsSet`), and what it generates
    from them: the doc comments of the memos and the inner tool
    attribute. */
module DriverNamedArgs {
  import O = Outcome
  import Text
  import SynExpr
  import DocMemo
  import DP = DemoProperty
  import DNA = DemoNamedArgs
  import S = NamedArgSet
  import opened DriverProperty

  datatype NamedArg = PropertyArg(property: Property) | KindArg(kind: string) | MemoArg(memo: string)

  // ---------------------------------------------------------------------
  // One named argument.

  /** `NamedArg::new` as written: a string `memo`, and a string `kind`
      too, become a memo; any other name, or a value that is not a string,
      panics. */
  function NamedArgNewAsWritten(ident: string, e: Expr): (r: O.Result<NamedArg, Panic>)
    ensures r.Ok? <==> (ident == "memo" || ident == "kind") && e.StrLit?
    ensures r.Ok? ==> r.value == MemoArg(e.value)
    ensures r.Err? ==> r.error == UnsupportedName(ident)
  {
    if ident == "memo" && e.StrLit? then O.Ok(MemoArg(e.value))
    else if ident == "kind" && e.StrLit? then O.Ok(MemoArg(e.value))
    else O.Err(UnsupportedName(ident))
  }

  /** `kind = "hazard"` reads exactly as `memo = "hazard"` does, so no
      kind argument ever reaches the set that the positional reading
      searches for one. */
  lemma KindReadAsMemo(v: string)
    ensures NamedArgNewAsWritten("kind", SynExpr.StrLit(v)) == NamedArgNewAsWritten("memo", SynExpr.StrLit(v))
    ensures NamedArgNewAsWritten("kind", SynExpr.StrLit(v)) != O.Ok(KindArg(v))
  {
  }

  /** A kind or memo argument written back as `ident = "value"`. */
  function Written(a: NamedArg): (e: Expr)
    requires !a.PropertyArg?
    ensures e.Assign? && e.right.StrLit?
  {
    match a
    case KindArg(k) => SynExpr.Assign(SynExpr.Path(["kind"]), SynExpr.StrLit(k))
    case MemoArg(m) => SynExpr.Assign(SynExpr.Path(["memo"]), SynExpr.StrLit(m))
  }

  /** `NamedArg::new` with the `kind` arm producing the kind argument the
      positional reading looks for. */
  function NamedArgNew(ident: string, e: Expr): (r: O.Result<NamedArg, Panic>)
    ensures r.Ok? <==> (ident == "memo" || ident == "kind") && e.StrLit?
    ensures r.Ok? ==> !r.value.PropertyArg? && Written(r.value) == SynExpr.Assign(SynExpr.Path([ident]), e)
    ensures r.Err? ==> r.error == UnsupportedName(ident)
  {
    if ident == "memo" && e.StrLit? then O.Ok(MemoArg(e.value))
    else if ident == "kind" && e.StrLit? then O.Ok(KindArg(e.value))
    else O.Err(UnsupportedName(ident))
  }

  /** Every kind and memo argument reads back from its written form. */
  lemma NamedArgRoundTrip(a: NamedArg)
    requires !a.PropertyArg?
    ensures S.ReadAssign(Written(a), NamedArgNew) == O.Ok(a)
  {
  }

  /** Both readings agree on everything but a `kind`. */
  lemma NamedArgNewAgrees(ident: string, e: Expr)
    requires ident != "kind"
    ensures NamedArgNewAsWritten(ident, e) == NamedArgNew(ident, e)
  {
  }

  /** Which reading of a `kind` argument the parser uses: the source's,
      which stores it as a memo, or the corrected one. */
  datatype Reading = AsWritten | Corrected

  function Reader(rd: Reading): (string, Expr) -> O.Result<NamedArg, Panic> {
    if rd == AsWritten then NamedArgNewAsWritten else NamedArgNew
  }

  /** Under either reading, a named argument is never a property. */
  lemma ReadNeverProperty(rd: Reading, e: Expr)
    requires e.Assign?
    ensures S.ReadAssign(e, Reader(rd)).Ok? ==> !S.ReadAssign(e, Reader(rd)).value.PropertyArg?
  {
    if SynExpr.IsIdent(e.left) {
      var ident := e.left.segments[0];
      if rd == AsWritten {
        assert S.ReadAssign(e, Reader(rd)) == NamedArgNewAsWritten(ident, e.right);
      } else {
        assert S.ReadAssign(e, Reader(rd)) == NamedArgNew(ident, e.right);
      }
    }
  }

  /** The named arguments of an argument list, read in order; none of
      them is a property. */
  function NamedOf(exprs: seq<Expr>, rd: Reading): (r: seq<NamedArg>)
    ensures |r| <= |exprs|
    ensures forall k :: 0 <= k < |r| ==> !r[k].PropertyArg?
  {
    var r := S.NamedOf(exprs, Reader(rd));
    assert forall k :: 0 <= k < |r| ==> !r[k].PropertyArg? by {
      forall k | 0 <= k < |r|
        ensures !r[k].PropertyArg?
      {
        S.NamedOfFrom(exprs, Reader(rd), k);
        var i :| 0 <= i < |exprs| && exprs[i].Assign? && S.ReadAssign(exprs[i], Reader(rd)) == O.Ok(r[k]);
        ReadNeverProperty(rd, exprs[i]);
      }
    }
    r
  }

  /** `parse_named_args` of this parser, with the `kind` reading `rd`.
      Reading succeeds exactly when each assignment is a string `memo` or
      `kind` and no value is read twice; it yields them in order, and the
      other arguments in order. */
  function ParseNamedArgs(exprs: seq<Expr>, rd: Reading): (r: O.Result<(seq<NamedArg>, seq<Expr>), Panic>)
    ensures r.Ok? <==> (forall i :: 0 <= i < |exprs| ==> S.Readable(exprs[i], Reader(rd))) && Text.Distinct(NamedOf(exprs, rd))
    ensures r.Ok? ==> r.value == (NamedOf(exprs, rd), DNA.Positional(exprs))
  {
    var none: seq<NamedArg> := [];
    var nothing: seq<Expr> := [];
    S.ParseNamedArgsSpec(exprs, none, nothing, Reader(rd));
    assert none + NamedOf(exprs, rd) == NamedOf(exprs, rd);
    assert nothing + DNA.Positional(exprs) == DNA.Positional(exprs);
    S.ParseNamedArgs(exprs, none, nothing, Reader(rd))
  }

  /** As written, `kind = "v", memo = "v"` reads the same memo twice and
      panics on the second; read correctly it is a kind and a memo. */
  lemma KindThenMemo(v: string)
    ensures var exprs := [DP.NamedValue("kind", SynExpr.StrLit(v)), DP.NamedValue("memo", SynExpr.StrLit(v))];
      && ParseNamedArgs(exprs, AsWritten) == O.Err(ArgExists("memo"))
      && ParseNamedArgs(exprs, Corrected) == O.Ok(([KindArg(v), MemoArg(v)], []))
  {
    var exprs := [DP.NamedValue("kind", SynExpr.StrLit(v)), DP.NamedValue("memo", SynExpr.StrLit(v))];
    assert exprs[1..] == [exprs[1]] && exprs[1..][1..] == [];
    assert ExprIdent(exprs[0].left) == O.Ok("kind");
    assert ExprIdent(exprs[1].left) == O.Ok("memo");
    var none: seq<NamedArg> := [];
    var nothing: seq<Expr> := [];
    assert S.ParseNamedArgs(exprs, none, nothing, NamedArgNewAsWritten)
      == S.ParseNamedArgs(exprs[1..], [MemoArg(v)], nothing, NamedArgNewAsWritten);
    assert none + [KindArg(v)] == [KindArg(v)];
    assert [KindArg(v)] + [MemoArg(v)] == [KindArg(v), MemoArg(v)];
    assert S.ParseNamedArgs(exprs, none, nothing, NamedArgNew)
      == S.ParseNamedArgs(exprs[1..], [KindArg(v)], nothing, NamedArgNew);
    assert S.ParseNamedArgs(exprs[1..], [KindArg(v)], nothing, NamedArgNew)
      == S.ParseNamedArgs([], [KindArg(v), MemoArg(v)], nothing, NamedArgNew);
  }

  // ---------------------------------------------------------------------
  // Positional arguments.

  function KindOf(a: NamedArg): O.Option<string> {
    if a.KindArg? then O.Some(a.kind) else O.None
  }

  function PropertyOf(a: NamedArg): O.Option<Property> {
    if a.PropertyArg? then O.Some(a.property) else O.None
  }

  function MemoOf(a: NamedArg): O.Option<string> {
    if a.MemoArg? then O.Some(a.memo) else O.None
  }

  /** The kind of the positional property: the given kind, else the one
      the first kind argument names (`memo` is not one of them); without
      either, a property already present or the lack of any kind panics. */
  function PositionalKind(kind: O.Option<Kind>, args: seq<NamedArg>): (r: O.Result<Kind, Panic>)
    ensures kind.Some? ==> r == O.Ok(kind.value)
    ensures kind.None? && DocMemo.FindSome(args, KindOf).Some? ==>
      var token := DocMemo.FindSome(args, KindOf).value;
      && (r.Ok? <==> token in {"precond", "hazard", "option"})
      && (r.Ok? ==> KindToken(r.value) == token)
      && (r.Err? ==> r.error == InvalidKind(token))
    ensures kind.None? && DocMemo.FindSome(args, KindOf).None? ==>
      r.Err? && (r.error == NoKind <==> DocMemo.FindSome(args, PropertyOf).None?)
  {
    if kind.Some? then O.Ok(kind.value)
    else match DocMemo.FindSome(args, KindOf)
      case Some(token) =>
        if token == "precond" then O.Ok(Precond)
        else if token == "hazard" then O.Ok(Hazard)
        else if token == "option" then O.Ok(Option)
        else O.Err(InvalidKind(token))
      case None =>
        match DocMemo.FindSome(args, PropertyOf)
        case Some(_) => O.Err(SingleProperty)
        case None => O.Err(NoKind)
  }

  /** A kind read from a kind argument is the kind `Kind::new` reads from
      the same token, `memo` apart. */
  lemma PositionalKindIsKindNew(args: seq<NamedArg>)
    requires DocMemo.FindSome(args, KindOf).Some? && DocMemo.FindSome(args, KindOf).value != "memo"
    ensures PositionalKind(O.None, args) == KindNew(DocMemo.FindSome(args, KindOf).value)
  {
  }

  /** The name of the positional property: an identifier is the name
      itself; otherwise it must be a call, named by its function. */
  function PositionalName(e: Expr): (r: O.Result<PropertyName, Panic>)
    ensures SynExpr.IsIdent(e) ==> r == O.Ok(New(e.segments[0]))
    ensures !SynExpr.IsIdent(e) && !e.Call? ==> r == O.Err(NotACall(e))
    ensures !SynExpr.IsIdent(e) && e.Call? ==> r == FromExprIdent(e.func)
  {
    match TryFromExprIdent(e)
    case Some(name) => O.Ok(name)
    case None => if e.Call? then FromExprIdent(e.func) else O.Err(NotACall(e))
  }

  /** A property built from its components is named by its own call. */
  lemma PositionalNameOfComponents(kind: Kind, name: PropertyName, args: seq<Expr>)
    ensures PositionalName(FromComponents(kind, name, args).expr) == O.Ok(name)
  {
    FromComponentsNamesItself(kind, name, args);
  }

  /** The property the first positional argument stands for. */
  function PositionalProperty(kind: Kind, name: PropertyName, e: Expr): NamedArg {
    PropertyArg(Property(kind, name, e, O.None))
  }

  /** `parse_positional_args`: the first positional argument is the
      property, the second a string memo, and the rest are ignored. A memo
      already among the named arguments makes a second positional argument
      panic. */
  function ParsePositional(kind: O.Option<Kind>, args: seq<NamedArg>, positional: seq<Expr>): (r: O.Result<seq<NamedArg>, Panic>)
    ensures positional == [] ==> r == O.Ok(args)
    ensures positional != [] && (PositionalKind(kind, args).Err? || PositionalName(positional[0]).Err?) ==> r.Err?
    ensures positional != [] && PositionalKind(kind, args).Ok? && PositionalName(positional[0]).Ok? ==>
      var p := PositionalProperty(PositionalKind(kind, args).value, PositionalName(positional[0]).value, positional[0]);
      && (r.Ok? <==> |positional| == 1 || (DocMemo.FindSome(args, MemoOf).None? && positional[1].StrLit?))
      && (r.Ok? ==> p in r.value)
      && (r.Ok? && |positional| >= 2 ==> MemoArg(positional[1].value) in r.value)
    ensures r.Ok? ==> |args| <= |r.value| <= |args| + 2 && r.value[..|args|] == args
    ensures r.Ok? && Text.Distinct(args) ==> Text.Distinct(r.value)
  {
    if positional == [] then O.Ok(args)
    else
      var k :- PositionalKind(kind, args);
      var name :- PositionalName(positional[0]);
      var p := PositionalProperty(k, name, positional[0]);
      var withProperty := S.Insert(args, p);
      assert withProperty[..|args|] == args;
      if |positional| == 1 then O.Ok(withProperty)
      else
        MemoAfterProperty(args, p);
        match DocMemo.FindSome(withProperty, MemoOf)
        case Some(m) => O.Err(SingleMemo(m))
        case None =>
          if positional[1].StrLit? then
            var all := S.Insert(withProperty, MemoArg(positional[1].value));
            assert all[..|args|] == args;
            O.Ok(all)
          else O.Err(NotAString(positional[1]))
  }

  /** Adding the property changes no memo search. */
  lemma MemoAfterProperty(args: seq<NamedArg>, p: NamedArg)
    requires p.PropertyArg?
    ensures DocMemo.FindSome(S.Insert(args, p), MemoOf) == DocMemo.FindSome(args, MemoOf)
  {
    if p !in args {
      DocMemo.FindSomeAppend(args, [p], MemoOf);
    }
  }

  /** Positional arguments past the second are ignored. */
  lemma ParsePositionalIgnoresRest(kind: O.Option<Kind>, args: seq<NamedArg>, positional: seq<Expr>, rest: seq<Expr>)
    requires |positional| == 2
    ensures ParsePositional(kind, args, positional + rest) == ParsePositional(kind, args, positional)
  {
    assert (positional + rest)[0] == positional[0];
    assert (positional + rest)[1] == positional[1];
  }

  // ---------------------------------------------------------------------
  // Ordering.

  function VariantIndex(a: NamedArg): nat {
    match a
    case PropertyArg(_) => 0
    case KindArg(_) => 1
    case MemoArg(_) => 2
  }

  /** The derived `Ord` of `NamedArg`: by variant, then by the payload. */
  function CmpNamed(a: NamedArg, b: NamedArg): (r: DP.Ordering)
    ensures VariantIndex(a) < VariantIndex(b) ==> r == DP.Less
    ensures VariantIndex(a) > VariantIndex(b) ==> r == DP.Greater
    ensures a.PropertyArg? && b.PropertyArg? ==> r == Cmp(a.property, b.property)
    ensures a.KindArg? && b.KindArg? ==> r == DNA.CmpStr(a.kind, b.kind)
    ensures a.MemoArg? && b.MemoArg? ==> r == DNA.CmpStr(a.memo, b.memo)
  {
    if VariantIndex(a) != VariantIndex(b) then DP.CmpNat(VariantIndex(a), VariantIndex(b))
    else match a
      case PropertyArg(p) => Cmp(p, b.property)
      case KindArg(k) => DNA.CmpStr(k, b.kind)
      case MemoArg(m) => DNA.CmpStr(m, b.memo)
  }

  predicate Le(a: NamedArg, b: NamedArg) {
    CmpNamed(a, b) != DP.Greater
  }

  lemma LeTotal(a: NamedArg, b: NamedArg)
    ensures Le(a, b) || Le(b, a)
  {
    if a.PropertyArg? && b.PropertyArg? {
      CmpIsOrder(a.property, b.property, b.property);
    }
    if a.KindArg? && b.KindArg? && a.kind != b.kind {
      Text.LessTotal(a.kind, b.kind);
    }
    if a.MemoArg? && b.MemoArg? && a.memo != b.memo {
      Text.LessTotal(a.memo, b.memo);
    }
  }

  lemma LeTransitive(a: NamedArg, b: NamedArg, c: NamedArg)
    requires Le(a, b) && Le(b, c)
    ensures Le(a, c)
  {
    if a.PropertyArg? && b.PropertyArg? && c.PropertyArg? {
      CmpIsOrder(a.property, b.property, c.property);
    }
    if a.KindArg? && b.KindArg? && c.KindArg? && a.kind != b.kind && b.kind != c.kind {
      Text.LessTransitive(a.kind, b.kind, c.kind);
    }
    if a.MemoArg? && b.MemoArg? && c.MemoArg? && a.memo != b.memo && b.memo != c.memo {
      Text.LessTransitive(a.memo, b.memo, c.memo);
    }
  }

  /** Each argument is at most its successor. */
  predicate Sorted(s: seq<NamedArg>) {
    forall i :: 0 <= i < |s| - 1 ==> Le(s[i], s[i + 1])
  }

  /** Placing `x` before the first argument it is at most. */
  function InsertNamed(x: NamedArg, s: seq<NamedArg>): (r: seq<NamedArg>)
    requires Sorted(s)
    ensures Sorted(r)
    ensures multiset(r) == multiset(s) + multiset{x}
    ensures |r| == |s| + 1 && (r[0] == x || (s != [] && r[0] == s[0]))
  {
    if s == [] then [x]
    else if Le(x, s[0]) then [x] + s
    else
      LeTotal(x, s[0]);
      var tail := InsertNamed(x, s[1..]);
      assert s == [s[0]] + s[1..];
      [s[0]] + tail
  }

  /** `IndexSet::sort`: a sort by the derived ordering, stable (SortStable). */
  function SortNamed(s: seq<NamedArg>): (r: seq<NamedArg>)
    ensures Sorted(r)
    ensures multiset(r) == multiset(s)
  {
    if s == [] then []
    else
      assert s == [s[0]] + s[1..];
      InsertNamed(s[0], SortNamed(s[1..]))
  }

  /** The arguments of `s` that compare equal to `y`, in order. */
  function EqualTo(s: seq<NamedArg>, y: NamedArg): (r: seq<NamedArg>)
    ensures |r| <= |s|
  {
    if s == [] then []
    else (if Same(s[0], y) then [s[0]] else []) + EqualTo(s[1..], y)
  }

  /** `a` and `b` compare equal. */
  predicate Same(a: NamedArg, b: NamedArg) {
    Le(a, b) && Le(b, a)
  }

  /** One argument in front of both lists keeps the relation between their
      equal runs, unless both it and `x` are equal to `y`. */
  lemma EqualToStep(x: NamedArg, a: NamedArg, rest: seq<NamedArg>, tail: seq<NamedArg>, y: NamedArg)
    requires !(Same(x, y) && Same(a, y))
    requires EqualTo(tail, y) == (if Same(x, y) then [x] else []) + EqualTo(rest, y)
    ensures EqualTo([a] + tail, y) == (if Same(x, y) then [x] else []) + EqualTo([a] + rest, y)
  {
    EqualToCons(a, tail, y);
    EqualToCons(a, rest, y);
    if Same(a, y) {
      assert EqualTo([a] + tail, y) == [a] + EqualTo(tail, y);
    }
  }

  lemma EqualToCons(a: NamedArg, s: seq<NamedArg>, y: NamedArg)
    ensures EqualTo([a] + s, y) == (if Same(a, y) then [a] else []) + EqualTo(s, y)
  {
    assert ([a] + s)[1..] == s;
  }

  /** Inserting `x` passes only arguments strictly below it, so none of
      them compares equal to an argument `x` compares equal to. */
  lemma {:induction false} InsertEqualTo(x: NamedArg, s: seq<NamedArg>, y: NamedArg)
    requires Sorted(s)
    ensures EqualTo(InsertNamed(x, s), y) == (if Same(x, y) then [x] else []) + EqualTo(s, y)
  {
    if s == [] {
      assert InsertNamed(x, s) == [x];
    } else if Le(x, s[0]) {
      assert InsertNamed(x, s) == [x] + s;
      assert ([x] + s)[1..] == s;
    } else {
      assert s == [s[0]] + s[1..];
      InsertEqualTo(x, s[1..], y);
      if Same(x, y) && Same(s[0], y) {
        LeTransitive(x, y, s[0]);
      }
      EqualToStep(x, s[0], s[1..], InsertNamed(x, s[1..]), y);
    }
  }

  /** The sort is stable: arguments that compare equal keep their input
      order. */
  lemma {:induction false} SortStable(s: seq<NamedArg>, y: NamedArg)
    ensures EqualTo(SortNamed(s), y) == EqualTo(s, y)
  {
    if s != [] {
      SortStable(s[1..], y);
      InsertEqualTo(s[0], SortNamed(s[1..]), y);
    }
  }

  /** Adjacent order gives order between any two positions. */
  lemma {:induction false} SortedAll(s: seq<NamedArg>, i: nat, j: nat)
    requires Sorted(s) && i <= j < |s|
    ensures Le(s[i], s[j])
    decreases j - i
  {
    if i == j {
      LeTotal(s[i], s[i]);
    } else {
      SortedAll(s, i + 1, j);
      LeTransitive(s[i], s[i + 1], s[j]);
    }
  }

  /** A sorted list whose only property is `p` starts with `p`. */
  lemma SortedPropertyFirst(s: seq<NamedArg>, p: NamedArg)
    requires Sorted(s) && p.PropertyArg? && p in s
    requires forall i :: 0 <= i < |s| && s[i] != p ==> !s[i].PropertyArg?
    ensures s[0] == p
  {
    var j :| 0 <= j < |s| && s[j] == p;
    if s[0] != p {
      SortedAll(s, 0, j);
    }
  }

  // ---------------------------------------------------------------------
  // The argument set.

  /** `NamedArgsSet::new_with_kind`: the named arguments, then the
      positional ones read with the given kind; sorted. */
  function NewWithKind(exprs: seq<Expr>, kind: Kind, rd: Reading): (r: O.Result<seq<NamedArg>, Panic>)
    ensures r.Ok? ==> Sorted(r.value)
    ensures r.Ok? <==> (ParseNamedArgs(exprs, rd).Ok?
      && ParsePositional(O.Some(kind), ParseNamedArgs(exprs, rd).value.0, ParseNamedArgs(exprs, rd).value.1).Ok?)
  {
    var (args, positional) :- ParseNamedArgs(exprs, rd);
    var all :- ParsePositional(O.Some(kind), args, positional);
    O.Ok(SortNamed(all))
  }

  /** What the set of `new_with_kind` holds: every named argument, the
      property of the first positional argument with the given kind, and
      the memo of the second, which is then the only memo; and nothing
      else. */
  lemma NewWithKindContents(exprs: seq<Expr>, kind: Kind, rd: Reading)
    requires NewWithKind(exprs, kind, rd).Ok?
    ensures forall a :: a in NamedOf(exprs, rd) ==> a in NewWithKind(exprs, kind, rd).value
    ensures DNA.Positional(exprs) != [] ==>
      var e := DNA.Positional(exprs)[0];
      PositionalName(e).Ok? && PositionalProperty(kind, PositionalName(e).value, e) in NewWithKind(exprs, kind, rd).value
    ensures |DNA.Positional(exprs)| >= 2 ==>
      var e := DNA.Positional(exprs)[1];
      && e.StrLit? && MemoArg(e.value) in NewWithKind(exprs, kind, rd).value
      && forall a :: a in NamedOf(exprs, rd) ==> !a.MemoArg?
    ensures forall a :: a in NewWithKind(exprs, kind, rd).value ==>
      || a in NamedOf(exprs, rd)
      || (DNA.Positional(exprs) != [] && PositionalName(DNA.Positional(exprs)[0]).Ok?
          && a == PositionalProperty(kind, PositionalName(DNA.Positional(exprs)[0]).value, DNA.Positional(exprs)[0]))
      || (|DNA.Positional(exprs)| >= 2 && DNA.Positional(exprs)[1].StrLit? && a == MemoArg(DNA.Positional(exprs)[1].value))
  {
    var named := NamedOf(exprs, rd);
    var positional := DNA.Positional(exprs);
    var all := ParsePositional(O.Some(kind), named, positional).value;
    assert NewWithKind(exprs, kind, rd).value == SortNamed(all);
    forall a | a in all
      ensures a in NewWithKind(exprs, kind, rd).value
    {
      InSorted(all, a);
    }
    forall a | a in named
      ensures a in all
    {
      var i :| 0 <= i < |named| && named[i] == a;
      assert all[..|named|] == named;
      assert all[i] == a;
    }
    if |positional| >= 2 {
      NoMemoFound(named);
    }
    forall a | a in NewWithKind(exprs, kind, rd).value
      ensures a in all
    {
      assert a in multiset(SortNamed(all));
    }
    PositionalOnly(kind, named, positional);
  }

  /** `parse_positional_args` adds nothing but the property of the first
      positional argument and the memo of the second. */
  lemma PositionalOnly(kind: Kind, args: seq<NamedArg>, positional: seq<Expr>)
    requires ParsePositional(O.Some(kind), args, positional).Ok?
    ensures forall a :: a in ParsePositional(O.Some(kind), args, positional).value ==>
      || a in args
      || (positional != [] && PositionalName(positional[0]).Ok?
          && a == PositionalProperty(kind, PositionalName(positional[0]).value, positional[0]))
      || (|positional| >= 2 && positional[1].StrLit? && a == MemoArg(positional[1].value))
  {
  }

  /** Sorting loses no element. */
  lemma InSorted(s: seq<NamedArg>, a: NamedArg)
    requires a in s
    ensures a in SortNamed(s)
  {
    assert a in multiset(s);
  }

  /** No memo is found exactly when none is present. */
  lemma NoMemoFound(args: seq<NamedArg>)
    requires DocMemo.FindSome(args, MemoOf).None?
    ensures forall a :: a in args ==> !a.MemoArg?
  {
    forall a | a in args
      ensures !a.MemoArg?
    {
      var i :| 0 <= i < |args| && args[i] == a;
      assert MemoOf(args[i]).None?;
    }
  }

  /** `NamedArgsSet::new_kind_and_property`: the named arguments and the
      property built from the given kind and name over the positional
      arguments, sorted. The insertion of the property never finds it
      already present, because named arguments are never properties; so
      the set starts with the property. */
  function NewKindAndProperty(exprs: seq<Expr>, kind: Kind, name: PropertyName, rd: Reading): (r: O.Result<seq<NamedArg>, Panic>)
    ensures r.Ok? <==> ParseNamedArgs(exprs, rd).Ok?
    ensures r.Err? ==> r == O.Err(ParseNamedArgs(exprs, rd).error)
    ensures r.Ok? ==>
      var p := PropertyArg(FromComponents(kind, name, DNA.Positional(exprs)));
      && |r.value| == |NamedOf(exprs, rd)| + 1 && Sorted(r.value) && r.value[0] == p
      && multiset(r.value) == multiset(NamedOf(exprs, rd)) + multiset{p}
  {
    var (args, positional) :- ParseNamedArgs(exprs, rd);
    var p := PropertyArg(FromComponents(kind, name, positional));
    if p in args then O.Err(PropertyExists(kind, name))
    else
      var sorted := SortNamed(args + [p]);
      assert forall i :: 0 <= i < |sorted| && sorted[i] != p ==> !sorted[i].PropertyArg? by {
        forall i | 0 <= i < |sorted| && sorted[i] != p
          ensures !sorted[i].PropertyArg?
        {
          assert sorted[i] in multiset(args + [p]);
        }
      }
      assert p in multiset(sorted);
      SortedPropertyFirst(sorted, p);
      O.Ok(sorted)
  }

  // ---------------------------------------------------------------------
  // Generation.

  /** The arguments one named argument contributes to the tool attribute. */
  function Chunk(a: NamedArg): seq<Expr> {
    match a
    case PropertyArg(p) => [DP.NamedValue("property", p.expr), DP.NamedValue("kind", SynExpr.StrLit(KindToken(p.kind)))]
    case MemoArg(m) => [DP.NamedValue("memo", SynExpr.StrLit(m))]
    case KindArg(_) => []
  }

  /** `generate_safety_tool_attribute`: each property as its expression and
      its kind, each memo; kind arguments are dropped. */
  function GenerateToolAttr(args: seq<NamedArg>): (r: seq<Expr>)
    ensures |r| <= 2 * |args|
    ensures forall i :: 0 <= i < |r| ==> r[i].Assign? && SynExpr.IsIdent(r[i].left)
  {
    if args == [] then [] else Chunk(args[0]) + GenerateToolAttr(args[1..])
  }

  /** The tool attribute carries nothing exactly when every argument is a
      kind argument: each property and each memo contributes a chunk. */
  lemma {:induction false} ToolAttrEmptyIffKinds(args: seq<NamedArg>)
    ensures GenerateToolAttr(args) == [] <==> forall i :: 0 <= i < |args| ==> args[i].KindArg?
    decreases |args|
  {
    if args != [] {
      ToolAttrEmptyIffKinds(args[1..]);
      assert forall i :: 1 <= i < |args| ==> args[i] == args[1..][i - 1];
    }
  }

  /** `generate_doc_comments`: the doc lines of each memo, in order. */
  function GenerateDocComments(args: seq<NamedArg>): (r: seq<string>)
    ensures (forall i :: 0 <= i < |args| ==> !args[i].MemoArg?) ==> r == []
  {
    if args == [] then []
    else
      assert forall i :: 1 <= i < |args| ==> args[i] == args[1..][i - 1];
      (if args[0].MemoArg? then DocMemo.Memo(args[0].memo) else []) + GenerateDocComments(args[1..])
  }

  /** The values of the `memo = "..."` arguments of an attribute, in
      order. */
  function MemosIn(exprs: seq<Expr>): seq<string> {
    if exprs == [] then []
    else
      var e := exprs[0];
      (if e.Assign? && e.left == SynExpr.Path(["memo"]) && e.right.StrLit? then [e.right.value] else [])
      + MemosIn(exprs[1..])
  }

  /** The doc lines of a list of memos. */
  function MemoDocs(memos: seq<string>): seq<string> {
    if memos == [] then [] else DocMemo.Memo(memos[0]) + MemoDocs(memos[1..])
  }

  lemma {:induction false} MemosInAppend(a: seq<Expr>, b: seq<Expr>)
    ensures MemosIn(a + b) == MemosIn(a) + MemosIn(b)
    decreases |a|
  {
    if a == [] {
      assert a + b == b;
    } else {
      assert (a + b)[0] == a[0];
      assert (a + b)[1..] == a[1..] + b;
      MemosInAppend(a[1..], b);
    }
  }

  /** The doc comments are the doc lines of exactly the memos the tool
      attribute carries: the two outputs never disagree about the memos. */
  lemma {:induction false} DocsMatchToolAttr(args: seq<NamedArg>)
    ensures GenerateDocComments(args) == MemoDocs(MemosIn(GenerateToolAttr(args)))
    decreases |args|
  {
    if args != [] {
      var a := args[0];
      DocsMatchToolAttr(args[1..]);
      MemosInAppend(Chunk(a), GenerateToolAttr(args[1..]));
      var rest := MemosIn(GenerateToolAttr(args[1..]));
      match a
      case PropertyArg(p) =>
        assert MemosIn(Chunk(a)) == [];
        assert [] + rest == rest;
      case KindArg(_) =>
        assert MemosIn(Chunk(a)) == [];
        assert [] + rest == rest;
      case MemoArg(m) =>
        assert MemosIn(Chunk(a)) == [m];
        assert ([m] + rest)[1..] == rest;
    }
  }
}
