/** Reading the arguments of a prototype safety attribute: `name = value`
    pairs become named arguments, everything else is positional; the inner
    tool attribute is read back into one property; and the tool attribute
    is generated from a named-argument list. */
module DemoNamedArgs {
  import O = Outcome
  import Text
  import SynExpr
  import DocMemo
  import opened DemoProperty

  /** `NamedArg::new`: a string `memo`, a string `kind`, or a `property`
      call; any other name, or a `memo`/`kind` that is not a string, panics. */
  function NamedArgNew(ident: string, e: Expr): (r: O.Result<NamedArg, Panic>)
    ensures ident == "memo" && e.StrLit? ==> r == O.Ok(MemoArg(e.value))
    ensures ident == "kind" && e.StrLit? ==> r == O.Ok(KindArg(e.value))
    ensures ident == "property" ==> (r.Ok? <==> FromCall(e).Ok?)
    ensures ident == "property" && r.Ok? ==> r.value == PropertyArg(FromCall(e).value)
    ensures ident != "property" && !(ident in {"memo", "kind"} && e.StrLit?) ==> r == O.Err(UnsupportedName(ident))
    ensures r.Ok? && r.value.PropertyArg? ==> r.value.property.kind == Memo && r.value.property.memo.None?
  {
    if ident == "memo" && e.StrLit? then O.Ok(MemoArg(e.value))
    else if ident == "kind" && e.StrLit? then O.Ok(KindArg(e.value))
    else if ident == "property" then
      var p :- FromCall(e);
      O.Ok(PropertyArg(p))
    else O.Err(UnsupportedName(ident))
  }

  /** The argument expressions that are not assignments, in order. */
  function Positional(exprs: seq<Expr>): (r: seq<Expr>)
    ensures |r| <= |exprs|
  {
    if exprs == [] then []
    else (if exprs[0].Assign? then [] else [exprs[0]]) + Positional(exprs[1..])
  }

  /** The assignments, in order. */
  function Assignments(exprs: seq<Expr>): (r: seq<Expr>)
    ensures |r| + |Positional(exprs)| == |exprs|
    ensures forall i :: 0 <= i < |r| ==> r[i].Assign?
  {
    if exprs == [] then []
    else (if exprs[0].Assign? then [exprs[0]] else []) + Assignments(exprs[1..])
  }

  /** One assignment read as a named argument. */
  function ReadAssign(e: Expr): O.Result<NamedArg, Panic>
    requires e.Assign?
  {
    var id :- ExprIdent(e.left);
    NamedArgNew(id, e.right)
  }

  /** An argument `parse_named_args` accepts. */
  predicate Readable(e: Expr) {
    e.Assign? ==> ReadAssign(e).Ok?
  }

  /** `parse_named_args`: assignments become named arguments and the other
      expressions stay positional; the first assignment that cannot be
      read panics. */
  function ParseNamedArgs(exprs: seq<Expr>): (r: O.Result<(seq<NamedArg>, seq<Expr>), Panic>)
    ensures r.Ok? ==> |r.value.0| + |r.value.1| == |exprs|
    decreases |exprs|
  {
    if exprs == [] then O.Ok(([], []))
    else if exprs[0].Assign? then
      match ReadAssign(exprs[0])
      case Err(x) => O.Err(x)
      case Ok(a) =>
        match ParseNamedArgs(exprs[1..])
        case Err(x) => O.Err(x)
        case Ok(rest) => O.Ok(([a] + rest.0, rest.1))
    else
      match ParseNamedArgs(exprs[1..])
      case Err(x) => O.Err(x)
      case Ok(rest) => O.Ok((rest.0, [exprs[0]] + rest.1))
  }

  /** Reading succeeds exactly when every assignment can be read; then the
      named arguments are the assignments read in order, and the positional
      arguments are the other expressions in order. */
  lemma ParseNamedArgsSpec(exprs: seq<Expr>)
    ensures ParseNamedArgs(exprs).Ok? <==> forall i :: 0 <= i < |exprs| ==> Readable(exprs[i])
    ensures ParseNamedArgs(exprs).Ok? ==> ParseNamedArgs(exprs).value.1 == Positional(exprs)
    ensures ParseNamedArgs(exprs).Ok? ==> |ParseNamedArgs(exprs).value.0| == |Assignments(exprs)|
    ensures ParseNamedArgs(exprs).Ok? ==> forall i :: 0 <= i < |Assignments(exprs)| ==>
      ReadAssign(Assignments(exprs)[i]) == O.Ok(ParseNamedArgs(exprs).value.0[i])
  {
    ParseNamedArgsOk(exprs);
    if ParseNamedArgs(exprs).Ok? {
      ParseNamedArgsOutputs(exprs);
    }
  }

  lemma {:induction false} ParseNamedArgsOk(exprs: seq<Expr>)
    ensures ParseNamedArgs(exprs).Ok? <==> forall i :: 0 <= i < |exprs| ==> Readable(exprs[i])
    decreases |exprs|
  {
    if exprs != [] {
      var tail := exprs[1..];
      ParseNamedArgsOk(tail);
      assert forall i :: 0 < i < |exprs| ==> exprs[i] == tail[i - 1];
    }
  }

  lemma {:induction false} ParseNamedArgsOutputs(exprs: seq<Expr>)
    requires ParseNamedArgs(exprs).Ok?
    ensures ParseNamedArgs(exprs).value.1 == Positional(exprs)
    ensures |ParseNamedArgs(exprs).value.0| == |Assignments(exprs)|
    ensures forall i :: 0 <= i < |Assignments(exprs)| ==>
      ReadAssign(Assignments(exprs)[i]) == O.Ok(ParseNamedArgs(exprs).value.0[i])
    decreases |exprs|
  {
    if exprs != [] {
      var e := exprs[0];
      var tail := exprs[1..];
      ParseNamedArgsOutputs(tail);
      var r := ParseNamedArgs(tail).value;
      if e.Assign? {
        assert Assignments(exprs) == [e] + Assignments(tail);
        assert ParseNamedArgs(exprs).value == ([ReadAssign(e).value] + r.0, r.1);
      } else {
        assert Assignments(exprs) == Assignments(tail);
        assert ParseNamedArgs(exprs).value == (r.0, [e] + r.1);
      }
    }
  }

  /** Reading two argument lists one after the other. */
  lemma {:induction false} ParseNamedArgsAppend(a: seq<Expr>, b: seq<Expr>)
    requires ParseNamedArgs(a).Ok? && ParseNamedArgs(b).Ok?
    ensures ParseNamedArgs(a + b)
      == O.Ok((ParseNamedArgs(a).value.0 + ParseNamedArgs(b).value.0, ParseNamedArgs(a).value.1 + ParseNamedArgs(b).value.1))
    decreases |a|
  {
    if a == [] {
      Text.AppendNil(b);
      var rb := ParseNamedArgs(b).value;
      assert ParseNamedArgs(a) == O.Ok(([], []));
      Text.AppendNil(rb.0);
      Text.AppendNil(rb.1);
    } else {
      Text.TailAppend(a, b);
      ParseNamedArgsAppend(a[1..], b);
      var ra := ParseNamedArgs(a[1..]).value;
      var rb := ParseNamedArgs(b).value;
      if a[0].Assign? {
        var x := ReadAssign(a[0]).value;
        Text.AppendAssoc([x], ra.0, rb.0);
      } else {
        Text.AppendAssoc([a[0]], ra.1, rb.1);
      }
    }
  }

  /** Reading an assignment in front of an argument list. */
  lemma ParseNamedArgsCons(e: Expr, rest: seq<Expr>)
    requires e.Assign? && ReadAssign(e).Ok? && ParseNamedArgs(rest).Ok?
    ensures rest == [] ==> ParseNamedArgs([e]) == O.Ok(([ReadAssign(e).value], []))
    ensures ParseNamedArgs([e] + rest)
      == O.Ok(([ReadAssign(e).value] + ParseNamedArgs(rest).value.0, ParseNamedArgs(rest).value.1))
  {
    assert ([e] + rest)[0] == e;
    assert ([e] + rest)[1..] == rest;
    if rest == [] {
      assert [e] + rest == [e];
      assert ParseNamedArgs(rest) == O.Ok(([], []));
      assert [ReadAssign(e).value] + [] == [ReadAssign(e).value];
    }
  }

  function PropertyOf(a: NamedArg): O.Option<Property> {
    if a.PropertyArg? then O.Some(a.property) else O.None
  }

  function KindOf(a: NamedArg): O.Option<string> {
    if a.KindArg? then O.Some(a.kind) else O.None
  }

  /** `parse_inner_attr_from_str` given the attributes the text parses
      into, each as its argument list: no attribute is nothing, two are a
      panic; otherwise the first property, with the kind of the first kind
      argument and the first memo. Positional arguments are dropped. */
  function ParseInnerAttr(attrs: seq<seq<Expr>>): (r: O.Result<O.Option<Property>, Panic>)
    ensures attrs == [] ==> r == O.Ok(O.None)
    ensures |attrs| >= 2 ==> r == O.Err(MultipleAttributes)
    ensures r.Ok? && r.value.Some? ==> |attrs| == 1 && ParseNamedArgs(attrs[0]).Ok?
    ensures r.Ok? && r.value.Some? ==>
      var named := ParseNamedArgs(attrs[0]).value.0;
      var p := r.value.value;
      && DocMemo.FindSome(named, PropertyOf) == O.Some(p.(kind := Memo, memo := O.None))
      && DocMemo.FindSome(named, KindOf) == O.Some(KindToken(p.kind))
      && p.memo == DocMemo.FindSome(named, MemoOf)
  {
    if |attrs| >= 2 then O.Err(MultipleAttributes)
    else if attrs == [] then O.Ok(O.None)
    else
      var (named, _) :- ParseNamedArgs(attrs[0]);
      match DocMemo.FindSome(named, PropertyOf)
      case None => O.Err(NoProperty)
      case Some(property) =>
        ParseNamedArgsSpec(attrs[0]);
        assert forall i :: 0 <= i < |named| ==> ReadAssign(Assignments(attrs[0])[i]) == O.Ok(named[i]);
        FromCallIsMemo(named);
        match DocMemo.FindSome(named, KindOf)
        case None => O.Err(NoKind)
        case Some(k) =>
          var kind :- KindNew(k);
          O.Ok(O.Some(property.(kind := kind, memo := DocMemo.FindSome(named, MemoOf))))
  }

  /** A property read from an argument list has kind `Memo` and no memo
      until the attribute sets them. */
  lemma FromCallIsMemo(named: seq<NamedArg>)
    requires forall i :: 0 <= i < |named| && named[i].PropertyArg? ==>
      named[i].property.kind == Memo && named[i].property.memo.None?
    ensures DocMemo.FindSome(named, PropertyOf).Some? ==>
      DocMemo.FindSome(named, PropertyOf).value.kind == Memo && DocMemo.FindSome(named, PropertyOf).value.memo.None?
  {
  }

  /** The generated discharge attribute reads back as the property it was
      generated from. */
  lemma DischargeAttrRoundTrip(p: Property)
    ensures ParseInnerAttr([DischargeAttr(p)]) == O.Ok(O.Some(p))
  {
    var memos := if p.memo.Some? then [MemoArg(p.memo.value)] else [];
    var named := [PropertyArg(p)] + memos;
    assert DischargeAttr(p) == GenerateToolAttr(named) by {
      assert named[1..] == memos;
      if p.memo.Some? {
        assert GenerateToolAttr(memos) == Chunk(MemoArg(p.memo.value)) + GenerateToolAttr([]);
      }
    }
    assert DocMemo.FindSome(named, PropertyOf) == O.Some(p);
    assert DocMemo.FindSome(named, MemoOf) == p.memo by {
      assert named[1..] == memos;
    }
    GenerateRoundTrip(named);
  }

  /** `parse_inner_attr_from_tokenstream`: the first expression must be a
      call named `Memo`; its assignments are named arguments and the rest
      the property's arguments. `Memo` is not a property name, so the
      property is always `Unknown`. */
  function ParseInnerAttrFromTokens(exprs: seq<Expr>): (r: O.Result<Property, Panic>)
    ensures exprs == [] ==> r == O.Err(EmptyInput)
    ensures r.Ok? ==> exprs[0].Call? && exprs[0].func == SynExpr.Path(["Memo"])
    ensures r.Ok? ==> r.value.kind == Memo && r.value.name == Unknown
    ensures r.Ok? ==> ParseNamedArgs(exprs[0].args).Ok? && r.value.expr == Positional(exprs[0].args)
    ensures r.Ok? ==> r.value.memo == DocMemo.FindSome(ParseNamedArgs(exprs[0].args).value.0, MemoOf)
  {
    if exprs == [] then O.Err(EmptyInput)
    else if !exprs[0].Call? then O.Err(NotACall(exprs[0]))
    else
      var call := exprs[0];
      var (named, positional) :- ParseNamedArgs(call.args);
      var name :- ExprIdent(call.func);
      if name != "Memo" then O.Err(NotMemo(name))
      else
        ParseNamedArgsSpec(call.args);
        O.Ok(NewProperty(Memo, New(name), positional, named))
  }

  // ---------------------------------------------------------------------
  // Ordering of named arguments.

  /** Byte-wise ordering of strings. */
  function CmpStr(a: string, b: string): (r: Ordering)
    ensures r == Equal <==> a == b
    ensures r == Less <==> Text.Less(a, b)
  {
    Text.LessIrreflexive(a);
    if a == b then Equal else if Text.Less(a, b) then Less else Greater
  }

  function VariantIndex(a: NamedArg): nat {
    match a
    case PropertyArg(_) => 0
    case KindArg(_) => 1
    case MemoArg(_) => 2
  }

  /** The derived `Ord` of `NamedArg`: by variant, then by the payload. */
  function CmpNamed(a: NamedArg, b: NamedArg): (r: Ordering)
    ensures VariantIndex(a) < VariantIndex(b) ==> r == Less
    ensures a.PropertyArg? && b.PropertyArg? ==> r == Cmp(a.property, b.property)
    ensures a.KindArg? && b.KindArg? ==> r == CmpStr(a.kind, b.kind)
    ensures a.MemoArg? && b.MemoArg? ==> r == CmpStr(a.memo, b.memo)
  {
    if VariantIndex(a) != VariantIndex(b) then CmpNat(VariantIndex(a), VariantIndex(b))
    else match a
      case PropertyArg(p) => Cmp(p, b.property)
      case KindArg(k) => CmpStr(k, b.kind)
      case MemoArg(m) => CmpStr(m, b.memo)
  }

  predicate Le(a: NamedArg, b: NamedArg) {
    CmpNamed(a, b) != Greater
  }

  lemma LeTotal(a: NamedArg, b: NamedArg)
    ensures Le(a, b) || Le(b, a)
  {
    if a.KindArg? && b.KindArg? && a.kind != b.kind {
      Text.LessTotal(a.kind, b.kind);
    }
    if a.MemoArg? && b.MemoArg? && a.memo != b.memo {
      Text.LessTotal(a.memo, b.memo);
    }
  }

  lemma LeTransitive(a: NamedArg, b: NamedArg, c: NamedArg)
    requires Le(a, b) && Le(b, c)
    ensures Le(a, c)
  {
    if a.KindArg? && b.KindArg? && c.KindArg? && a.kind != b.kind && b.kind != c.kind {
      Text.LessTransitive(a.kind, b.kind, c.kind);
    }
    if a.MemoArg? && b.MemoArg? && c.MemoArg? && a.memo != b.memo && b.memo != c.memo {
      Text.LessTransitive(a.memo, b.memo, c.memo);
    }
  }

  /** Each argument is at most its successor. */
  predicate Sorted(s: seq<NamedArg>) {
    forall i :: 0 <= i < |s| - 1 ==> Le(s[i], s[i + 1])
  }

  /** Placing `x` before the first argument it is at most. */
  function InsertNamed(x: NamedArg, s: seq<NamedArg>): (r: seq<NamedArg>)
    requires Sorted(s)
    ensures Sorted(r)
    ensures multiset(r) == multiset(s) + multiset{x}
    ensures |r| == |s| + 1 && (r[0] == x || (s != [] && r[0] == s[0]))
  {
    if s == [] then [x]
    else if Le(x, s[0]) then [x] + s
    else
      LeTotal(x, s[0]);
      var tail := InsertNamed(x, s[1..]);
      assert s == [s[0]] + s[1..];
      [s[0]] + tail
  }

  /** `slice::sort` by the derived ordering; it is stable (SortStable). */
  function SortNamed(s: seq<NamedArg>): (r: seq<NamedArg>)
    ensures Sorted(r)
    ensures multiset(r) == multiset(s)
  {
    if s == [] then []
    else
      assert s == [s[0]] + s[1..];
      InsertNamed(s[0], SortNamed(s[1..]))
  }

  /** The arguments of `s` that compare equal to `y`, in order. */
  function EqualTo(s: seq<NamedArg>, y: NamedArg): (r: seq<NamedArg>)
    ensures |r| <= |s|
  {
    if s == [] then []
    else (if Same(s[0], y) then [s[0]] else []) + EqualTo(s[1..], y)
  }

  /** `a` and `b` compare equal. */
  predicate Same(a: NamedArg, b: NamedArg) {
    Le(a, b) && Le(b, a)
  }

  /** One argument in front of both lists keeps the relation between their
      equal runs, unless both it and `x` are equal to `y`. */
  lemma EqualToStep(x: NamedArg, a: NamedArg, rest: seq<NamedArg>, tail: seq<NamedArg>, y: NamedArg)
    requires !(Same(x, y) && Same(a, y))
    requires EqualTo(tail, y) == (if Same(x, y) then [x] else []) + EqualTo(rest, y)
    ensures EqualTo([a] + tail, y) == (if Same(x, y) then [x] else []) + EqualTo([a] + rest, y)
  {
    EqualToCons(a, tail, y);
    EqualToCons(a, rest, y);
    if Same(a, y) {
      assert EqualTo([a] + tail, y) == [a] + EqualTo(tail, y);
    }
  }

  lemma EqualToCons(a: NamedArg, s: seq<NamedArg>, y: NamedArg)
    ensures EqualTo([a] + s, y) == (if Same(a, y) then [a] else []) + EqualTo(s, y)
  {
    assert ([a] + s)[1..] == s;
  }

  /** Inserting `x` passes only arguments strictly below it, so none of
      them compares equal to an argument `x` compares equal to. */
  lemma {:induction false} InsertEqualTo(x: NamedArg, s: seq<NamedArg>, y: NamedArg)
    requires Sorted(s)
    ensures EqualTo(InsertNamed(x, s), y) == (if Same(x, y) then [x] else []) + EqualTo(s, y)
  {
    if s == [] {
      assert InsertNamed(x, s) == [x];
    } else if Le(x, s[0]) {
      assert InsertNamed(x, s) == [x] + s;
      assert ([x] + s)[1..] == s;
    } else {
      assert s == [s[0]] + s[1..];
      InsertEqualTo(x, s[1..], y);
      if Same(x, y) && Same(s[0], y) {
        LeTransitive(x, y, s[0]);
      }
      EqualToStep(x, s[0], s[1..], InsertNamed(x, s[1..]), y);
    }
  }

  /** The sort is stable: arguments that compare equal keep their input
      order. */
  lemma {:induction false} SortStable(s: seq<NamedArg>, y: NamedArg)
    ensures EqualTo(SortNamed(s), y) == EqualTo(s, y)
  {
    if s != [] {
      SortStable(s[1..], y);
      InsertEqualTo(s[0], SortNamed(s[1..]), y);
    }
  }

  /** Adjacent order gives order between any two positions. */
  lemma {:induction false} SortedAll(s: seq<NamedArg>, i: nat, j: nat)
    requires Sorted(s) && i <= j < |s|
    ensures Le(s[i], s[j])
    decreases j - i
  {
    if i == j {
      LeTotal(s[i], s[i]);
    } else {
      SortedAll(s, i + 1, j);
      LeTransitive(s[i], s[i + 1], s[j]);
    }
  }

  /** `NamedArgs::new_kind_and_property`: the named arguments of the
      attribute, plus the property built from the given kind and name, the
      positional arguments and the first memo; sorted. */
  function NewKindAndProperty(exprs: seq<Expr>, kind: Kind, name: PropertyName): (r: O.Result<seq<NamedArg>, Panic>)
    ensures r.Ok? <==> ParseNamedArgs(exprs).Ok?
    ensures r.Ok? ==> Sorted(r.value)
    ensures r.Ok? ==>
      var named := ParseNamedArgs(exprs).value.0;
      multiset(r.value) == multiset(named) + multiset{PropertyArg(NewProperty(kind, name, Positional(exprs), named))}
  {
    var (named, positional) :- ParseNamedArgs(exprs);
    ParseNamedArgsSpec(exprs);
    var property := NewProperty(kind, name, positional, named);
    O.Ok(SortNamed(named + [PropertyArg(property)]))
  }

  // ---------------------------------------------------------------------
  // The tool attribute.

  /** The arguments one named argument contributes. */
  function Chunk(a: NamedArg): seq<Expr> {
    match a
    case PropertyArg(p) => [NamedValue("property", PropertyCall(p)), NamedValue("kind", SynExpr.StrLit(KindToken(p.kind)))]
    case MemoArg(m) => [NamedValue("memo", SynExpr.StrLit(m))]
    case KindArg(_) => []
  }

  /** `generate_safety_tool_attribute`: each property as a call and its
      kind, each memo; kind arguments are dropped. */
  function GenerateToolAttr(named: seq<NamedArg>): (r: seq<Expr>)
    ensures |r| <= 2 * |named|
    ensures forall i :: 0 <= i < |r| ==> r[i].Assign? && SynExpr.IsIdent(r[i].left)
  {
    if named == [] then [] else Chunk(named[0]) + GenerateToolAttr(named[1..])
  }

  /** How the generated arguments read back: a property loses its kind and
      memo to separate arguments. */
  function ReadBack(named: seq<NamedArg>): seq<NamedArg> {
    if named == [] then [] else ReadBackOne(named[0]) + ReadBack(named[1..])
  }

  function ReadBackOne(a: NamedArg): seq<NamedArg> {
    match a
    case PropertyArg(p) => [PropertyArg(p.(kind := Memo, memo := O.None)), KindArg(KindToken(p.kind))]
    case MemoArg(m) => [MemoArg(m)]
    case KindArg(_) => []
  }

  /** The arguments of one named argument read back. */
  lemma ChunkReadsBack(a: NamedArg)
    ensures ParseNamedArgs(Chunk(a)) == O.Ok((ReadBackOne(a), []))
  {
    var c := Chunk(a);
    match a
    case PropertyArg(p) =>
      var q := p.(kind := Memo, memo := O.None);
      NameRoundTrip(p.name);
      SynExpr.IdentToString(ToStr(p.name));
      assert FromCall(PropertyCall(p)) == O.Ok(q);
      assert ReadAssign(c[0]) == O.Ok(PropertyArg(q));
      assert ReadAssign(c[1]) == O.Ok(KindArg(KindToken(p.kind)));
      ParseNamedArgsCons(c[1], []);
      assert [c[1]] == c[1..];
      ParseNamedArgsCons(c[0], c[1..]);
      assert [c[0]] + c[1..] == c;
      assert [PropertyArg(q)] + [KindArg(KindToken(p.kind))] == ReadBackOne(a);
    case MemoArg(m) =>
      ParseNamedArgsCons(c[0], []);
      assert [c[0]] + [] == c;
    case KindArg(_) =>
  }

  lemma {:induction false} GenerateReadsBack(named: seq<NamedArg>)
    ensures ParseNamedArgs(GenerateToolAttr(named)) == O.Ok((ReadBack(named), []))
    decreases |named|
  {
    if named != [] {
      var a := named[0];
      var rest := named[1..];
      GenerateReadsBack(rest);
      ChunkReadsBack(a);
      ParseNamedArgsAppend(Chunk(a), GenerateToolAttr(rest));
      var none: seq<Expr> := [];
      assert none + none == none;
      assert GenerateToolAttr(named) == Chunk(a) + GenerateToolAttr(rest);
      assert ReadBack(named) == ReadBackOne(a) + ReadBack(rest);
    }
  }

  /** What one read-back chunk offers to each search. */
  lemma OneFinds(a: NamedArg)
    ensures DocMemo.FindSome(ReadBackOne(a), MemoOf) == MemoOf(a)
    ensures DocMemo.FindSome(ReadBackOne(a), PropertyOf)
      == if a.PropertyArg? then O.Some(a.property.(kind := Memo, memo := O.None)) else O.None
    ensures DocMemo.FindSome(ReadBackOne(a), KindOf)
      == if a.PropertyArg? then O.Some(KindToken(a.property.kind)) else O.None
  {
    if a.PropertyArg? {
      assert ReadBackOne(a)[1..][1..] == [];
    }
  }

  /** Where the first property, the first kind and the first memo of the
      read-back arguments come from. */
  lemma ReadBackFinds(named: seq<NamedArg>)
    ensures DocMemo.FindSome(ReadBack(named), MemoOf) == DocMemo.FindSome(named, MemoOf)
    ensures DocMemo.FindSome(named, PropertyOf).None? ==>
      DocMemo.FindSome(ReadBack(named), PropertyOf).None? && DocMemo.FindSome(ReadBack(named), KindOf).None?
    ensures DocMemo.FindSome(named, PropertyOf).Some? ==>
      var p := DocMemo.FindSome(named, PropertyOf).value;
      && DocMemo.FindSome(ReadBack(named), PropertyOf) == O.Some(p.(kind := Memo, memo := O.None))
      && DocMemo.FindSome(ReadBack(named), KindOf) == O.Some(KindToken(p.kind))
  {
    ReadBackFindsMemo(named);
    ReadBackFindsProperty(named);
  }

  lemma {:induction false} ReadBackFindsMemo(named: seq<NamedArg>)
    ensures DocMemo.FindSome(ReadBack(named), MemoOf) == DocMemo.FindSome(named, MemoOf)
    decreases |named|
  {
    if named != [] {
      var a := named[0];
      ReadBackFindsMemo(named[1..]);
      assert ReadBack(named) == ReadBackOne(a) + ReadBack(named[1..]);
      DocMemo.FindSomeAppend(ReadBackOne(a), ReadBack(named[1..]), MemoOf);
      OneFinds(a);
    }
  }

  lemma {:induction false} ReadBackFindsProperty(named: seq<NamedArg>)
    ensures DocMemo.FindSome(named, PropertyOf).None? ==>
      DocMemo.FindSome(ReadBack(named), PropertyOf).None? && DocMemo.FindSome(ReadBack(named), KindOf).None?
    ensures DocMemo.FindSome(named, PropertyOf).Some? ==>
      var p := DocMemo.FindSome(named, PropertyOf).value;
      && DocMemo.FindSome(ReadBack(named), PropertyOf) == O.Some(p.(kind := Memo, memo := O.None))
      && DocMemo.FindSome(ReadBack(named), KindOf) == O.Some(KindToken(p.kind))
    decreases |named|
  {
    if named != [] {
      var a := named[0];
      var rest := ReadBack(named[1..]);
      assert ReadBack(named) == ReadBackOne(a) + rest;
      DocMemo.FindSomeAppend(ReadBackOne(a), rest, PropertyOf);
      DocMemo.FindSomeAppend(ReadBackOne(a), rest, KindOf);
      OneFinds(a);
      if !a.PropertyArg? {
        ReadBackFindsProperty(named[1..]);
      }
    }
  }

  /** The generated tool attribute reads back as the first property, with
      its kind and the first memo of the list; without a property it does
      not read back at all. */
  lemma GenerateRoundTrip(named: seq<NamedArg>)
    ensures DocMemo.FindSome(named, PropertyOf).None? ==> ParseInnerAttr([GenerateToolAttr(named)]) == O.Err(NoProperty)
    ensures DocMemo.FindSome(named, PropertyOf).Some? ==>
      ParseInnerAttr([GenerateToolAttr(named)])
        == O.Ok(O.Some(DocMemo.FindSome(named, PropertyOf).value.(memo := DocMemo.FindSome(named, MemoOf))))
  {
    GenerateReadsBack(named);
    ReadBackFinds(named);
    if DocMemo.FindSome(named, PropertyOf).Some? {
      KindRoundTrip(DocMemo.FindSome(named, PropertyOf).value.kind);
    }
  }
}
