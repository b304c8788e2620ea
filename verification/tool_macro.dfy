/** The attribute macros of the prototype: one macro `Kind_Name` per
    supported pair of kind and property name, the `Memo` macro, the
    `pub_use!` re-export of a macro under the name after its prefix, and
    `generate`, which adds the doc comments and the inner tool attribute
    to a function's attributes. */
module ToolMacro {
  import O = Outcome
  import Text
  import SynExpr
  import DocMemo
  import DP = DemoProperty
  import DNA = DemoNamedArgs
  import S = NamedArgSet
  import NA = DriverNamedArgs
  import opened DriverProperty

  // ---------------------------------------------------------------------
  // Re-exports.

  /** Why `pub_use!` panics. */
  datatype MacroPanic = NoUnderscore(name: string) | NotAnIdent(alias: string)

  /** One `pub use ::safety_tool_macro::ident as alias;`. */
  datatype ReExport = ReExport(ident: string, alias: string)

  /** The position of the first `_`, if any. */
  function FindUnderscore(s: string): (r: O.Option<nat>)
    ensures r.None? <==> '_' !in s
    ensures r.Some? ==> r.value < |s| && s[r.value] == '_' && '_' !in s[..r.value]
  {
    if s == [] then O.None
    else if s[0] == '_' then O.Some(0)
    else
      match FindUnderscore(s[1..])
      case None => O.None
      case Some(k) =>
        assert s[..k + 1] == [s[0]] + s[1..][..k];
        O.Some(k + 1)
  }

  /** An identifier cannot be empty or start with a digit. */
  predicate IdentText(s: string) {
    s != [] && !('0' <= s[0] <= '9')
  }

  /** The alias of one macro: the text after its first `_`, which must
      itself be an identifier. */
  function AliasOf(name: string): (r: O.Result<string, MacroPanic>)
    ensures '_' !in name ==> r == O.Err(NoUnderscore(name))
    ensures r.Ok? ==> exists k :: 0 <= k < |name| && name[k] == '_' && '_' !in name[..k] && r.value == name[k + 1..]
    ensures r.Ok? ==> IdentText(r.value)
  {
    match FindUnderscore(name)
    case None => O.Err(NoUnderscore(name))
    case Some(k) =>
      var alias := name[k + 1..];
      if IdentText(alias) then O.Ok(alias) else O.Err(NotAnIdent(alias))
  }

  /** A prefix without `_`, then `_`, then an identifier: the alias is the
      identifier. */
  lemma AliasOfPrefixed(prefix: string, name: string)
    requires '_' !in prefix && IdentText(name)
    ensures AliasOf(prefix + "_" + name) == O.Ok(name)
  {
    var s := prefix + "_" + name;
    assert s[|prefix|] == '_';
    assert s[..|prefix|] == prefix;
    var k := FindUnderscore(s).value;
    assert forall j :: 0 <= j < |prefix| ==> s[j] == prefix[j];
    assert s[..k + 1][k] == '_';
    assert k == |prefix|;
    assert s[|prefix| + 1..] == name;
  }

  /** `pub_use!`: one re-export per identifier, in order; the first
      identifier without an alias panics. */
  function PubUse(idents: seq<string>): (r: O.Result<seq<ReExport>, MacroPanic>)
    ensures r.Ok? <==> forall i :: 0 <= i < |idents| ==> AliasOf(idents[i]).Ok?
    ensures r.Ok? ==> |r.value| == |idents|
    ensures r.Ok? ==> forall i :: 0 <= i < |idents| ==> r.value[i] == ReExport(idents[i], AliasOf(idents[i]).value)
    ensures r.Err? ==> exists i :: 0 <= i < |idents| && AliasOf(idents[i]) == O.Err(r.error)
                                   && (forall j :: 0 <= j < i ==> AliasOf(idents[j]).Ok?)
  {
    if idents == [] then O.Ok([])
    else
      var alias :- AliasOf(idents[0]);
      var rest := PubUse(idents[1..]);
      assert forall i :: 0 < i < |idents| ==> idents[i] == idents[1..][i - 1];
      match rest
      case Err(e) =>
        var i :| 0 <= i < |idents[1..]| && AliasOf(idents[1..][i]) == O.Err(e)
                 && (forall j :: 0 <= j < i ==> AliasOf(idents[1..][j]).Ok?);
        assert AliasOf(idents[i + 1]) == O.Err(e);
        O.Err(e)
      case Ok(tail) => O.Ok([ReExport(idents[0], alias)] + tail)
  }

  // ---------------------------------------------------------------------
  // The generated macros.

  /** One attribute macro: its name and the kind and property it passes to
      `generate`. */
  datatype MacroDef = MacroDef(name: string, kind: Kind, property: PropertyName)

  /** The kind as it leads a macro name. */
  function KindPrefix(k: Kind): string {
    match k
    case Precond => "Precond"
    case Hazard => "Hazard"
    case Option => "Option"
    case Memo => "Memo"
  }

  /** The number of macros `kind_property!` declares. */
  const MacroCount: nat := 28

  /** The `kind_property!` table, entry by entry in declaration order. */
  function Macro(i: nat): MacroDef
    requires i < MacroCount
  {
    match i
    case 0 => MacroDef("Precond_Align", Precond, Align)
    case 1 => MacroDef("Precond_Size", Precond, Size)
    case 2 => MacroDef("Precond_NoPadding", Precond, NoPadding)
    case 3 => MacroDef("Precond_NotNull", Precond, NotNull)
    case 4 => MacroDef("Precond_Allocated", Precond, Allocated)
    case 5 => MacroDef("Precond_InBound", Precond, InBound)
    case 6 => MacroDef("Precond_NotOverlap", Precond, NotOverlap)
    case 7 => MacroDef("Precond_ValidNum", Precond, ValidNum)
    case 8 => MacroDef("Precond_ValidString", Precond, ValidString)
    case 9 => MacroDef("Precond_ValidCStr", Precond, ValidCStr)
    case 10 => MacroDef("Precond_Init", Precond, Init)
    case 11 => MacroDef("Precond_Unwrap", Precond, Unwrap)
    case 12 => MacroDef("Precond_Typed", Precond, Typed)
    case 13 => MacroDef("Precond_Owning", Precond, Owning)
    case 14 => MacroDef("Precond_Alias", Precond, Alias)
    case 15 => MacroDef("Precond_Alive", Precond, Alive)
    case 16 => MacroDef("Precond_Pinned", Precond, Pinned)
    case 17 => MacroDef("Precond_NotVolatile", Precond, NotVolatile)
    case 18 => MacroDef("Precond_Opened", Precond, Opened)
    case 19 => MacroDef("Precond_Trait", Precond, Trait)
    case 20 => MacroDef("Precond_Unreachable", Precond, Unreachable)
    case 21 => MacroDef("Hazard_ValidString", Hazard, ValidString)
    case 22 => MacroDef("Hazard_Init", Hazard, Init)
    case 23 => MacroDef("Hazard_Alias", Hazard, Alias)
    case 24 => MacroDef("Hazard_Pinned", Hazard, Pinned)
    case 25 => MacroDef("Option_Size", Option, Size)
    case 26 => MacroDef("Option_Init", Option, Init)
    case _ => MacroDef("Option_Trait", Option, Trait)
  }

  /** All the macros `kind_property!` declares. */
  const KindProperty: seq<MacroDef> := seq(MacroCount, i requires 0 <= i < MacroCount => Macro(i))

  /** The `Memo` macro. */
  const MemoMacro: MacroDef := MacroDef("Memo", Memo, Unknown)

  /** A macro named `Kind_Name` after exactly the kind and the known
      property it passes on. */
  predicate WellNamed(d: MacroDef) {
    d.name == KindPrefix(d.kind) + "_" + ToStr(d.property) && d.kind != Memo && d.property != Unknown
  }

  lemma WellNamedFrom0(i: nat)
    requires 0 <= i < 4
    ensures WellNamed(Macro(i))
  {
  }

  lemma WellNamedFrom4(i: nat)
    requires 4 <= i < 8
    ensures WellNamed(Macro(i))
  {
  }

  lemma WellNamedFrom8(i: nat)
    requires 8 <= i < 12
    ensures WellNamed(Macro(i))
  {
  }

  lemma WellNamedFrom12(i: nat)
    requires 12 <= i < 16
    ensures WellNamed(Macro(i))
  {
  }

  lemma WellNamedFrom16(i: nat)
    requires 16 <= i < 20
    ensures WellNamed(Macro(i))
  {
  }

  lemma WellNamedFrom20(i: nat)
    requires 20 <= i < 24
    ensures WellNamed(Macro(i))
  {
  }

  lemma WellNamedFrom24(i: nat)
    requires 24 <= i < 28
    ensures WellNamed(Macro(i))
  {
  }

  /** Every macro of the table is well named. */
  lemma TableNamesMacros(i: nat)
    requires i < |KindProperty|
    ensures WellNamed(KindProperty[i])
  {
    if i < 4 { WellNamedFrom0(i); }
    else if i < 8 { WellNamedFrom4(i); }
    else if i < 12 { WellNamedFrom8(i); }
    else if i < 16 { WellNamedFrom12(i); }
    else if i < 20 { WellNamedFrom16(i); }
    else if i < 24 { WellNamedFrom20(i); }
    else { WellNamedFrom24(i); }
  }

  /** Re-exporting a macro of the table names it after its property. */
  lemma TableAliases(i: nat)
    requires i < |KindProperty|
    ensures AliasOf(KindProperty[i].name) == O.Ok(ToStr(KindProperty[i].property))
  {
    var d := KindProperty[i];
    TableNamesMacros(i);
    assert ToStr(d.property)[0] in "ABCDEFGHIJKLMNOPQRSTUVWXYZ";
    AliasOfPrefixed(KindPrefix(d.kind), ToStr(d.property));
  }

  /** `Memo` has no prefix to strip. */
  lemma MemoNotReExportable()
    ensures AliasOf(MemoMacro.name) == O.Err(NoUnderscore("Memo"))
  {
  }

  // ---------------------------------------------------------------------
  // Generation.

  /** An attribute of a function: a doc line, the inner tool attribute
      with its arguments, or any other attribute, kept as its text. */
  datatype Attr = Doc(line: string) | SafetyInner(args: seq<SynExpr.Expr>) | OtherAttr(text: string)

  function Docs(lines: seq<string>): (r: seq<Attr>)
    ensures |r| == |lines| && forall i :: 0 <= i < |lines| ==> r[i] == Doc(lines[i])
  {
    seq(|lines|, i requires 0 <= i < |lines| => Doc(lines[i]))
  }

  /** The function's attributes, then the doc lines of the arguments,
      then their tool attribute (`insert_attributes_to_the_back` twice). */
  function Expand(fnAttrs: seq<Attr>, args: seq<NA.NamedArg>): (r: seq<Attr>)
    ensures |r| == |fnAttrs| + |NA.GenerateDocComments(args)| + 1
    ensures r[..|fnAttrs|] == fnAttrs
    ensures forall i :: 0 <= i < |NA.GenerateDocComments(args)| ==> r[|fnAttrs| + i] == Doc(NA.GenerateDocComments(args)[i])
    ensures r[|r| - 1] == SafetyInner(NA.GenerateToolAttr(args))
  {
    var docs := Docs(NA.GenerateDocComments(args));
    var front := fnAttrs + docs;
    var r := front + [SafetyInner(NA.GenerateToolAttr(args))];
    assert r[..|fnAttrs|] == fnAttrs by {
      assert r[..|front|] == front;
    }
    assert forall i :: 0 <= i < |docs| ==> r[|fnAttrs| + i] == docs[i] by {
      forall i | 0 <= i < |docs|
        ensures r[|fnAttrs| + i] == docs[i]
      {
        Text.IndexAppend(fnAttrs, docs, i);
      }
    }
    r
  }

  /** `generate`: reads the macro's arguments with the macro's kind and
      property, `kind` arguments read by `rd`; the function keeps its own
      attributes in front and gains the tool attribute last. */
  function Generate(rd: NA.Reading, kind: Kind, property: PropertyName, exprs: seq<SynExpr.Expr>, fnAttrs: seq<Attr>)
    : (r: O.Result<seq<Attr>, Panic>)
    ensures r.Ok? <==> NA.ParseNamedArgs(exprs, rd).Ok?
    ensures r.Err? ==> r.error == NA.ParseNamedArgs(exprs, rd).error
    ensures r.Ok? ==> |r.value| > |fnAttrs| && r.value[..|fnAttrs|] == fnAttrs && r.value[|r.value| - 1].SafetyInner?
  {
    var args :- NA.NewKindAndProperty(exprs, kind, property, rd);
    O.Ok(Expand(fnAttrs, args))
  }

  /** Between the two lie only doc lines, and the tool attribute starts
      with the property the macro names, over the positional arguments,
      and its kind. */
  lemma GenerateLayout(rd: NA.Reading, kind: Kind, property: PropertyName, exprs: seq<SynExpr.Expr>, fnAttrs: seq<Attr>)
    requires Generate(rd, kind, property, exprs, fnAttrs).Ok?
    ensures var r := Generate(rd, kind, property, exprs, fnAttrs).value;
      && (forall i :: |fnAttrs| <= i < |r| - 1 ==> r[i].Doc?)
      && |r[|r| - 1].args| >= 2
      && r[|r| - 1].args[..2] == NA.Chunk(NA.PropertyArg(FromComponents(kind, property, DNA.Positional(exprs))))
  {
    var args := NA.NewKindAndProperty(exprs, kind, property, rd).value;
    var r := Expand(fnAttrs, args);
    assert Generate(rd, kind, property, exprs, fnAttrs).value == r;
    assert forall i :: |fnAttrs| <= i < |r| - 1 ==> r[i] == r[|fnAttrs| + (i - |fnAttrs|)];
    assert NA.GenerateToolAttr(args)[..2] == NA.Chunk(args[0]);
  }

  /** One named argument after arguments that are not assignments is the
      one named argument; the others are all positional. */
  lemma OneNamedParsed(rd: NA.Reading, args: seq<SynExpr.Expr>, n: string, v: string, a: NA.NamedArg)
    requires forall i :: 0 <= i < |args| ==> !args[i].Assign?
    requires NA.Reader(rd)(n, SynExpr.StrLit(v)) == O.Ok(a)
    ensures NA.ParseNamedArgs(args + [DP.NamedValue(n, SynExpr.StrLit(v))], rd) == O.Ok(([a], args))
  {
    var e := DP.NamedValue(n, SynExpr.StrLit(v));
    var none: seq<NA.NamedArg> := [];
    var nothing: seq<SynExpr.Expr> := [];
    S.PositionalPrefix(args, [e], none, nothing, NA.Reader(rd));
    assert nothing + args == args;
    assert [e][1..] == [];
    assert none + [a] == [a];
    assert ExprIdent(e.left) == O.Ok(n);
    assert S.ParseNamedArgs([], [a], args, NA.Reader(rd)) == O.Ok(([a], args));
  }

  /** A memo reads as a memo under either reading. */
  lemma MemoUseParsed(rd: NA.Reading, args: seq<SynExpr.Expr>, m: string)
    requires forall i :: 0 <= i < |args| ==> !args[i].Assign?
    ensures NA.ParseNamedArgs(args + [DP.NamedValue("memo", SynExpr.StrLit(m))], rd) == O.Ok(([NA.MemoArg(m)], args))
  {
    OneNamedParsed(rd, args, "memo", m, NA.MemoArg(m));
  }

  /** Then the set holds the property over those arguments, then the
      named argument. */
  lemma OneNamedCollected(rd: NA.Reading, kind: Kind, property: PropertyName, args: seq<SynExpr.Expr>, e: SynExpr.Expr, a: NA.NamedArg)
    requires !a.PropertyArg?
    requires NA.ParseNamedArgs(args + [e], rd) == O.Ok(([a], args))
    ensures NA.NewKindAndProperty(args + [e], kind, property, rd)
      == O.Ok([NA.PropertyArg(FromComponents(kind, property, args)), a])
  {
    var exprs := args + [e];
    assert NA.NamedOf(exprs, rd) == [a] && DNA.Positional(exprs) == args;
    var p := NA.PropertyArg(FromComponents(kind, property, args));
    var collected := NA.NewKindAndProperty(exprs, kind, property, rd).value;
    assert collected == [p, collected[1]];
    assert multiset{p, collected[1]} == multiset{p, a};
    assert multiset{p, collected[1]}[a] == 1;
  }

  /** The doc lines and the tool attribute of that set. */
  lemma MemoUseOutputs(kind: Kind, property: PropertyName, args: seq<SynExpr.Expr>, m: string)
    ensures var collected := [NA.PropertyArg(FromComponents(kind, property, args)), NA.MemoArg(m)];
      && NA.GenerateDocComments(collected) == DocMemo.Memo(m)
      && NA.GenerateToolAttr(collected)
         == [DP.NamedValue("property", SynExpr.Call(SynExpr.Path([ToStr(property)]), args)),
             DP.NamedValue("kind", SynExpr.StrLit(KindToken(kind))),
             DP.NamedValue("memo", SynExpr.StrLit(m))]
  {
    var p := NA.PropertyArg(FromComponents(kind, property, args));
    MemoUseDocs(p, m);
    MemoUseAttr(kind, property, args, m);
  }

  /** Only the memo of a property and a memo yields doc lines. */
  lemma MemoUseDocs(p: NA.NamedArg, m: string)
    requires p.PropertyArg?
    ensures NA.GenerateDocComments([p, NA.MemoArg(m)]) == DocMemo.Memo(m)
  {
    var collected := [p, NA.MemoArg(m)];
    var memo := DocMemo.Memo(m);
    assert collected[1..] == [NA.MemoArg(m)];
    assert collected[1..][1..] == [];
    assert NA.GenerateDocComments(collected[1..]) == memo + [];
    assert memo + [] == memo;
  }

  lemma MemoUseAttr(kind: Kind, property: PropertyName, args: seq<SynExpr.Expr>, m: string)
    ensures var collected := [NA.PropertyArg(FromComponents(kind, property, args)), NA.MemoArg(m)];
      NA.GenerateToolAttr(collected)
         == [DP.NamedValue("property", SynExpr.Call(SynExpr.Path([ToStr(property)]), args)),
             DP.NamedValue("kind", SynExpr.StrLit(KindToken(kind))),
             DP.NamedValue("memo", SynExpr.StrLit(m))]
  {
    var p := NA.PropertyArg(FromComponents(kind, property, args));
    var collected := [p, NA.MemoArg(m)];
    assert collected[1..] == [NA.MemoArg(m)];
    assert collected[1..][1..] == [];
    assert NA.GenerateToolAttr(collected) == NA.Chunk(p) + (NA.Chunk(NA.MemoArg(m)) + []);
  }

  /** The usual use, `#[Kind_Name(args.., memo = "m")]`, under either
      reading: the function gains the doc lines of the memo, then one tool
      attribute holding the property call, its kind and the memo. */
  lemma MemoUse(rd: NA.Reading, d: MacroDef, args: seq<SynExpr.Expr>, m: string, fnAttrs: seq<Attr>)
    requires forall i :: 0 <= i < |args| ==> !args[i].Assign?
    ensures Generate(rd, d.kind, d.property, args + [DP.NamedValue("memo", SynExpr.StrLit(m))], fnAttrs)
      == O.Ok(fnAttrs + Docs(DocMemo.Memo(m)) + [SafetyInner([
           DP.NamedValue("property", SynExpr.Call(SynExpr.Path([ToStr(d.property)]), args)),
           DP.NamedValue("kind", SynExpr.StrLit(KindToken(d.kind))),
           DP.NamedValue("memo", SynExpr.StrLit(m))])])
  {
    var memo := DP.NamedValue("memo", SynExpr.StrLit(m));
    MemoUseParsed(rd, args, m);
    OneNamedCollected(rd, d.kind, d.property, args, memo, NA.MemoArg(m));
    MemoUseOutputs(d.kind, d.property, args, m);
    var collected := [NA.PropertyArg(FromComponents(d.kind, d.property, args)), NA.MemoArg(m)];
    assert Generate(rd, d.kind, d.property, args + [memo], fnAttrs) == O.Ok(Expand(fnAttrs, collected));
  }

  /** As written, `#[Kind_Name(args.., kind = "v")]` expands exactly as
      `memo = "v"` does: the function gains a doc line of `v` and the tool
      attribute carries `memo = "v"`. */
  lemma KindUseAsWritten(d: MacroDef, args: seq<SynExpr.Expr>, v: string, fnAttrs: seq<Attr>)
    requires forall i :: 0 <= i < |args| ==> !args[i].Assign?
    ensures Generate(NA.AsWritten, d.kind, d.property, args + [DP.NamedValue("kind", SynExpr.StrLit(v))], fnAttrs)
      == O.Ok(fnAttrs + Docs(DocMemo.Memo(v)) + [SafetyInner([
           DP.NamedValue("property", SynExpr.Call(SynExpr.Path([ToStr(d.property)]), args)),
           DP.NamedValue("kind", SynExpr.StrLit(KindToken(d.kind))),
           DP.NamedValue("memo", SynExpr.StrLit(v))])])
  {
    var e := DP.NamedValue("kind", SynExpr.StrLit(v));
    OneNamedParsed(NA.AsWritten, args, "kind", v, NA.MemoArg(v));
    OneNamedCollected(NA.AsWritten, d.kind, d.property, args, e, NA.MemoArg(v));
    MemoUseOutputs(d.kind, d.property, args, v);
    var collected := [NA.PropertyArg(FromComponents(d.kind, d.property, args)), NA.MemoArg(v)];
    assert Generate(NA.AsWritten, d.kind, d.property, args + [e], fnAttrs) == O.Ok(Expand(fnAttrs, collected));
  }

  /** Read correctly, a `kind` argument adds neither a doc line nor a
      memo: the function gains only the tool attribute with the property
      and its kind. */
  lemma KindUseCorrected(d: MacroDef, args: seq<SynExpr.Expr>, v: string, fnAttrs: seq<Attr>)
    requires forall i :: 0 <= i < |args| ==> !args[i].Assign?
    ensures Generate(NA.Corrected, d.kind, d.property, args + [DP.NamedValue("kind", SynExpr.StrLit(v))], fnAttrs)
      == O.Ok(fnAttrs + [SafetyInner([
           DP.NamedValue("property", SynExpr.Call(SynExpr.Path([ToStr(d.property)]), args)),
           DP.NamedValue("kind", SynExpr.StrLit(KindToken(d.kind)))])])
  {
    var e := DP.NamedValue("kind", SynExpr.StrLit(v));
    OneNamedParsed(NA.Corrected, args, "kind", v, NA.KindArg(v));
    OneNamedCollected(NA.Corrected, d.kind, d.property, args, e, NA.KindArg(v));
    var p := NA.PropertyArg(FromComponents(d.kind, d.property, args));
    var collected := [p, NA.KindArg(v)];
    KindUseOutputs(p, v);
    assert Docs([]) == [];
    assert Generate(NA.Corrected, d.kind, d.property, args + [e], fnAttrs) == O.Ok(Expand(fnAttrs, collected));
  }

  /** A kind argument contributes nothing to either output. */
  lemma KindUseOutputs(p: NA.NamedArg, v: string)
    requires p.PropertyArg?
    ensures NA.GenerateDocComments([p, NA.KindArg(v)]) == []
    ensures NA.GenerateToolAttr([p, NA.KindArg(v)]) == NA.Chunk(p)
  {
    var collected := [p, NA.KindArg(v)];
    assert collected[1..] == [NA.KindArg(v)] && collected[1..][1..] == [];
    assert NA.GenerateToolAttr(collected) == NA.Chunk(p) + ([] + []);
    assert NA.Chunk(p) + ([] + []) == NA.Chunk(p);
  }
}
