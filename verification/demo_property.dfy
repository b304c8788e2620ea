/** The safety properties of the prototype attribute parser: their kinds and
    names, the ordering of properties, the generated discharge attribute and
    the generated documentation. The argument forms of an attribute
    (`NamedArg`) live here too, because a property can be one of them. */
module DemoProperty {
  import O = Outcome
  import Text
  import SynExpr
  import DocMemo

  type Expr = SynExpr.Expr

  /** Why a prototype parser operation panics. */
  datatype Panic =
    | InvalidKind(kind: string)
    | ArgLength(property: PropertyName)
    | IndexOutOfBounds(index: nat)
    | NotAPath(expr: Expr)
    | NotACall(expr: Expr)
    | MissingArgument
    | UnsupportedName(name: string)
    | MultipleAttributes
    | NoProperty
    | NoKind
    | NotMemo(name: string)
    | EmptyInput

  // ---------------------------------------------------------------------
  // Kinds.

  datatype Kind = Precond | Hazard | Option | Memo

  /** The string literal a kind is written as. */
  function KindToken(k: Kind): string {
    match k
    case Precond => "precond"
    case Hazard => "hazard"
    case Option => "option"
    case Memo => "memo"
  }

  /** `Kind::new`: the inverse of the token strings, a panic otherwise. */
  function KindNew(s: string): (r: O.Result<Kind, Panic>)
    ensures r.Ok? <==> s in {"precond", "hazard", "option", "memo"}
    ensures r.Ok? ==> KindToken(r.value) == s
    ensures r.Err? ==> r.error == InvalidKind(s)
  {
    match s
    case "precond" => O.Ok(Precond)
    case "hazard" => O.Ok(Hazard)
    case "option" => O.Ok(Option)
    case "memo" => O.Ok(Memo)
    case _ => O.Err(InvalidKind(s))
  }

  lemma KindRoundTrip(k: Kind)
    ensures KindNew(KindToken(k)) == O.Ok(k)
  {
  }

  /** Position in the declaration, which the derived ordering follows. */
  function KindIndex(k: Kind): nat {
    match k
    case Precond => 0
    case Hazard => 1
    case Option => 2
    case Memo => 3
  }

  // ---------------------------------------------------------------------
  // Property names.

  datatype PropertyName =
    | Align | Size | NoPadding | NonNull | Allocated | InBound | NonOverlap
    | ValidNum | ValidString | ValidCStr | Init | Unwrap | Typed | Owning
    | Alias | Alive | Pinned | NonVolatile | Opened | Trait | Unreachable
    | ValidPtr | Deref | Ptr2Ref | Layout | Unknown

  /** Every name, in declaration order. */
  const Names: seq<PropertyName> := [
    Align, Size, NoPadding, NonNull, Allocated, InBound, NonOverlap,
    ValidNum, ValidString, ValidCStr, Init, Unwrap, Typed, Owning,
    Alias, Alive, Pinned, NonVolatile, Opened, Trait, Unreachable,
    ValidPtr, Deref, Ptr2Ref, Layout, Unknown]

  function NameIndex(p: PropertyName): (i: nat)
    ensures i < |Names| && Names[i] == p
  {
    match p
    case Align => 0 case Size => 1 case NoPadding => 2 case NonNull => 3
    case Allocated => 4 case InBound => 5 case NonOverlap => 6 case ValidNum => 7
    case ValidString => 8 case ValidCStr => 9 case Init => 10 case Unwrap => 11
    case Typed => 12 case Owning => 13 case Alias => 14 case Alive => 15
    case Pinned => 16 case NonVolatile => 17 case Opened => 18 case Trait => 19
    case Unreachable => 20 case ValidPtr => 21 case Deref => 22 case Ptr2Ref => 23
    case Layout => 24 case Unknown => 25
  }

  /** `to_str`, which is also the `Debug` text of a name. */
  function ToStr(p: PropertyName): string {
    match p
    case Align => "Align" case Size => "Size" case NoPadding => "NoPadding"
    case NonNull => "NonNull" case Allocated => "Allocated" case InBound => "InBound"
    case NonOverlap => "NonOverlap" case ValidNum => "ValidNum" case ValidString => "ValidString"
    case ValidCStr => "ValidCStr" case Init => "Init" case Unwrap => "Unwrap"
    case Typed => "Typed" case Owning => "Owning" case Alias => "Alias"
    case Alive => "Alive" case Pinned => "Pinned" case NonVolatile => "NonVolatile"
    case Opened => "Opened" case Trait => "Trait" case Unreachable => "Unreachable"
    case ValidPtr => "ValidPtr" case Deref => "Deref" case Ptr2Ref => "Ptr2Ref"
    case Layout => "Layout" case Unknown => "Unknown"
  }

  /** `PropertyName::new`: a name `to_str` produces is read back as itself,
      and every other string as `Unknown`. */
  function New(s: string): (r: PropertyName)
    ensures r != Unknown ==> ToStr(r) == s
  {
    match s
    case "Align" => Align case "Size" => Size case "NoPadding" => NoPadding
    case "NonNull" => NonNull case "Allocated" => Allocated case "InBound" => InBound
    case "NonOverlap" => NonOverlap case "ValidNum" => ValidNum case "ValidString" => ValidString
    case "ValidCStr" => ValidCStr case "Init" => Init case "Unwrap" => Unwrap
    case "Typed" => Typed case "Owning" => Owning case "Alias" => Alias
    case "Alive" => Alive case "Pinned" => Pinned case "NonVolatile" => NonVolatile
    case "Opened" => Opened case "Trait" => Trait case "Unreachable" => Unreachable
    case "ValidPtr" => ValidPtr case "Deref" => Deref case "Ptr2Ref" => Ptr2Ref
    case "Layout" => Layout
    case _ => Unknown
  }

  /** Every name survives printing and reading back. */
  lemma NameRoundTrip(p: PropertyName)
    ensures New(ToStr(p)) == p
  {
  }

  /** A string is read as a known name exactly when it is that name's text. */
  lemma NewRecognises(s: string)
    ensures New(s) != Unknown <==> exists p :: p != Unknown && ToStr(p) == s
  {
    if exists p :: p != Unknown && ToStr(p) == s {
      var p :| p != Unknown && ToStr(p) == s;
      NameRoundTrip(p);
    }
  }

  /** `args_len`: the number of arguments the documentation of a name needs. */
  function ArgsLen(p: PropertyName): nat {
    match p
    case Align => 2 case Size => 2 case NoPadding => 1 case NonNull => 1
    case Allocated => 3 case InBound => 3 case NonOverlap => 4 case ValidNum => 2
    case ValidString => 1 case ValidCStr => 2 case Init => 3 case Unwrap => 2
    case Typed => 2 case Owning => 1 case Alias => 1 case Alive => 2
    case Pinned => 2 case NonVolatile => 3 case Opened => 1 case Trait => 3
    case Unreachable => 0 case ValidPtr => 3 case Deref => 3 case Ptr2Ref => 2
    case Layout => 2 case Unknown => 0
  }

  /** The argument count the `Allocated` sentence actually reads: it prints
      a fourth argument, the allocator. */
  function ArgsLenFixed(p: PropertyName): (n: nat)
    ensures p != Allocated ==> n == ArgsLen(p)
    ensures p == Allocated ==> n == ArgsLen(p) + 1
  {
    if p == Allocated then 4 else ArgsLen(p)
  }

  // ---------------------------------------------------------------------
  // Documentation sentences.

  /** The sentence text of a name over rendered arguments, reading only the
      first `ArgsLenFixed(p)` of them. */
  function Sentence(p: PropertyName, a: seq<string>): string
    requires |a| >= ArgsLenFixed(p)
  {
    match p
    case Align => "pointer `" + a[0] + "` must be properly aligned for type `" + a[1] + "`"
    case Size => "the size of type " + a[0] + " should be " + a[1]
    case NoPadding => "type " + a[0] + " must have no padding bytes "
    case NonNull => "pointer " + a[0] + " must not be null"
    case Allocated =>
      "the memory range [" + a[0] + ", " + a[0] + " + sizeof(" + a[1] + ")*" + a[2]
      + ") must be allocated by allocator " + a[3]
    case InBound =>
      "the pointer " + a[0] + " and its offset up to sizeof(" + a[1] + ")*" + a[2]
      + " must point to a single allocated object"
    case NonOverlap =>
      "the memory ranges [" + a[0] + ", " + a[0] + " + sizeof(" + a[2] + ")*" + a[3] + ") and ["
      + a[1] + ", " + a[1] + " + sizeof(" + a[2] + ")*" + a[3] + "] must not overlap"
    case ValidNum => "the value of " + a[0] + " must lie within the valid " + a[1]
    case ValidString => "the memory range " + a[0] + " must contain valid UTF-8 bytes"
    case ValidCStr =>
      "the memory range [" + a[0] + ", " + a[0] + " + " + a[1] + " + 1] must contain a valid C-style string"
    case Init =>
      "the memory range [" + a[0] + ", " + a[0] + " + sizeof(" + a[1] + ")*" + a[2]
      + "] must be fully initialized for type T"
    case Unwrap => "the value " + a[0] + " must be Some(" + a[1] + ")"
    case Typed => "the pointer " + a[0] + " must point to a value of " + a[1]
    case Owning => "the pointer " + a[0] + " must hold exclusive ownership of its reference"
    case Alias => a[0] + " must not have other alias"
    case Alive => "the reference of " + a[0] + " must outlive the lifetime " + a[1]
    case Pinned =>
      "pointer " + a[0] + " must remain at the same memory address for the duration of lifetime " + a[1]
    case NonVolatile =>
      "the memory access of [" + a[0] + ", " + a[0] + " + sizeof(" + a[1] + ")*" + a[2] + "] must be volatile"
    case Opened => "the file descriptor " + a[0] + " must be valid and open"
    case Trait => "if type " + a[0] + " implements trait " + a[1] + ", the property " + a[2] + " is mitigated"
    case Unreachable => "the current program point should not be reachable during execution"
    case ValidPtr =>
      "pointer " + a[0] + " must be valid for reading and writing the sizeof(" + a[1] + ")*" + a[2] + " memory from it"
    case Deref => "pointer " + a[0] + " must be dereferencable in the sizeof(" + a[1] + ")*" + a[2] + " memory from it"
    case Ptr2Ref => "the reference conversion of the pointer " + a[0] + " must be valid"
    case Layout => "the memory pointed by " + a[0] + " must remain consistent with " + a[1]
    case Unknown => "unknown sp"
  }

  function Render(expr: seq<Expr>): (a: seq<string>)
    ensures |a| == |expr| && forall i :: 0 <= i < |expr| ==> a[i] == SynExpr.ToString(expr[i])
  {
    seq(|expr|, i requires 0 <= i < |expr| => SynExpr.ToString(expr[i]))
  }

  /** `map_property_to_doc_comments` as written: the guard compares with
      `args_len`, and the `Allocated` sentence then reads a fourth argument
      the guard did not ask for. */
  function DocSentenceAsWritten(p: PropertyName, expr: seq<Expr>): (r: O.Result<string, Panic>)
    ensures |expr| < ArgsLen(p) ==> r == O.Err(ArgLength(p))
    ensures p != Allocated && |expr| >= ArgsLen(p) ==> r == O.Ok(Sentence(p, Render(expr)[..ArgsLenFixed(p)]))
  {
    var a := Render(expr);
    if |a| < ArgsLen(p) then O.Err(ArgLength(p))
    else if p == Allocated && |a| <= 3 then O.Err(IndexOutOfBounds(3))
    else O.Ok(Sentence(p, a[..ArgsLenFixed(p)]))
  }

  /** With exactly the three arguments the guard asks for, the `Allocated`
      sentence still indexes past the end. */
  lemma AllocatedGuardGap(x: Expr, y: Expr, z: Expr)
    ensures |[x, y, z]| >= ArgsLen(Allocated)
    ensures DocSentenceAsWritten(Allocated, [x, y, z]) == O.Err(IndexOutOfBounds(3))
  {
  }

  /** The sentence with the guard the sentences need: it fails exactly when
      too few arguments are given, and never by indexing. */
  function DocSentence(p: PropertyName, expr: seq<Expr>): (r: O.Result<string, Panic>)
    ensures r.Ok? <==> |expr| >= ArgsLenFixed(p)
    ensures r.Err? ==> r.error == ArgLength(p)
  {
    var a := Render(expr);
    if |a| < ArgsLenFixed(p) then O.Err(ArgLength(p)) else O.Ok(Sentence(p, a[..ArgsLenFixed(p)]))
  }

  /** Arguments past the ones a sentence reads are dropped. */
  lemma DocSentenceIgnoresExtra(p: PropertyName, expr: seq<Expr>, extra: seq<Expr>)
    requires |expr| >= ArgsLenFixed(p)
    ensures DocSentence(p, expr + extra) == DocSentence(p, expr)
  {
    var n := ArgsLenFixed(p);
    assert Render(expr + extra)[..n] == Render(expr)[..n];
  }

  /** Both guards agree on every name but `Allocated`. */
  lemma DocSentenceAgrees(p: PropertyName, expr: seq<Expr>)
    requires p != Allocated
    ensures DocSentence(p, expr) == DocSentenceAsWritten(p, expr)
  {
  }

  // ---------------------------------------------------------------------
  // Properties.

  datatype Property = Property(kind: Kind, name: PropertyName, expr: seq<Expr>, memo: O.Option<string>)

  /** The argument forms of an attribute. */
  datatype NamedArg = PropertyArg(property: Property) | KindArg(kind: string) | MemoArg(memo: string)

  function MemoOf(a: NamedArg): O.Option<string> {
    if a.MemoArg? then O.Some(a.memo) else O.None
  }

  /** `Property::new`: the memo is the first memo among the named
      arguments. */
  function NewProperty(kind: Kind, name: PropertyName, expr: seq<Expr>, named: seq<NamedArg>): (r: Property)
    ensures r.kind == kind && r.name == name && r.expr == expr
    ensures r.memo.None? <==> forall i :: 0 <= i < |named| ==> !named[i].MemoArg?
    ensures r.memo.Some? ==>
      exists i :: 0 <= i < |named| && named[i] == MemoArg(r.memo.value) && forall j :: 0 <= j < i ==> !named[j].MemoArg?
  {
    var memo := DocMemo.FindSome(named, MemoOf);
    assert forall i :: 0 <= i < |named| ==> (MemoOf(named[i]).None? <==> !named[i].MemoArg?);
    Property(kind, name, expr, memo)
  }

  /** `expr_ident`: the identifier of a single-segment path, a panic for
      anything else. */
  function ExprIdent(e: Expr): (r: O.Result<string, Panic>)
    ensures r.Ok? <==> SynExpr.IsIdent(e)
    ensures r.Ok? ==> e == SynExpr.Path([r.value])
    ensures r.Err? ==> r.error == NotAPath(e)
  {
    if SynExpr.IsIdent(e) then O.Ok(e.segments[0]) else O.Err(NotAPath(e))
  }

  /** `Property::from_call`: a call `Name(args)` read as a `Memo` property
      without a memo. */
  function FromCall(e: Expr): (r: O.Result<Property, Panic>)
    ensures r.Ok? <==> e.Call? && SynExpr.IsIdent(e.func)
    ensures r.Ok? ==> r.value == Property(Memo, New(e.func.segments[0]), e.args, O.None)
  {
    if !e.Call? then O.Err(NotACall(e))
    else
      var name :- ExprIdent(e.func);
      O.Ok(Property(Memo, New(name), e.args, O.None))
  }

  /** `property_tokens`: `Name(args)`, which `from_call` reads back as the
      same name and arguments. */
  function PropertyCall(p: Property): (e: Expr)
    ensures e.Call? && e.args == p.expr
    ensures FromCall(e) == O.Ok(p.(kind := Memo, memo := O.None))
  {
    NameRoundTrip(p.name);
    SynExpr.Call(SynExpr.Path([ToStr(p.name)]), p.expr)
  }

  /** `name = value` as an argument. */
  function NamedValue(name: string, value: Expr): Expr {
    SynExpr.Assign(SynExpr.Path([name]), value)
  }

  /** The arguments `generate_discharge_attr` puts in `rapx::inner(..)`:
      the property call, its kind and, if any, its memo. */
  function DischargeAttr(p: Property): (args: seq<Expr>)
    ensures |args| == (if p.memo.Some? then 3 else 2)
  {
    [NamedValue("property", PropertyCall(p)), NamedValue("kind", SynExpr.StrLit(KindToken(p.kind)))]
    + (if p.memo.Some? then [NamedValue("memo", SynExpr.StrLit(p.memo.value))] else [])
  }

  // ---------------------------------------------------------------------
  // Ordering.

  datatype Ordering = Less | Equal | Greater

  function CmpNat(a: nat, b: nat): (r: Ordering)
    ensures r == Equal <==> a == b
    ensures r == Less <==> a < b
  {
    if a < b then Less else if a == b then Equal else Greater
  }

  /** `Ord for Property`: by kind, then by name; the arguments and the memo
      are not compared. */
  function Cmp(a: Property, b: Property): (r: Ordering)
    ensures r == Equal <==> a.kind == b.kind && a.name == b.name
    ensures a.kind != b.kind ==> (r == Less <==> KindIndex(a.kind) < KindIndex(b.kind))
    ensures a.kind == b.kind ==> (r == Less <==> NameIndex(a.name) < NameIndex(b.name))
  {
    var k := CmpNat(KindIndex(a.kind), KindIndex(b.kind));
    if k != Equal then k else CmpNat(NameIndex(a.name), NameIndex(b.name))
  }

  function Flip(o: Ordering): Ordering {
    match o
    case Less => Greater
    case Equal => Equal
    case Greater => Less
  }

  /** The ordering is antisymmetric and transitive, as `Ord` requires. */
  lemma CmpIsOrder(a: Property, b: Property, c: Property)
    ensures Cmp(b, a) == Flip(Cmp(a, b))
    ensures Cmp(a, b) != Greater && Cmp(b, c) != Greater ==> Cmp(a, c) != Greater
  {
  }

  // ---------------------------------------------------------------------
  // Documentation.

  /** A generated sentence: the name, a lead-in, the sentence of the
      arguments and a closing. */
  function Framed(name: PropertyName, expr: seq<Expr>, lead: string, close: string): (r: O.Result<string, Panic>)
    ensures r.Ok? <==> |expr| >= ArgsLenFixed(name)
    ensures r.Ok? ==> Prefix(" " + ToStr(name) + lead, r.value) && Suffix(close, r.value)
  {
    var s :- DocSentence(name, expr);
    var line := " " + ToStr(name) + lead + s + close;
    assert line == (" " + ToStr(name) + lead) + (s + close);
    O.Ok(line)
  }

  /** The first doc line of a `Memo` property: its first argument, which
      must be an identifier. */
  function MemoDoc(expr: seq<Expr>): (r: O.Result<string, Panic>)
    ensures r.Ok? <==> expr != [] && SynExpr.IsIdent(expr[0])
    ensures r.Ok? ==> r.value == " " + expr[0].segments[0] + ": auto doc placeholder."
  {
    if expr == [] then O.Err(MissingArgument)
    else
      var id :- ExprIdent(expr[0]);
      O.Ok(" " + id + ": auto doc placeholder.")
  }

  /** The generated first doc line, worded by kind. */
  function AutoDoc(p: Property): (r: O.Result<string, Panic>)
    ensures p.kind == Memo ==> r == MemoDoc(p.expr)
    ensures p.kind != Memo ==> (r.Ok? <==> |p.expr| >= ArgsLenFixed(p.name))
    ensures r.Ok? && p.kind == Precond ==>
      Prefix(" " + ToStr(p.name) + ": Make sure ", r.value) && Suffix(" before calling this function.", r.value)
    ensures r.Ok? && p.kind == Hazard ==>
      Prefix(" " + ToStr(p.name) + ": Make sure ", r.value) && Suffix(" after calling this function.", r.value)
    ensures r.Ok? && p.kind == Option ==>
      Prefix(" " + ToStr(p.name) + ": To be noticed that, ", r.value) && Suffix(".", r.value)
  {
    match p.kind
    case Memo => MemoDoc(p.expr)
    case Precond => Framed(p.name, p.expr, ": Make sure ", " before calling this function.")
    case Hazard => Framed(p.name, p.expr, ": Make sure ", " after calling this function.")
    case Option => Framed(p.name, p.expr, ": To be noticed that, ", ".")
  }

  /** `generate_doc_comments`: the generated line, then the memo's doc
      lines. */
  function DocComments(p: Property): (r: O.Result<seq<string>, Panic>)
    ensures r.Ok? <==> AutoDoc(p).Ok?
    ensures r.Ok? ==> |r.value| >= 1 && r.value[0] == AutoDoc(p).value
    ensures r.Ok? ==> r.value[1..] == (if p.memo.Some? then DocMemo.Memo(p.memo.value) else [])
  {
    var auto :- AutoDoc(p);
    var memo := if p.memo.Some? then DocMemo.Memo(p.memo.value) else [];
    O.Ok([auto] + memo)
  }

  predicate Prefix(p: string, s: string) {
    |p| <= |s| && s[..|p|] == p
  }

  predicate Suffix(p: string, s: string) {
    |p| <= |s| && s[|s| - |p|..] == p
  }
}
