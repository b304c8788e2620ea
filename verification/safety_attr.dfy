/** The `#[safety { ... }]` grammar: `;`-separated groups, each a list of
    tags (`Name`, `type.Name`, optionally with parenthesised arguments) that
    may end with `: "reason"`. When a configuration exists every tag is
    checked against the registry as it is read. */
module SafetyAttr {
  import opened Outcome
  import opened Tokens
  import Text
  import Registry

  /** An argument expression: a non-empty run of tokens with no top-level
      comma. */
  type Expr = seq<Token>

  /** `type.Name` or plain `Name` (type None). */
  datatype TagNameType = TagNameType(typ: Outcome.Option<Registry.TagType>, name: string)

  datatype Property = Property(tag: TagNameType, args: seq<Expr>)

  /** One group: its tags and the reason that closed it, if any. */
  datatype PropertiesAndReason = PropertiesAndReason(tags: seq<Property>, desc: Outcome.Option<string>)

  /** `Syntax` is a parse error returned to the caller; `Panic` aborts the
      macro (an unknown type prefix or a failed registry check). */
  datatype ParseError = Syntax(msg: string) | Panic(msg: string)

  /** `TagNameType::parse`. */
  function ParseTagName(ts: seq<Token>): (r: Result<(TagNameType, seq<Token>), ParseError>)
    ensures r.Ok? ==> |r.value.1| < |ts| && r.value.1 == ts[|ts| - |r.value.1|..]
    ensures r.Ok? ==> IsIdent(ts[0]) && !IsReserved(r.value.0.name)
    ensures r.Ok? && r.value.0.typ.None? ==> r.value.0.name == ts[0].name
  {
    if ts == [] || !IsIdent(ts[0]) then Err(Syntax("expected identifier"))
    else if |ts| >= 2 && ts[1] == Punct('.') then
      if |ts| < 3 || !IsIdent(ts[2]) then Err(Syntax("expected identifier"))
      else match Registry.ParseTagType(ts[0].name)
        case Ok(t) => Ok((TagNameType(Some(t), ts[2].name), ts[3..]))
        case Err(e) => Err(Panic(e))
    else Ok((TagNameType(None, ts[0].name), ts[1..]))
  }

  /** `check_type`: the tag must be defined; an explicit type must be one of
      its declared types, and an implicit one requires a single declared
      type. */
  predicate TypeChecks(reg: Registry.Registry, tag: TagNameType) {
    && tag.name in reg.keys
    && var types := reg.keys[tag.name].tag.types;
       match tag.typ
       case Some(t) => t in types
       case None => |types| == 1
  }

  function CheckType(reg: Registry.Registry, tag: TagNameType): (r: Result<(), ParseError>)
    ensures r.Ok? <==> TypeChecks(reg, tag)
    ensures r.Err? ==> r.error.Panic?
  {
    match Registry.GetTag(reg, tag.name)
    case Err(_) => Err(Panic("Tag is not defined"))
    case Ok(defined) =>
    match tag.typ
    case Some(t) => if t in defined.types then Ok(()) else Err(Panic("user's type doesn't exist"))
    case None => if |defined.types| == 1 then Ok(()) else Err(Panic("defined_types has multiple types"))
  }

  /** The optional `( args )` after a tag name. */
  function ParseParenArgs(ts: seq<Token>): (r: Result<(seq<Expr>, seq<Token>), ParseError>)
    ensures r.Ok? ==> |r.value.1| <= |ts| && r.value.1 == ts[|ts| - |r.value.1|..]
    ensures (ts == [] || !ts[0].Group? || ts[0].delim != Paren) ==> r == Ok(([], ts))
    ensures r.Ok? ==> forall i :: 0 <= i < |r.value.0| ==> r.value.0[i] != []
  {
    if ts != [] && ts[0].Group? && ts[0].delim == Paren then
      match SplitTerminated(ts[0].inner, ',')
      case Some(args) => Ok((args, ts[1..]))
      case None => Err(Syntax("expected an expression"))
    else Ok(([], ts))
  }

  /** One tag: its name, the registry check when a configuration exists
      (before the arguments are read), then the optional arguments. */
  function ParseTag(ts: seq<Token>, config: Outcome.Option<Registry.Registry>)
    : (r: Result<(Property, seq<Token>), ParseError>)
    ensures r.Ok? ==> |r.value.1| < |ts|
    ensures r.Ok? && config.Some? ==> TypeChecks(config.value, r.value.0.tag)
  {
    var named :- ParseTagName(ts);
    var _ :- if config.Some? then CheckType(config.value, named.0) else Ok(());
    var parsed :- ParseParenArgs(named.1);
    Ok((Property(named.0, parsed.0), parsed.1))
  }

  /** What follows a tag: a reason that closes the group, a `;` that closes
      it, or more tags (an optional `,` is consumed first). */
  datatype After = Reason(desc: string, rest: seq<Token>) | Close(rest: seq<Token>) | More(rest: seq<Token>)

  function AfterTag(ts: seq<Token>): (r: Result<After, ParseError>)
    ensures r.Ok? ==> |r.value.rest| <= |ts|
    ensures r.Ok? && r.value.Close? ==> r.value.rest != [] && r.value.rest[0] == Punct(';')
    ensures r.Ok? && r.value.More? ==> r.value.rest == [] || (r.value.rest[0] != Punct(';') && r.value.rest[0] != Punct(':'))
  {
    var rest := if ts != [] && ts[0] == Punct(',') then ts[1..] else ts;
    if rest != [] && rest[0] == Punct(':') then
      if |rest| >= 2 && rest[1].StrLit? then Ok(Reason(rest[1].value, rest[2..]))
      else Err(Syntax("expected string literal"))
    else if rest != [] && rest[0] == Punct(';') then Ok(Close(rest))
    else Ok(More(rest))
  }

  /** `PropertiesAndReason::parse`. The returned remainder is empty, starts
      with `;`, or follows a reason. */
  function ParseGroupFrom(ts: seq<Token>, config: Outcome.Option<Registry.Registry>)
    : (r: Result<(PropertiesAndReason, seq<Token>), ParseError>)
    ensures r.Ok? ==> |r.value.1| <= |ts| && (ts != [] ==> |r.value.1| < |ts| && r.value.0.tags != [])
    ensures r.Ok? && r.value.0.desc.None? ==> r.value.1 == [] || r.value.1[0] == Punct(';')
    ensures r.Ok? && config.Some? ==>
      forall i :: 0 <= i < |r.value.0.tags| ==> TypeChecks(config.value, r.value.0.tags[i].tag)
    decreases |ts|
  {
    if ts == [] then Ok((PropertiesAndReason([], None), []))
    else
      var first :- ParseTag(ts, config);
      var after :- AfterTag(first.1);
      match after
      case Reason(d, rest) => Ok((PropertiesAndReason([first.0], Some(d)), rest))
      case Close(rest) => Ok((PropertiesAndReason([first.0], None), rest))
      case More(rest) =>
        var more :- ParseGroupFrom(rest, config);
        Ok((PropertiesAndReason([first.0] + more.0.tags, more.0.desc), more.1))
  }

  /** `Punctuated::<PropertiesAndReason, Token![;]>::parse_terminated`. */
  function ParseGroups(ts: seq<Token>, config: Outcome.Option<Registry.Registry>): (r: Result<seq<PropertiesAndReason>, ParseError>)
    ensures ts == [] ==> r == Ok([])
    ensures r.Ok? ==> forall g :: 0 <= g < |r.value| ==> |r.value[g].tags| >= 1
    ensures r.Ok? && config.Some? ==> forall g, i :: 0 <= g < |r.value| && 0 <= i < |r.value[g].tags| ==>
      TypeChecks(config.value, r.value[g].tags[i].tag)
    decreases |ts|
  {
    if ts == [] then Ok([])
    else
      var parsed :- ParseGroupFrom(ts, config);
      var rest := parsed.1;
      if rest == [] then Ok([parsed.0])
      else if rest[0] != Punct(';') then Err(Syntax("expected `;`"))
      else
        var more :- ParseGroups(rest[1..], config);
        Ok([parsed.0] + more)
  }

  /** An outer attribute `#[path args]`, `args` being the delimited body of a
      list-style attribute, or None for `#[path]` / `#[path = value]`. */
  datatype Attribute = Attribute(path: seq<string>, args: Outcome.Option<seq<Token>>)

  /** `SafetyAttr::parse`: exactly one attribute (anything else aborts), whose
      path is not inspected; its body is the group list. */
  function ParseSafetyAttr(attrs: seq<Attribute>, config: Outcome.Option<Registry.Registry>)
    : (r: Result<seq<PropertiesAndReason>, ParseError>)
    ensures |attrs| != 1 ==> r.Err? && r.error.Panic?
    ensures |attrs| == 1 && attrs[0].args.Some? ==> r == ParseGroups(attrs[0].args.value, config)
  {
    if |attrs| != 1 then Err(Panic("Given input must be a single #[safety] attribute."))
    else match attrs[0].args
      case None => Err(Syntax("expected attribute arguments in parentheses"))
      case Some(body) => ParseGroups(body, config)
  }

  /** `property_reason`: every tag with the reason of its own group, in
      source order (see `PropertyReasonAt`). */
  function PropertyReason(groups: seq<PropertiesAndReason>): (r: seq<(Property, Outcome.Option<string>)>)
    ensures |r| == TagCount(groups)
    decreases |groups|
  {
    if groups == [] then []
    else
      seq(|groups[0].tags|, i requires 0 <= i < |groups[0].tags| => (groups[0].tags[i], groups[0].desc))
      + PropertyReason(groups[1..])
  }

  /** Tag `i` of group `g` is paired with the reason of group `g`. */
  lemma {:induction false} PropertyReasonAt(groups: seq<PropertiesAndReason>, g: nat, i: nat)
    requires g < |groups| && i < |groups[g].tags|
    ensures Offset(groups, g) + i < |PropertyReason(groups)|
    ensures PropertyReason(groups)[Offset(groups, g) + i] == (groups[g].tags[i], groups[g].desc)
    decreases g
  {
    if g > 0 {
      PropertyReasonAt(groups[1..], g - 1, i);
    }
  }

  function TagCount(groups: seq<PropertiesAndReason>): nat {
    if groups == [] then 0 else |groups[0].tags| + TagCount(groups[1..])
  }

  /** Number of tags before group `g`. */
  function Offset(groups: seq<PropertiesAndReason>, g: nat): nat
    requires g <= |groups|
    ensures g < |groups| ==> Offset(groups, g) + |groups[g].tags| <= TagCount(groups)
  {
    if g == 0 then 0 else |groups[0].tags| + Offset(groups[1..], g - 1)
  }

  lemma OffsetCons(groups: seq<PropertiesAndReason>, g: nat)
    requires 1 <= g <= |groups|
    ensures Offset(groups, g) == |groups[0].tags| + Offset(groups[1..], g - 1)
  {
  }

  // ---------------------------------------------------------------------
  // A canonical printer, the partner of the parser.

  /** A tag as the parser can read it back: an identifier name and argument
      runs that are non-empty and free of top-level commas. */
  predicate Printable(p: Property) {
    && !IsReserved(p.tag.name)
    && forall i :: 0 <= i < |p.args| ==> p.args[i] != [] && Punct(',') !in p.args[i]
  }

  predicate PrintableGroups(groups: seq<PropertiesAndReason>) {
    forall g :: 0 <= g < |groups| ==>
      groups[g].tags != [] && forall i :: 0 <= i < |groups[g].tags| ==> Printable(groups[g].tags[i])
  }

  function PrintTagName(t: TagNameType): seq<Token> {
    match t.typ
    case Some(ty) => [Ident(Registry.TagTypeName(ty)), Punct('.'), Ident(t.name)]
    case None => [Ident(t.name)]
  }

  function PrintProperty(p: Property): seq<Token> {
    PrintTagName(p.tag) + (if p.args == [] then [] else [Group(Paren, Text.Join(p.args, [Punct(',')]))])
  }

  function PrintTags(ps: seq<Property>): seq<Token>
    requires ps != []
  {
    if |ps| == 1 then PrintProperty(ps[0]) else PrintProperty(ps[0]) + [Punct(',')] + PrintTags(ps[1..])
  }

  function PrintDesc(desc: Outcome.Option<string>): seq<Token> {
    match desc
    case Some(d) => [Punct(':'), StrLit(d)]
    case None => []
  }

  function PrintGroups(groups: seq<PropertiesAndReason>): seq<Token>
    requires forall g :: 0 <= g < |groups| ==> groups[g].tags != []
  {
    if groups == [] then []
    else
      var first := PrintTags(groups[0].tags) + PrintDesc(groups[0].desc);
      if |groups| == 1 then first else first + [Punct(';')] + PrintGroups(groups[1..])
  }

  predicate AllCheck(config: Outcome.Option<Registry.Registry>, ps: seq<Property>) {
    config.Some? ==> forall i :: 0 <= i < |ps| ==> TypeChecks(config.value, ps[i].tag)
  }

  lemma ParseTagNamePrinted(t: TagNameType, tail: seq<Token>)
    requires !IsReserved(t.name)
    requires tail == [] || tail[0] != Punct('.')
    ensures ParseTagName(PrintTagName(t) + tail) == Ok((t, tail))
  {
    var ts := PrintTagName(t) + tail;
    if t.typ.Some? {
      assert ts[3..] == tail;
      Registry.TagTypeRoundTrip(t.typ.value);
    } else {
      assert ts[1..] == tail;
    }
  }

  lemma ParseArgsPrinted(args: seq<Expr>, tail: seq<Token>)
    requires forall i :: 0 <= i < |args| ==> args[i] != [] && Punct(',') !in args[i]
    requires args == [] ==> tail == [] || !tail[0].Group? || tail[0].delim != Paren
    ensures ParseParenArgs((if args == [] then [] else [Group(Paren, Text.Join(args, [Punct(',')]))]) + tail)
      == Ok((args, tail))
  {
    if args != [] {
      var inner := Text.Join(args, [Punct(',')]);
      var ts := [Group(Paren, inner)] + tail;
      SplitTerminatedJoin(args, ',');
      assert ts[0] == Group(Paren, inner);
      assert ts[1..] == tail;
    } else {
      assert [] + tail == tail;
    }
  }

  /** Whether a token can follow a printed tag. */
  predicate Follows(tail: seq<Token>) {
    tail == [] || tail[0] in {Punct(','), Punct(':'), Punct(';')}
  }

  lemma ParseTagPrinted(p: Property, tail: seq<Token>, config: Outcome.Option<Registry.Registry>)
    requires Printable(p) && Follows(tail)
    requires config.Some? ==> TypeChecks(config.value, p.tag)
    ensures ParseTag(PrintProperty(p) + tail, config) == Ok((p, tail))
  {
    var argTokens := if p.args == [] then [] else [Group(Paren, Text.Join(p.args, [Punct(',')]))];
    assert PrintProperty(p) + tail == PrintTagName(p.tag) + (argTokens + tail);
    ParseTagNamePrinted(p.tag, argTokens + tail);
    ParseArgsPrinted(p.args, tail);
  }

  lemma AfterReason(desc: Outcome.Option<string>, tail: seq<Token>)
    requires tail == [] || tail[0] == Punct(';')
    ensures desc.Some? ==> AfterTag(PrintDesc(desc) + tail) == Ok(Reason(desc.value, tail))
    ensures desc.None? && tail != [] ==> AfterTag(PrintDesc(desc) + tail) == Ok(Close(tail))
    ensures desc.None? && tail == [] ==> AfterTag(PrintDesc(desc) + tail) == Ok(More([]))
  {
    if desc.Some? {
      assert (PrintDesc(desc) + tail)[2..] == tail;
    } else {
      assert PrintDesc(desc) + tail == tail;
    }
  }

  lemma AfterComma(more: seq<Token>)
    requires more != [] && more[0].Ident?
    ensures AfterTag([Punct(',')] + more) == Ok(More(more))
  {
    assert ([Punct(',')] + more)[1..] == more;
  }

  /** The printed tags of a group, its reason and a remainder that is empty
      or starts with `;`, parse back to exactly that group. */
  lemma {:induction false} ParseGroupPrinted(ps: seq<Property>, desc: Outcome.Option<string>,
                                             tail: seq<Token>, config: Outcome.Option<Registry.Registry>)
    requires ps != [] && forall i :: 0 <= i < |ps| ==> Printable(ps[i])
    requires AllCheck(config, ps)
    requires tail == [] || tail[0] == Punct(';')
    ensures ParseGroupFrom(PrintTags(ps) + (PrintDesc(desc) + tail), config)
      == Ok((PropertiesAndReason(ps, desc), tail))
    decreases |ps|
  {
    if |ps| == 1 {
      ParseOneTagGroup(ps[0], desc, tail, config);
      assert [ps[0]] == ps;
    } else {
      RestPrintable(ps, config);
      ParseGroupPrinted(ps[1..], desc, tail, config);
      ParseGroupCons(ps, desc, PrintDesc(desc) + tail, tail, config);
    }
  }

  lemma RestPrintable(ps: seq<Property>, config: Outcome.Option<Registry.Registry>)
    requires ps != [] && forall i :: 0 <= i < |ps| ==> Printable(ps[i])
    requires AllCheck(config, ps)
    ensures forall i :: 0 <= i < |ps[1..]| ==> Printable(ps[1..][i])
    ensures AllCheck(config, ps[1..])
  {
    forall i | 0 <= i < |ps[1..]| ensures ps[1..][i] == ps[i + 1] { }
  }

  /** A group of two tags or more parses as its first tag followed by the
      group of the others. */
  lemma ParseGroupCons(ps: seq<Property>, desc: Outcome.Option<string>, after: seq<Token>,
                       rest: seq<Token>, config: Outcome.Option<Registry.Registry>)
    requires |ps| >= 2 && Printable(ps[0]) && (config.Some? ==> TypeChecks(config.value, ps[0].tag))
    requires ParseGroupFrom(PrintTags(ps[1..]) + after, config) == Ok((PropertiesAndReason(ps[1..], desc), rest))
    ensures ParseGroupFrom(PrintTags(ps) + after, config) == Ok((PropertiesAndReason(ps, desc), rest))
  {
    var others := PrintTags(ps[1..]) + after;
    PrintTagsStartsWithIdent(ps[1..]);
    assert others[0] == PrintTags(ps[1..])[0];
    PrintTagsCons(ps, after);
    Text.HeadTail(ps);
    ParseGroupPrintedStep(ps[0], others, PropertiesAndReason(ps[1..], desc), rest, config,
                          PrintTags(ps) + after, ps);
  }

  /** One more tag, and a comma, in front of tokens that parse as a
      group. */
  lemma ParseGroupPrintedStep(p: Property, others: seq<Token>, g: PropertiesAndReason,
                              tail: seq<Token>, config: Outcome.Option<Registry.Registry>,
                              ts: seq<Token>, tags: seq<Property>)
    requires Printable(p) && (config.Some? ==> TypeChecks(config.value, p.tag))
    requires others != [] && others[0].Ident?
    requires ParseGroupFrom(others, config) == Ok((g, tail))
    requires ts == PrintProperty(p) + ([Punct(',')] + others) && tags == [p] + g.tags
    ensures ParseGroupFrom(ts, config) == Ok((PropertiesAndReason(tags, g.desc), tail))
  {
    var after := [Punct(',')] + others;
    ParseTagPrinted(p, after, config);
    AfterComma(others);
    GroupStepMore(ts, config, p, after, others);
  }

  lemma PrintTagsStartsWithIdent(ps: seq<Property>)
    requires ps != []
    ensures |PrintTags(ps)| >= 1 && PrintTags(ps)[0].Ident?
  {
    assert PrintTags(ps)[0] == PrintProperty(ps[0])[0];
  }

  lemma PrintTagsCons(ps: seq<Property>, after: seq<Token>)
    requires |ps| >= 2
    ensures PrintTags(ps) + after == PrintProperty(ps[0]) + ([Punct(',')] + (PrintTags(ps[1..]) + after))
  {
    var head := PrintProperty(ps[0]);
    var others := PrintTags(ps[1..]);
    assert PrintTags(ps) == head + [Punct(',')] + others;
    Regroup(head, [Punct(',')], others, after);
  }

  lemma Regroup<T>(h: seq<T>, c: seq<T>, o: seq<T>, a: seq<T>)
    ensures h + c + o + a == h + (c + (o + a))
  {
  }

  lemma GroupStepMore(ts: seq<Token>, config: Outcome.Option<Registry.Registry>,
                      p: Property, mid: seq<Token>, rest: seq<Token>)
    requires ts != [] && ParseTag(ts, config) == Ok((p, mid)) && AfterTag(mid) == Ok(More(rest))
    requires ParseGroupFrom(rest, config).Ok?
    ensures var m := ParseGroupFrom(rest, config).value;
      ParseGroupFrom(ts, config) == Ok((PropertiesAndReason([p] + m.0.tags, m.0.desc), m.1))
  {
  }

  lemma ParseOneTagGroup(p: Property, desc: Outcome.Option<string>,
                         tail: seq<Token>, config: Outcome.Option<Registry.Registry>)
    requires Printable(p) && (config.Some? ==> TypeChecks(config.value, p.tag))
    requires tail == [] || tail[0] == Punct(';')
    ensures ParseGroupFrom(PrintTags([p]) + (PrintDesc(desc) + tail), config)
      == Ok((PropertiesAndReason([p], desc), tail))
  {
    var after := PrintDesc(desc) + tail;
    assert PrintTags([p]) == PrintProperty(p);
    ParseTagPrinted(p, after, config);
    AfterReason(desc, tail);
    Text.AppendNil([p]);
  }

  /** Round trip: every printable group list, printed canonically, parses
      back to itself, with or without a registry to check it against (as
      long as the registry accepts each tag). */
  lemma {:induction false} ParsePrinted(groups: seq<PropertiesAndReason>, config: Outcome.Option<Registry.Registry>)
    requires PrintableGroups(groups)
    requires forall g :: 0 <= g < |groups| ==> AllCheck(config, groups[g].tags)
    ensures ParseGroups(PrintGroups(groups), config) == Ok(groups)
    decreases |groups|
  {
    if groups != [] {
      var g := groups[0];
      if |groups| == 1 {
        ParseSingleGroup(g, config);
        assert groups == [g];
      } else {
        RestGroupsPrintable(groups, config);
        ParsePrinted(groups[1..], config);
        ParseGroupsCons(groups, config);
      }
    }
  }

  lemma RestGroupsPrintable(groups: seq<PropertiesAndReason>, config: Outcome.Option<Registry.Registry>)
    requires groups != [] && PrintableGroups(groups)
    requires forall g :: 0 <= g < |groups| ==> AllCheck(config, groups[g].tags)
    ensures PrintableGroups(groups[1..])
    ensures forall k :: 0 <= k < |groups[1..]| ==> AllCheck(config, groups[1..][k].tags)
  {
    forall k | 0 <= k < |groups[1..]| ensures groups[1..][k] == groups[k + 1] { }
  }

  /** Two groups or more parse as the first group, a `;`, and the list of
      the others. */
  lemma ParseGroupsCons(groups: seq<PropertiesAndReason>, config: Outcome.Option<Registry.Registry>)
    requires |groups| >= 2 && PrintableGroups(groups)
    requires AllCheck(config, groups[0].tags)
    requires ParseGroups(PrintGroups(groups[1..]), config) == Ok(groups[1..])
    ensures ParseGroups(PrintGroups(groups), config) == Ok(groups)
  {
    var g := groups[0];
    var rest := PrintGroups(groups[1..]);
    Text.HeadTail(groups);
    PrintGroupsCons(groups);
    ParseGroupPrinted(g.tags, g.desc, [Punct(';')] + rest, config);
    GroupsStep(PrintGroups(groups), config, g, rest);
  }

  lemma PrintGroupsCons(groups: seq<PropertiesAndReason>)
    requires |groups| >= 2 && forall g :: 0 <= g < |groups| ==> groups[g].tags != []
    ensures forall k :: 0 <= k < |groups[1..]| ==> groups[1..][k].tags != []
    ensures PrintGroups(groups)
      == PrintTags(groups[0].tags) + (PrintDesc(groups[0].desc) + ([Punct(';')] + PrintGroups(groups[1..])))
  {
  }

  lemma ParseSingleGroup(g: PropertiesAndReason, config: Outcome.Option<Registry.Registry>)
    requires g.tags != [] && forall i :: 0 <= i < |g.tags| ==> Printable(g.tags[i])
    requires AllCheck(config, g.tags)
    ensures ParseGroups(PrintGroups([g]), config) == Ok([g])
  {
    ParseGroupPrinted(g.tags, g.desc, [], config);
    assert PrintGroups([g]) == PrintTags(g.tags) + (PrintDesc(g.desc) + []);
  }

  lemma GroupsStep(ts: seq<Token>, config: Outcome.Option<Registry.Registry>,
                   g: PropertiesAndReason, rest: seq<Token>)
    requires ts != [] && ParseGroupFrom(ts, config) == Ok((g, [Punct(';')] + rest))
    requires ParseGroups(rest, config).Ok?
    ensures ParseGroups(ts, config) == Ok([g] + ParseGroups(rest, config).value)
  {
    assert ([Punct(';')] + rest)[1..] == rest;
  }

  /** Checking against a registry only rejects inputs: whatever parses with
      a registry parses identically without one. */
  lemma {:induction false} CheckOnlyRejects(ts: seq<Token>, reg: Registry.Registry)
    requires ParseGroupFrom(ts, Some(reg)).Ok?
    ensures ParseGroupFrom(ts, None) == ParseGroupFrom(ts, Some(reg))
    decreases |ts|
  {
    if ts != [] {
      var first := ParseTag(ts, Some(reg)).value;
      assert ParseTag(ts, None) == ParseTag(ts, Some(reg));
      var after := AfterTag(first.1).value;
      if after.More? {
        CheckOnlyRejects(after.rest, reg);
      }
    }
  }

  lemma {:induction false} CheckOnlyRejectsGroups(ts: seq<Token>, reg: Registry.Registry)
    requires ParseGroups(ts, Some(reg)).Ok?
    ensures ParseGroups(ts, None) == ParseGroups(ts, Some(reg))
    decreases |ts|
  {
    if ts != [] {
      CheckOnlyRejects(ts, reg);
      var rest := ParseGroupFrom(ts, Some(reg)).value.1;
      if rest != [] {
        CheckOnlyRejectsGroups(rest[1..], reg);
      }
    }
  }

  // ---------------------------------------------------------------------
  // Inputs from the parser's own test suite.

  lemma PlainTag(name: string, tail: seq<Token>, config: Outcome.Option<Registry.Registry>)
    requires !IsReserved(name) && config.None?
    requires tail == [] || (tail[0] != Punct('.') && !tail[0].Group?)
    ensures ParseTag([Ident(name)] + tail, config) == Ok((Property(TagNameType(None, name), []), tail))
  {
    assert ([Ident(name)] + tail)[1..] == tail;
  }

  /** After a reason only `;` may follow: `SP1: "reason", SP2: "reason"` is
      rejected, whatever the names and reasons. */
  lemma ReasonThenComma(a: string, b: string, ra: string, rb: string)
    requires !IsReserved(a)
    ensures ParseGroups([Ident(a), Punct(':'), StrLit(ra), Punct(','),
                         Ident(b), Punct(':'), StrLit(rb)], None).Err?
  {
    var tail := [Punct(':'), StrLit(ra), Punct(','), Ident(b), Punct(':'), StrLit(rb)];
    var ts := [Ident(a)] + tail;
    PlainTag(a, tail, None);
    assert ts == [Ident(a), Punct(':'), StrLit(ra), Punct(','), Ident(b), Punct(':'), StrLit(rb)];
    assert AfterTag(tail) == Ok(Reason(ra, tail[2..]));
    assert ParseGroupFrom(ts, None).value.1 == tail[2..];
  }

  /** `hazard.Alias(p, q)`: name `Alias`, type hazard, arguments `p` and
      `q`, for any name and argument identifiers. */
  lemma TypedTagWithArgs(name: string, x: string, y: string)
    requires !IsReserved(name)
    ensures ParseGroups([Ident("hazard"), Punct('.'), Ident(name),
                         Group(Paren, [Ident(x), Punct(','), Ident(y)])], None)
      == Ok([PropertiesAndReason([Property(TagNameType(Some(Registry.Hazard), name), [[Ident(x)], [Ident(y)]])], None)])
  {
    var args: seq<Expr> := [[Ident(x)], [Ident(y)]];
    var p := Property(TagNameType(Some(Registry.Hazard), name), args);
    assert Text.Join(args, [Punct(',')]) == [Ident(x), Punct(','), Ident(y)];
    ParsePrinted([PropertiesAndReason([p], None)], None);
    assert PrintGroups([PropertiesAndReason([p], None)])
      == [Ident("hazard"), Punct('.'), Ident(name), Group(Paren, [Ident(x), Punct(','), Ident(y)])];
  }

  /** Two tags with no comma between them still form one group: `SP1 SP2`,
      for any two names. */
  lemma NoCommaNeeded(a: string, b: string)
    requires !IsReserved(a) && !IsReserved(b)
    ensures ParseGroups([Ident(a), Ident(b)], None)
      == Ok([PropertiesAndReason([Property(TagNameType(None, a), []), Property(TagNameType(None, b), [])], None)])
  {
    PlainTag(a, [Ident(b)], None);
    PlainTag(b, [], None);
    assert [Ident(b)] + [] == [Ident(b)];
    assert AfterTag([Ident(b)]) == Ok(More([Ident(b)]));
    assert AfterTag([]) == Ok(More([]));
    var p2 := Property(TagNameType(None, b), []);
    assert ParseGroupFrom([], None) == Ok((PropertiesAndReason([], None), []));
    assert [p2] + [] == [p2];
    assert ParseGroupFrom([Ident(b)], None) == Ok((PropertiesAndReason([p2], None), []));
    var p1 := Property(TagNameType(None, a), []);
    var ts := [Ident(a), Ident(b)];
    assert ts == [Ident(a)] + [Ident(b)];
    assert [p1] + [p2] == [p1, p2];
    assert ParseGroupFrom(ts, None) == Ok((PropertiesAndReason([p1, p2], None), []));
  }
}
