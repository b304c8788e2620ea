/** The `#[safety]` attribute macro as token-list concatenation: the
    registered-tool attribute carrying the macro's arguments, the item's own
    attributes, generated documentation for items, and the rest. */
module SafetyMacro {
  import opened Outcome
  import opened Tokens
  import Registry
  import SafetyAttr
  import DocGen
  import SplitAttrs

  datatype MacroError = BadArgs(parse: SafetyAttr.ParseError) | BadDoc(doc: DocGen.DocError)

  /** `#[rapx::proof(<attr>)]`, the attribute tokens copied verbatim. */
  function ProofAttr(attr: seq<Token>): (ts: seq<Token>)
    ensures |ts| == 2 && ts[0] == Punct('#')
  {
    [Punct('#'), Group(Bracket, [Ident("rapx"), Punct(':'), Punct(':'), Ident("proof"), Group(Paren, attr)])]
  }

  /** `#[doc = "<line>"]`. */
  function DocAttr(line: string): seq<Token> {
    [Punct('#'), Group(Bracket, [Ident("doc"), Punct('='), StrLit(line)])]
  }

  function DocAttrs(lines: seq<string>): (ts: seq<Token>)
    ensures |ts| == 2 * |lines|
  {
    if lines == [] then [] else DocAttr(lines[0]) + DocAttrs(lines[1..])
  }

  /** The documentation of every group, in order; the first group whose
      documentation cannot be generated aborts. */
  function GroupsDoc(reg: Registry.Registry, groups: seq<SafetyAttr.PropertiesAndReason>): (r: Result<seq<Token>, DocGen.DocError>)
    ensures r.Ok? <==> forall g :: 0 <= g < |groups| ==> DocGen.GroupDoc(reg, groups[g]).Ok?
    ensures groups == [] ==> r == Ok([])
  {
    if groups == [] then Ok([])
    else
      var lines :- DocGen.GroupDoc(reg, groups[0]);
      var more :- GroupsDoc(reg, groups[1..]);
      assert forall g :: 1 <= g < |groups| ==> groups[g] == groups[1..][g - 1];
      Ok(DocAttrs(lines) + more)
  }

  /** The generated documentation, present only when a configuration
      exists. */
  function Docs(config: Option<Registry.Registry>, groups: seq<SafetyAttr.PropertiesAndReason>): (r: Result<seq<Token>, DocGen.DocError>)
    ensures r.Ok? <==> config.None? || forall g :: 0 <= g < |groups| ==> DocGen.GroupDoc(config.value, groups[g]).Ok?
    ensures config.None? || groups == [] ==> r == Ok([])
  {
    match config
    case None => Ok([])
    case Some(reg) => GroupsDoc(reg, groups)
  }

  /** `safety(attr, item)`. A non-item is passed through behind the proof
      attribute without looking at `attr`; an item needs `attr` to parse as a
      group list and gets its documentation inserted after its own
      attributes. */
  function Safety(attr: seq<Token>, item: SplitAttrs.Source, config: Option<Registry.Registry>)
    : (r: Result<seq<Token>, MacroError>)
    ensures r.Ok? ==> |r.value| >= 2 && r.value[..2] == ProofAttr(attr)
    ensures !SplitAttrs.SplitAttrsAndRest(item).genDoc ==>
      r == Ok(ProofAttr(attr) + SplitAttrs.SplitAttrsAndRest(item).attrs + SplitAttrs.SplitAttrsAndRest(item).rest)
    ensures SplitAttrs.SplitAttrsAndRest(item).genDoc ==>
      (r.Ok? <==> SafetyAttr.ParseGroups(attr, config).Ok? && Docs(config, SafetyAttr.ParseGroups(attr, config).value).Ok?)
    ensures SplitAttrs.SplitAttrsAndRest(item).genDoc && r.Ok? ==>
      var input := SplitAttrs.SplitAttrsAndRest(item);
      r.value == ProofAttr(attr) + input.attrs + Docs(config, SafetyAttr.ParseGroups(attr, config).value).value + input.rest
  {
    var input := SplitAttrs.SplitAttrsAndRest(item);
    if !input.genDoc then Ok(ProofAttr(attr) + input.attrs + input.rest)
    else
      var groups :- SafetyAttr.ParseGroups(attr, config).MapFailure(e => BadArgs(e));
      var docs :- Docs(config, groups).MapFailure(e => BadDoc(e));
      Ok(ProofAttr(attr) + input.attrs + docs + input.rest)
  }

  /** Whatever `attr` holds, an expression or statement comes out as the
      proof attribute followed by its own tokens, apart from the `;` of an
      expression statement. */
  lemma NonItemUnchanged(attr: seq<Token>, item: SplitAttrs.Source, config: Option<Registry.Registry>)
    requires !(item.Parsed? && item.stmt.Item?)
    ensures item.Parsed? ==> Safety(attr, item, config) == Ok(ProofAttr(attr) + SplitAttrs.Print(item)[..|SplitAttrs.Print(item)| - |SplitAttrs.SemiTokens(item.stmt)|])
    ensures item.Unparsed? ==> Safety(attr, item, config) == Ok(ProofAttr(attr) + SplitAttrs.Print(item))
  {
    SplitAttrs.SplitKeepsTokens(item);
    var input := SplitAttrs.SplitAttrsAndRest(item);
    assert Safety(attr, item, config) == Ok(ProofAttr(attr) + input.attrs + input.rest);
    assert ProofAttr(attr) + input.attrs + input.rest == ProofAttr(attr) + (input.attrs + input.rest);
    if item.Parsed? {
      var p := SplitAttrs.Print(item);
      assert p == (input.attrs + input.rest) + SplitAttrs.SemiTokens(item.stmt);
      assert p[..|p| - |SplitAttrs.SemiTokens(item.stmt)|] == input.attrs + input.rest;
    }
  }

  /** With no configuration an item only gains the proof attribute: its
      tokens follow unchanged. */
  lemma ItemWithoutConfig(attr: seq<Token>, item: SplitAttrs.Source)
    requires item.Parsed? && item.stmt.Item?
    requires SafetyAttr.ParseGroups(attr, None).Ok?
    ensures Safety(attr, item, None) == Ok(ProofAttr(attr) + SplitAttrs.Print(item))
  {
    var input := SplitAttrs.SplitAttrsAndRest(item);
    var pa := ProofAttr(attr);
    ItemInput(item);
    Concat3(pa, input.attrs, input.rest);
    SafetyItemNoDocs(attr, item);
  }

  lemma SafetyItemNoDocs(attr: seq<Token>, item: SplitAttrs.Source)
    requires SplitAttrs.SplitAttrsAndRest(item).genDoc
    requires SafetyAttr.ParseGroups(attr, None).Ok?
    ensures var input := SplitAttrs.SplitAttrsAndRest(item);
      Safety(attr, item, None) == Ok(ProofAttr(attr) + input.attrs + [] + input.rest)
  {
  }

  lemma Concat3<T>(a: seq<T>, b: seq<T>, c: seq<T>)
    ensures a + b + [] + c == a + (b + c)
  {
  }

  lemma ItemInput(item: SplitAttrs.Source)
    requires item.Parsed? && item.stmt.Item?
    ensures var input := SplitAttrs.SplitAttrsAndRest(item);
      input.genDoc && input.attrs + input.rest == SplitAttrs.Print(item)
  {
    var input := SplitAttrs.SplitAttrsAndRest(item);
    SplitAttrs.SplitKeepsTokens(item);
    assert input.attrs + input.rest + [] == input.attrs + input.rest;
  }

  /** An item whose macro arguments do not parse aborts the expansion. */
  lemma ItemNeedsGroups(attr: seq<Token>, k: SplitAttrs.ItemKind, attrs: seq<SplitAttrs.Attr>, body: seq<Token>,
                        config: Option<Registry.Registry>)
    requires SafetyAttr.ParseGroups(attr, config).Err?
    ensures Safety(attr, SplitAttrs.Parsed(SplitAttrs.Item(k, attrs, body)), config)
      == Err(BadArgs(SafetyAttr.ParseGroups(attr, config).error))
  {
  }
}
