/** The built-in `any` tag and the flattened tag list of a parsed attribute,
    shared by the discharge tracker and the usage statistics. */
module AnyTag {
  import opened Outcome
  import opened Tokens
  import Registry
  import SafetyAttr
  import Text

  /** Stand-in for `Property::args_in_any_tag`: for a tag named `any`, one
      group holding a tag per argument that starts with an identifier, named
      by that identifier (whatever follows the identifier is dropped); None
      for every other tag. */
  function ArgsInAnyTag(p: SafetyAttr.Property): (r: Option<seq<SafetyAttr.PropertiesAndReason>>)
    ensures r.Some? <==> p.tag.name == Registry.Any
    ensures r.Some? ==> |r.value| == 1 && r.value[0].desc.None? && r.value[0].tags == InnerTags(p.args)
  {
    if p.tag.name == Registry.Any then Some([SafetyAttr.PropertiesAndReason(InnerTags(p.args), None)])
    else None
  }

  /** An argument whose first token is an identifier. */
  predicate IdentLed(e: SafetyAttr.Expr) {
    e != [] && e[0].Ident?
  }

  /** The untyped, argument-free tag named by an argument's leading
      identifier. */
  function InnerTag(e: SafetyAttr.Expr): SafetyAttr.Property
    requires IdentLed(e)
  {
    SafetyAttr.Property(SafetyAttr.TagNameType(None, e[0].name), [])
  }

  /** The inner tags of an `any`: exactly the tags of the arguments that
      start with an identifier. */
  function InnerTags(args: seq<SafetyAttr.Expr>): (r: seq<SafetyAttr.Property>)
    ensures |r| <= |args|
    ensures forall p :: p in r <==> exists i :: 0 <= i < |args| && IdentLed(args[i]) && p == InnerTag(args[i])
    ensures r == [] <==> forall i :: 0 <= i < |args| ==> !IdentLed(args[i])
  {
    if args == [] then []
    else
      var head := if IdentLed(args[0]) then [InnerTag(args[0])] else [];
      var rest := InnerTags(args[1..]);
      assert forall i :: 1 <= i < |args| ==> args[i] == args[1..][i - 1];
      head + rest
  }

  /** The inner tags of a list of arguments are those of its parts, in
      order. */
  lemma {:induction false} InnerTagsAppend(a: seq<SafetyAttr.Expr>, b: seq<SafetyAttr.Expr>)
    ensures InnerTags(a + b) == InnerTags(a) + InnerTags(b)
    decreases |a|
  {
    if a == [] {
      Text.AppendNil(b);
    } else {
      Text.TailAppend(a, b);
      InnerTagsAppend(a[1..], b);
      var head := if IdentLed(a[0]) then [InnerTag(a[0])] else [];
      Text.AppendAssoc(head, InnerTags(a[1..]), InnerTags(b));
    }
  }

  /** A single argument gives its tag when it starts with an identifier,
      and nothing otherwise. */
  lemma InnerTagsOne(e: SafetyAttr.Expr)
    ensures InnerTags([e]) == if IdentLed(e) then [InnerTag(e)] else []
  {
    assert [e][1..] == [];
  }

  /** Every tag of a group list, in source order. */
  function Tags(groups: seq<SafetyAttr.PropertiesAndReason>): (r: seq<SafetyAttr.Property>)
    ensures |r| == SafetyAttr.TagCount(groups)
    ensures forall i :: 0 <= i < |r| ==> r[i] == SafetyAttr.PropertyReason(groups)[i].0
  {
    var pr := SafetyAttr.PropertyReason(groups);
    seq(|pr|, i requires 0 <= i < |pr| => pr[i].0)
  }

  /** Tag `i` of group `g` sits at its group's offset in the flattened
      list. */
  lemma TagsAt(groups: seq<SafetyAttr.PropertiesAndReason>, g: nat, i: nat)
    requires g < |groups| && i < |groups[g].tags|
    ensures SafetyAttr.Offset(groups, g) + i < |Tags(groups)|
    ensures Tags(groups)[SafetyAttr.Offset(groups, g) + i] == groups[g].tags[i]
  {
    SafetyAttr.PropertyReasonAt(groups, g, i);
  }

  /** The tags of a single group are its own. */
  lemma TagsSingle(g: SafetyAttr.PropertiesAndReason)
    ensures Tags([g]) == g.tags
  {
    assert [g][1..] == [];
    forall i | 0 <= i < |g.tags|
      ensures Tags([g])[i] == g.tags[i]
    {
      TagsAt([g], 0, i);
    }
  }

  /** The names of a tag list. */
  function Names(tags: seq<SafetyAttr.Property>): (r: seq<string>)
    ensures |r| == |tags| && forall i :: 0 <= i < |tags| ==> r[i] == tags[i].tag.name
  {
    seq(|tags|, i requires 0 <= i < |tags| => tags[i].tag.name)
  }
}
