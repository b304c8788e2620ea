/** Collecting the statistics of a crate: its type, each function's line
    span as text, and the tags of callers and callees. Compiler queries are
    parameters: the crate-type list, the line indices of a span, and tool
    attributes already parsed into groups. */
module StatCollect {
  import opened Outcome
  import Text
  import SafetyAttr
  import AnyTag
  import Registry
  import S = Stats

  /** The compiler's crate types. */
  datatype RawCrateType = Executable | Dylib | Rlib | Staticlib | Cdylib | ProcMacro | Sdylib

  datatype CrateType = Bin | Lib

  datatype CollectError = NoCrateType

  /** `crate_type`: a binary when an executable is built, a library when
      some other type is, and an abort for an empty list. */
  function CrateTypeOf(v: seq<RawCrateType>): (r: Result<CrateType, CollectError>)
    ensures r == Ok(Bin) <==> Executable in v
    ensures r == Ok(Lib) <==> Executable !in v && v != []
    ensures r.Err? <==> v == []
  {
    if Executable in v then Ok(Bin)
    else if v == [] then Err(NoCrateType)
    else Ok(Lib)
  }

  /** The span text of `new_func`: `first:last` for several lines, the
      line for one, and nothing for none. */
  function SpanString(lines: seq<nat>): (s: string)
    ensures lines == [] <==> s == []
    ensures forall i :: 0 <= i < |s| ==> s[i] == ':' || '0' <= s[i] <= '9'
  {
    match |lines|
    case 0 => ""
    case 1 => Text.NatToString(lines[0])
    case _ => Text.NatToString(lines[0]) + ":" + Text.NatToString(lines[|lines| - 1])
  }

  predicate IsDigits(s: string) {
    |s| >= 1 && forall i :: 0 <= i < |s| ==> '0' <= s[i] <= '9'
  }

  /** Reading a span text back: the first and last line. */
  function ParseSpan(s: string): Option<(nat, nat)> {
    var parts := Text.Split(s, ':');
    if |parts| == 1 && IsDigits(parts[0]) then
      var n := Text.DigitsValue(parts[0]); Some((n, n))
    else if |parts| == 2 && IsDigits(parts[0]) && IsDigits(parts[1]) then
      Some((Text.DigitsValue(parts[0]), Text.DigitsValue(parts[1])))
    else None
  }

  /** The span text records the first and the last line. */
  lemma SpanStringRoundTrip(lines: seq<nat>)
    requires lines != []
    ensures ParseSpan(SpanString(lines)) == Some((lines[0], lines[|lines| - 1]))
  {
    var a := Text.NatToString(lines[0]);
    var b := Text.NatToString(lines[|lines| - 1]);
    Text.NatToStringValue(lines[0]);
    Text.NatToStringValue(lines[|lines| - 1]);
    if |lines| == 1 {
      Text.SplitJoin([a], ':');
    } else {
      Text.SplitJoin([a, b], ':');
      Text.JoinCons([a, b], [':']);
      assert Text.Join([a, b], [':']) == a + ":" + b;
    }
  }

  /** `push_tag`: one statistics tag per parsed tag, in order; an `any` tag
      keeps its groups. */
  function PushTag(groups: seq<SafetyAttr.PropertiesAndReason>, tags: seq<S.Tag>): (r: seq<S.Tag>)
    ensures |r| == |tags| + SafetyAttr.TagCount(groups) && r[..|tags|] == tags
    ensures forall i :: 0 <= i < SafetyAttr.TagCount(groups) ==>
      var p := AnyTag.Tags(groups)[i];
      r[|tags| + i] == match AnyTag.ArgsInAnyTag(p)
        case Some(v) => S.RequiresAny(v)
        case None => S.RequiresVanilla(p)
  {
    var ps := AnyTag.Tags(groups);
    tags + seq(|ps|, i requires 0 <= i < |ps| =>
      match AnyTag.ArgsInAnyTag(ps[i])
      case Some(v) => S.RequiresAny(v)
      case None => S.RequiresVanilla(ps[i]))
  }

  /** `new_func`: no tags and no unsafe calls yet. */
  function NewFunc(name: string, path: string, lines: seq<nat>): (f: S.Func)
    ensures f.name == name && f.path == path && f.span == SpanString(lines)
    ensures f.tags == [] && f.unsafeCalls == []
  {
    S.Func(name, [], path, SpanString(lines), [])
  }

  /** The tags of a caller: `push_tag` over its tool attributes in order. */
  function CallerTags(attrs: seq<seq<SafetyAttr.PropertiesAndReason>>): (r: seq<S.Tag>)
    ensures |r| == AttrsTagCount(attrs)
    decreases |attrs|
  {
    if attrs == [] then []
    else PushTag(attrs[|attrs| - 1], CallerTags(attrs[..|attrs| - 1]))
  }

  function AttrsTagCount(attrs: seq<seq<SafetyAttr.PropertiesAndReason>>): nat
    decreases |attrs|
  {
    if attrs == [] then 0 else AttrsTagCount(attrs[..|attrs| - 1]) + SafetyAttr.TagCount(attrs[|attrs| - 1])
  }

  /** `new_caller`. */
  function NewCaller(name: string, path: string, lines: seq<nat>, attrs: seq<seq<SafetyAttr.PropertiesAndReason>>)
    : (f: S.Func)
    ensures f.name == name && f.path == path && f.span == SpanString(lines) && f.unsafeCalls == []
    ensures f.tags == CallerTags(attrs) && |f.tags| == AttrsTagCount(attrs)
  {
    NewFunc(name, path, lines).(tags := CallerTags(attrs))
  }

  /** `new_callee`: exactly the given tags. */
  function NewCallee(name: string, path: string, lines: seq<nat>, tags: seq<S.Tag>): (f: S.Func)
    ensures f.tags == tags && f.span == SpanString(lines) && f.unsafeCalls == []
  {
    NewFunc(name, path, lines).(tags := tags)
  }

  /** Every tag a caller collects is a `requires` tag without
      documentation, and an `any` tag is recorded as such. */
  lemma {:induction false} CallerTagsRequire(attrs: seq<seq<SafetyAttr.PropertiesAndReason>>)
    ensures forall i :: 0 <= i < |CallerTags(attrs)| ==>
      CallerTags(attrs)[i].pred == S.Requires && CallerTags(attrs)[i].doc.None?
      && (CallerTags(attrs)[i].tag.VanillaType? ==> CallerTags(attrs)[i].tag.prop.tag.name != Registry.Any)
    decreases |attrs|
  {
    if attrs != [] {
      var init := CallerTags(attrs[..|attrs| - 1]);
      CallerTagsRequire(attrs[..|attrs| - 1]);
      var r := CallerTags(attrs);
      assert r == PushTag(attrs[|attrs| - 1], init);
      forall i | 0 <= i < |r|
        ensures r[i].pred == S.Requires && r[i].doc.None? && (r[i].tag.VanillaType? ==> r[i].tag.prop.tag.name != Registry.Any)
      {
        if i < |init| {
          assert r[i] == r[..|init|][i] == init[i];
        }
      }
    }
  }
}
