/** Documentation generated from `#[safety]` groups: a tag's `desc`
    template filled from the tag's positional arguments, and the doc lines of
    a group. The template language is reduced to `{name}` placeholders. */
module DocGen {
  import opened Outcome
  import opened Tokens
  import Text
  import Registry
  import SafetyAttr

  /** `expr_to_string`: a string literal argument gives its value, any
      other expression its token text. */
  function ExprToString(e: SafetyAttr.Expr): (r: string)
    ensures |e| == 1 && e[0].StrLit? ==> Render(e) == "\"" + r + "\""
    ensures r == Render(e) <==> !(|e| == 1 && e[0].StrLit?)
  {
    if |e| == 1 && e[0].StrLit? then e[0].value else Render(e)
  }

  // ---------------------------------------------------------------------
  // Templates.

  /** A compiled template: literal text (never empty, never containing `{`)
      and `{name}` placeholders. */
  datatype Piece = Lit(text: string) | Hole(name: string)

  datatype TemplateError = Unclosed | UnknownName(name: string)

  /** Index of the first occurrence of `c` in `s`, or `|s|`. */
  function IndexOf(s: string, c: char): (k: nat)
    ensures k <= |s| && c !in s[..k] && (k < |s| ==> s[k] == c)
  {
    if s == [] then 0
    else if s[0] == c then 0
    else
      var k := IndexOf(s[1..], c);
      assert s[..k + 1] == [s[0]] + s[1..][..k];
      k + 1
  }

  /** Compiles a template: text up to the next `{` is a literal, and `{`
      up to the next `}` a placeholder; a `{` with no `}` after it is an
      error. */
  function Compile(desc: string): (r: Result<seq<Piece>, TemplateError>)
    ensures r.Ok? ==> Normal(r.value) && Source(r.value) == desc
    ensures r.Ok? && desc != [] ==> r.value != [] && (r.value[0].Hole? <==> desc[0] == '{')
    ensures '{' !in desc ==> r.Ok?
    decreases |desc|
  {
    if desc == [] then Ok([])
    else if desc[0] == '{' then
      var k := IndexOf(desc[1..], '}');
      if k == |desc| - 1 then Err(Unclosed)
      else
        var name := desc[1..k + 1];
        assert desc == "{" + name + "}" + desc[k + 2..];
        var rest :- Compile(desc[k + 2..]);
        NormalCons(Hole(name), rest);
        Ok([Hole(name)] + rest)
    else
      var k := IndexOf(desc, '{');
      var text := desc[..k];
      assert desc == text + desc[k..];
      assert '{' !in desc ==> '{' !in desc[k..];
      var rest :- Compile(desc[k..]);
      NormalCons(Lit(text), rest);
      Ok([Lit(text)] + rest)
  }

  lemma NormalCons(x: Piece, ps: seq<Piece>)
    requires Normal(ps)
    requires x.Lit? ==> x.text != [] && '{' !in x.text && (ps != [] ==> ps[0].Hole?)
    requires x.Hole? ==> '}' !in x.name
    ensures Normal([x] + ps)
  {
    var qs := [x] + ps;
    forall i | 0 <= i < |qs| ensures PieceOk(qs, i) {
      if i > 0 {
        assert PieceOk(ps, i - 1);
        assert qs[i] == ps[i - 1];
        if i + 1 < |qs| {
          assert qs[i + 1] == ps[i];
        }
      }
    }
  }

  /** Literals are non-empty and `{`-free, placeholder names `}`-free, and a
      literal is never followed by another literal. */
  predicate Normal(ps: seq<Piece>) {
    forall i :: 0 <= i < |ps| ==> PieceOk(ps, i)
  }

  predicate PieceOk(ps: seq<Piece>, i: nat)
    requires i < |ps|
  {
    && (ps[i].Lit? ==> ps[i].text != [] && '{' !in ps[i].text && (i + 1 < |ps| ==> ps[i + 1].Hole?))
    && (ps[i].Hole? ==> '}' !in ps[i].name)
  }

  /** The template text of a compiled template. */
  function Source(ps: seq<Piece>): string {
    if ps == [] then []
    else
      (match ps[0] case Lit(t) => t case Hole(n) => "{" + n + "}") + Source(ps[1..])
  }

  lemma SourceStartsWithBrace(ps: seq<Piece>)
    requires ps != [] && ps[0].Hole?
    ensures Source(ps) != [] && Source(ps)[0] == '{'
  {
  }

  /** Compiling the text of a normal template gives it back. */
  lemma {:induction false} CompileSource(ps: seq<Piece>)
    requires Normal(ps)
    ensures Compile(Source(ps)) == Ok(ps)
    decreases |ps|
  {
    if ps != [] {
      var rest := ps[1..];
      NormalTail(ps);
      CompileSource(rest);
      assert PieceOk(ps, 0);
      assert ps == [ps[0]] + rest;
      match ps[0]
      case Hole(n) => CompileHole(n, rest);
      case Lit(t) => CompileLit(t, rest);
    }
  }

  lemma CompileHole(n: string, rest: seq<Piece>)
    requires '}' !in n && Compile(Source(rest)) == Ok(rest)
    ensures Compile(Source([Hole(n)] + rest)) == Ok([Hole(n)] + rest)
  {
    assert Source([Hole(n)] + rest) == "{" + n + "}" + Source(rest) by {
      assert ([Hole(n)] + rest)[1..] == rest;
    }
    CompileHoleText(n, Source(rest));
  }

  lemma CompileHoleText(n: string, tail: string)
    requires '}' !in n && Compile(tail).Ok?
    ensures Compile("{" + n + "}" + tail) == Ok([Hole(n)] + Compile(tail).value)
  {
    var d := "{" + n + "}" + tail;
    assert d[1..] == n + ("}" + tail);
    IndexOfPrefix(n, "}" + tail, '}');
    assert d[1..|n| + 1] == n;
    assert d[|n| + 2..] == tail;
  }

  lemma CompileLit(t: string, rest: seq<Piece>)
    requires t != [] && '{' !in t && (rest != [] ==> rest[0].Hole?)
    requires Compile(Source(rest)) == Ok(rest)
    ensures Compile(Source([Lit(t)] + rest)) == Ok([Lit(t)] + rest)
  {
    assert Source([Lit(t)] + rest) == t + Source(rest) by {
      assert ([Lit(t)] + rest)[1..] == rest;
    }
    if rest != [] {
      SourceStartsWithBrace(rest);
    }
    CompileLitText(t, Source(rest));
  }

  lemma CompileLitText(t: string, tail: string)
    requires t != [] && '{' !in t && (tail == [] || tail[0] == '{') && Compile(tail).Ok?
    ensures Compile(t + tail) == Ok([Lit(t)] + Compile(tail).value)
  {
    var d := t + tail;
    assert d[0] == t[0] && t[0] in t;
    IndexOfPrefix(t, tail, '{');
    assert d[|t|..] == tail;
    assert d[..|t|] == t;
  }

  lemma NormalTail(ps: seq<Piece>)
    requires ps != [] && Normal(ps)
    ensures Normal(ps[1..])
  {
    var rest := ps[1..];
    forall i | 0 <= i < |rest|
      ensures PieceOk(rest, i)
    {
      assert PieceOk(ps, i + 1);
      assert rest[i] == ps[i + 1];
      if i + 1 < |rest| {
        assert rest[i + 1] == ps[i + 2];
      }
    }
  }

  lemma IndexOfPrefix(a: string, b: string, c: char)
    requires c !in a && (b == [] || b[0] == c)
    ensures IndexOf(a + b, c) == |a|
  {
    if a != [] {
      assert (a + b)[1..] == a[1..] + b;
      IndexOfPrefix(a[1..], b, c);
    } else {
      assert a + b == b;
    }
  }

  /** The text produced by a template whose placeholders are all bound. */
  function Fill(ps: seq<Piece>, values: map<string, string>): string
    requires forall i :: 0 <= i < |ps| && ps[i].Hole? ==> ps[i].name in values
  {
    if ps == [] then []
    else (match ps[0] case Lit(t) => t case Hole(n) => values[n]) + Fill(ps[1..], values)
  }

  predicate Bound(ps: seq<Piece>, values: map<string, string>) {
    forall i :: 0 <= i < |ps| && ps[i].Hole? ==> ps[i].name in values
  }

  /** Rendering fails on the first placeholder with no value. */
  function RenderPieces(ps: seq<Piece>, values: map<string, string>): (r: Result<string, TemplateError>)
    ensures r.Ok? <==> Bound(ps, values)
    ensures r.Ok? ==> r.value == Fill(ps, values)
  {
    if ps == [] then Ok([])
    else
      var head :- match ps[0]
        case Lit(t) => Ok(t)
        case Hole(n) => if n in values then Ok(values[n]) else Err(UnknownName(n));
      assert Bound(ps, values) <==> Bound(ps[1..], values) && (ps[0].Hole? ==> ps[0].name in values) by {
        if Bound(ps[1..], values) && (ps[0].Hole? ==> ps[0].name in values) {
          forall i | 0 <= i < |ps| && ps[i].Hole? ensures ps[i].name in values {
            if i > 0 { assert ps[i] == ps[1..][i - 1]; }
          }
        }
      }
      var tail :- RenderPieces(ps[1..], values);
      Ok(head + tail)
  }

  /** `template`: compile, render, and append one newline. Failures of
      either step abort the macro. */
  function Template(desc: string, values: map<string, string>): (r: Result<string, TemplateError>)
    ensures r.Ok? ==> |r.value| >= 1 && r.value[|r.value| - 1] == '\n'
    ensures r.Ok? <==> Compile(desc).Ok? && Bound(Compile(desc).value, values)
    ensures r.Ok? ==> r.value == Fill(Compile(desc).value, values) + "\n"
  {
    var ps :- Compile(desc);
    var text :- RenderPieces(ps, values);
    Ok(text + "\n")
  }

  /** Text without placeholders is copied unchanged. */
  lemma PlainTemplate(desc: string, values: map<string, string>)
    requires '{' !in desc
    ensures Template(desc, values) == Ok(desc + "\n")
  {
    if desc != [] {
      CompileSource([Lit(desc)]);
      assert Source([Lit(desc)]) == desc;
    }
  }

  // ---------------------------------------------------------------------
  // Filling a tag's description.

  /** The argument map of `Property::gen_doc`: the first `min(#inputs,
      #declared)` declared names bound to the inputs at the same position (a
      later duplicate name overwrites an earlier one), every other declared
      name bound to the empty string. */
  function ArgMap(declared: seq<string>, inputs: seq<string>): (m: map<string, string>)
    ensures forall n :: n in m <==> n in declared
    ensures forall i :: 0 <= i < |declared| && i < |inputs| && LastBelow(declared, i, |inputs|) ==>
      m[declared[i]] == inputs[i]
    ensures forall n :: n in declared && (forall i :: 0 <= i < |declared| && i < |inputs| ==> declared[i] != n) ==>
      m[n] == ""
  {
    var n := if |inputs| < |declared| then |inputs| else |declared|;
    var zipped := Zip(declared[..n], inputs[..n]);
    var m := FillMissing(zipped, declared);
    ArgMapFacts(declared, inputs, n, zipped, m);
    m
  }

  lemma ArgMapFacts(declared: seq<string>, inputs: seq<string>, n: nat, zipped: map<string, string>, m: map<string, string>)
    requires n == if |inputs| < |declared| then |inputs| else |declared|
    requires zipped == Zip(declared[..n], inputs[..n])
    requires m == FillMissing(zipped, declared)
    ensures forall i :: 0 <= i < |declared| && i < |inputs| && LastBelow(declared, i, |inputs|) ==>
      m[declared[i]] == inputs[i]
    ensures forall x :: x in declared && (forall i :: 0 <= i < |declared| && i < |inputs| ==> declared[i] != x) ==>
      m[x] == ""
  {
    forall i | 0 <= i < |declared| && i < |inputs| && LastBelow(declared, i, |inputs|)
      ensures m[declared[i]] == inputs[i]
    {
      assert declared[..n][i] == declared[i] && inputs[..n][i] == inputs[i];
      forall j | i < j < n ensures declared[..n][j] != declared[..n][i] {
        assert declared[..n][j] == declared[j];
      }
      assert LastBelow(declared[..n], i, n);
      assert declared[i] in declared[..n];
    }
  }

  /** No position after `i` and before `bound` repeats the name at `i`. */
  predicate LastBelow(names: seq<string>, i: nat, bound: nat)
    requires i < |names|
  {
    forall j :: i < j < |names| && j < bound ==> names[j] != names[i]
  }

  /** Collecting name/value pairs into a map: the last value of a
      repeated name wins. */
  function Zip(names: seq<string>, values: seq<string>): (m: map<string, string>)
    requires |names| == |values|
    ensures forall n :: n in m <==> n in names
    ensures forall i :: 0 <= i < |names| && LastBelow(names, i, |names|) ==> m[names[i]] == values[i]
    decreases |names|
  {
    if names == [] then map[]
    else
      var tail := Zip(names[1..], values[1..]);
      var m := if names[0] in tail then tail else tail[names[0] := values[0]];
      assert forall i :: 1 <= i < |names| ==> names[i] == names[1..][i - 1] && values[i] == values[1..][i - 1];
      assert forall i :: 1 <= i < |names| && LastBelow(names, i, |names|) ==> LastBelow(names[1..], i - 1, |names| - 1);
      assert LastBelow(names, 0, |names|) ==> names[0] !in names[1..];
      m
  }

  function FillMissing(m: map<string, string>, declared: seq<string>): (r: map<string, string>)
    decreases |declared|
    ensures forall n :: n in r <==> n in m || n in declared
    ensures forall n :: n in m ==> r[n] == m[n]
    ensures forall n :: n in declared && n !in m ==> r[n] == ""
  {
    if declared == [] then m
    else
      var m2 := if declared[0] in m then m else m[declared[0] := ""];
      FillMissing(m2, declared[1..])
  }

  datatype DocError = Undefined(name: string) | BadTemplate(error: TemplateError)

  /** `Property::gen_doc`: None when the tag has no description. Looking up
      an undefined tag, or a template that does not render, aborts. */
  function PropertyDoc(reg: Registry.Registry, p: SafetyAttr.Property): (r: Result<Outcome.Option<string>, DocError>)
    ensures p.tag.name !in reg.keys ==> r == Err(Undefined(p.tag.name))
    ensures p.tag.name in reg.keys && reg.keys[p.tag.name].tag.desc.None? ==> r == Ok(None)
    ensures r.Ok? && r.value.Some? ==> |r.value.value| >= 1 && r.value.value[|r.value.value| - 1] == '\n'
  {
    var tag :- Registry.GetTag(reg, p.tag.name).MapFailure(e => Undefined(p.tag.name));
    var values := ArgMap(tag.args, InputStrings(p.args));
    match tag.desc
    case None => Ok(None)
    case Some(d) =>
      match Template(d, values)
      case Ok(text) => Ok(Some(text))
      case Err(e) => Err(BadTemplate(e))
  }

  function InputStrings(args: seq<SafetyAttr.Expr>): (r: seq<string>)
    ensures |r| == |args| && forall i :: 0 <= i < |args| ==> r[i] == ExprToString(args[i])
  {
    seq(|args|, i requires 0 <= i < |args| => ExprToString(args[i]))
  }

  /** Missing and extra arguments are tolerated: when the description only
      mentions declared argument names, filling it never fails, whatever the
      number of arguments given. A declared name with no argument at its
      position becomes empty text. */
  lemma PropertyDocTotal(reg: Registry.Registry, p: SafetyAttr.Property)
    requires p.tag.name in reg.keys
    requires var tag := reg.keys[p.tag.name].tag;
      tag.desc.Some? && Compile(tag.desc.value).Ok? &&
      forall i :: 0 <= i < |Compile(tag.desc.value).value| && Compile(tag.desc.value).value[i].Hole? ==>
        Compile(tag.desc.value).value[i].name in tag.args
    ensures var tag := reg.keys[p.tag.name].tag;
      var values := ArgMap(tag.args, InputStrings(p.args));
      PropertyDoc(reg, p) == Ok(Some(Fill(Compile(tag.desc.value).value, values) + "\n"))
  {
  }

  /** `PropertiesAndReason::gen_doc`: the group's reason first, then one
      `* Name: doc` or `* Name` line per tag, in order. */
  function GroupDoc(reg: Registry.Registry, g: SafetyAttr.PropertiesAndReason): (r: Result<seq<string>, DocError>)
    ensures r.Ok? && g.desc.Some? ==> r.value != [] && r.value[0] == g.desc.value && LinesFor(reg, g.tags, r.value[1..])
    ensures r.Ok? && g.desc.None? ==> LinesFor(reg, g.tags, r.value)
    ensures r.Err? <==> exists i :: 0 <= i < |g.tags| && PropertyDoc(reg, g.tags[i]).Err?
  {
    match TagLines(reg, g.tags)
    case Err(e) => Err(e)
    case Ok(lines) =>
      match g.desc
      case Some(d) =>
        assert ([d] + lines)[1..] == lines;
        Ok([d] + lines)
      case None => Ok(lines)
  }

  function TagLine(name: string, doc: Outcome.Option<string>): (line: string)
    ensures |"* " + name| <= |line| && line[..|"* " + name|] == "* " + name
    ensures doc.None? ==> line == "* " + name
  {
    match doc
    case Some(d) => "* " + name + ": " + d
    case None => "* " + name
  }

  /** `lines` are the tag lines of `tags`, one per tag and in order. */
  predicate LinesFor(reg: Registry.Registry, tags: seq<SafetyAttr.Property>, lines: seq<string>) {
    && |lines| == |tags|
    && forall i :: 0 <= i < |tags| ==>
      PropertyDoc(reg, tags[i]).Ok? && lines[i] == TagLine(tags[i].tag.name, PropertyDoc(reg, tags[i]).value)
  }

  function TagLines(reg: Registry.Registry, tags: seq<SafetyAttr.Property>): (r: Result<seq<string>, DocError>)
    ensures r.Ok? ==> LinesFor(reg, tags, r.value)
    ensures r.Err? <==> exists i :: 0 <= i < |tags| && PropertyDoc(reg, tags[i]).Err?
  {
    if tags == [] then Ok([])
    else
      var doc :- PropertyDoc(reg, tags[0]);
      var rest := TagLines(reg, tags[1..]);
      assert forall i :: 1 <= i < |tags| ==> tags[i] == tags[1..][i - 1];
      match rest
      case Ok(lines) => Ok([TagLine(tags[0].tag.name, doc)] + lines)
      case Err(e) =>
        var k :| 0 <= k < |tags[1..]| && PropertyDoc(reg, tags[1..][k]).Err?;
        assert tags[k + 1] == tags[1..][k];
        Err(e)
  }
}
