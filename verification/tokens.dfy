/** Token trees as the macros see them: identifiers, single punctuation
    characters, literals and delimited groups. A group is one token, so a
    separator inside parentheses is never at the top level. */
module Tokens {
  import Text
  import Outcome

  datatype Delimiter = Paren | Brace | Bracket

  datatype Token =
    | Ident(name: string)
    | Punct(ch: char)
    | StrLit(value: string)
    | OtherLit(text: string)
    | Group(delim: Delimiter, inner: seq<Token>)

  /** Words that syn refuses to parse as an identifier. */
  predicate IsReserved(name: string) {
    name in {
      "_", "abstract", "as", "async", "await", "become", "box", "break",
      "const", "continue", "crate", "do", "dyn", "else", "enum", "extern",
      "false", "final", "fn", "for", "if", "impl", "in", "let", "loop",
      "macro", "match", "mod", "move", "mut", "override", "priv", "pub",
      "ref", "return", "Self", "self", "static", "struct", "super", "trait",
      "true", "try", "type", "typeof", "unsafe", "unsized", "use", "virtual",
      "where", "while", "yield"}
  }

  /** An identifier token syn accepts as `Ident`. */
  predicate IsIdent(t: Token) {
    t.Ident? && !IsReserved(t.name)
  }

  /** Source text of a token list, tokens separated by single spaces. */
  function Render(ts: seq<Token>): string
    decreases ts
  {
    if ts == [] then []
    else if |ts| == 1 then RenderOne(ts[0])
    else RenderOne(ts[0]) + " " + Render(ts[1..])
  }

  function RenderOne(t: Token): string
    decreases t
  {
    match t
    case Ident(n) => n
    case Punct(c) => [c]
    case StrLit(v) => "\"" + v + "\""
    case OtherLit(x) => x
    case Group(d, inner) =>
      match d
      case Paren => "(" + Render(inner) + ")"
      case Brace => "{" + Render(inner) + "}"
      case Bracket => "[" + Render(inner) + "]"
  }

  /** `Punctuated::parse_terminated` over top-level `sep`: the runs between
      separators, each required to be non-empty, with one trailing separator
      tolerated. None is a parse error. */
  function SplitTerminated(ts: seq<Token>, sep: char): (r: Outcome.Option<seq<seq<Token>>>)
    ensures r.Some? ==> forall i :: 0 <= i < |r.value| ==> r.value[i] != []
    ensures r.Some? ==> forall i, j :: 0 <= i < |r.value| && 0 <= j < |r.value[i]| ==> r.value[i][j] != Punct(sep)
    ensures ts == [] ==> r == Outcome.Some([])
  {
    if ts == [] then Outcome.Some([])
    else
      var pieces := Text.Split(ts, Punct(sep));
      var kept := if pieces[|pieces| - 1] == [] then pieces[..|pieces| - 1] else pieces;
      if forall i :: 0 <= i < |kept| ==> kept[i] != [] then Outcome.Some(kept) else Outcome.None
  }

  /** Separating the runs again gives back the input, up to the trailing
      separator. */
  lemma SplitTerminatedRoundTrip(ts: seq<Token>, sep: char)
    requires SplitTerminated(ts, sep).Some?
    ensures var runs := SplitTerminated(ts, sep).value;
      Text.Join(runs, [Punct(sep)]) == ts || Text.Join(runs, [Punct(sep)]) + [Punct(sep)] == ts
  {
    if ts != [] {
      var pieces := Text.Split(ts, Punct(sep));
      Text.JoinSplit(ts, Punct(sep));
      if pieces[|pieces| - 1] == [] {
        var kept := pieces[..|pieces| - 1];
        JoinDropLast(pieces, [Punct(sep)]);
      }
    }
  }

  lemma JoinDropLast<T>(parts: seq<seq<T>>, sep: seq<T>)
    requires |parts| >= 1 && parts[|parts| - 1] == []
    ensures |parts| >= 2 ==> Text.Join(parts, sep) == Text.Join(parts[..|parts| - 1], sep) + sep
    ensures |parts| == 1 ==> Text.Join(parts, sep) == []
    decreases |parts|
  {
    if |parts| > 2 {
      JoinDropLast(parts[1..], sep);
      assert parts[1..][..|parts| - 2] == parts[..|parts| - 1][1..];
    }
  }

  /** Runs free of the separator, joined with it, split back into the same
      runs. */
  lemma SplitTerminatedJoin(runs: seq<seq<Token>>, sep: char)
    requires runs != []
    requires forall i :: 0 <= i < |runs| ==> runs[i] != [] && Punct(sep) !in runs[i]
    ensures SplitTerminated(Text.Join(runs, [Punct(sep)]), sep) == Outcome.Some(runs)
  {
    var ts := Text.Join(runs, [Punct(sep)]);
    Text.SplitJoin(runs, Punct(sep));
    if |runs| >= 2 {
      Text.JoinCons(runs, [Punct(sep)]);
    }
    assert ts != [];
  }
}
