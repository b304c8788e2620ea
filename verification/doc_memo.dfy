/** Helpers of the prototype attribute parser: turning a user memo into doc
    lines, and searching a list for the first element a function maps to a
    value. */
module DocMemo {
  import opened Outcome
  import Text

  /** `memo`: one doc line per line of the trimmed memo, each line trimmed
      and led by a single space. */
  function Memo(s: string): (r: seq<string>)
    ensures |r| == |Text.Lines(Text.Trim(s))|
    ensures forall i :: 0 <= i < |r| ==> IsDocLine(r[i])
  {
    DocLines(Text.Lines(Text.Trim(s)))
  }

  /** A doc line: a single space, then text that neither starts nor ends
      with whitespace. */
  predicate IsDocLine(l: string) {
    |l| >= 1 && l[0] == ' '
    && (|l| > 1 ==> !Text.IsWhitespace(l[1]) && !Text.IsWhitespace(l[|l| - 1]))
  }

  /** The doc line of each line, in order. */
  function DocLines(lines: seq<string>): (r: seq<string>)
    ensures |r| == |lines|
    ensures forall i :: 0 <= i < |r| ==> IsDocLine(r[i])
  {
    seq(|lines|, i requires 0 <= i < |lines| => DocLine(lines[i]))
  }

  /** One doc line: a single space, then the trimmed line. */
  function DocLine(line: string): (r: string)
    ensures IsDocLine(r)
    ensures r[1..] == Text.Trim(line)
  {
    var t := Text.Trim(line);
    " " + t
  }

  /** Splitting at `c` gives one piece more than there are `c`s. */
  lemma {:induction false} SplitCount(s: string, c: char)
    ensures |Text.Split(s, c)| == Text.Count(s, c) + 1
  {
    if s != [] {
      SplitCount(s[1..], c);
    }
  }

  /** A text that does not end with the separator has a non-empty last
      piece. */
  lemma {:induction false} SplitLastNonEmpty(s: string, c: char)
    requires s != [] && s[|s| - 1] != c
    ensures var r := Text.Split(s, c); r[|r| - 1] != []
  {
    if |s| > 1 {
      SplitLastNonEmpty(s[1..], c);
    }
  }

  /** A memo yields no doc line exactly when it is blank. */
  lemma MemoBlank(s: string)
    ensures Memo(s) == [] <==> Text.AllWhitespace(s)
  {
    Text.TrimEmptyIffAllWhitespace(s);
    var t := Text.Trim(s);
    if t != [] {
      SplitLastNonEmpty(t, '\n');
    }
  }

  /** A memo that is not blank yields one doc line per line break of its
      trimmed text, plus one. */
  lemma MemoLineCount(s: string)
    requires !Text.AllWhitespace(s)
    ensures |Memo(s)| == Text.Count(Text.Trim(s), '\n') + 1
  {
    Text.TrimEmptyIffAllWhitespace(s);
    var t := Text.Trim(s);
    assert Text.IsWhitespace('\n');
    LinesCount(t);
  }

  /** A text that does not end with a line break has one line per line
      break, plus one. */
  lemma LinesCount(t: string)
    requires t != [] && t[|t| - 1] != '\n'
    ensures |Text.Lines(t)| == Text.Count(t, '\n') + 1
  {
    SplitLastNonEmpty(t, '\n');
    SplitCount(t, '\n');
  }

  /** A single word is documented as itself after one space. */
  lemma MemoWord(w: string)
    requires w != [] && forall i :: 0 <= i < |w| ==> !Text.IsWhitespace(w[i])
    ensures Memo(w) == [" " + w]
  {
    assert Text.TrimStart(w) == w;
    assert Text.Trim(w) == w;
    Text.SplitPrefix(w, [], '\n');
    assert w + [] == w;
    assert Text.Split(w, '\n') == [w];
    assert Text.DropCr(w) == w;
    assert Text.Lines(w) == [w];
    assert DocLines([w]) == [DocLine(w)];
  }

  /** `find_some`: the first value `f` produces, if any. */
  function FindSome<T, U>(v: seq<T>, f: T -> Option<U>): (r: Option<U>)
    ensures r.None? <==> forall i :: 0 <= i < |v| ==> f(v[i]).None?
    ensures r.Some? ==> exists i :: 0 <= i < |v| && f(v[i]) == r && forall j :: 0 <= j < i ==> f(v[j]).None?
  {
    if v == [] then None
    else if f(v[0]).Some? then f(v[0])
    else
      var r := FindSome(v[1..], f);
      assert forall i :: 0 < i < |v| ==> v[i] == v[1..][i - 1];
      r
  }

  /** Searching a concatenation searches the second part only when the
      first has nothing. */
  lemma {:induction false} FindSomeAppend<T, U>(a: seq<T>, b: seq<T>, f: T -> Option<U>)
    ensures FindSome(a + b, f) == if FindSome(a, f).Some? then FindSome(a, f) else FindSome(b, f)
    decreases |a|
  {
    if a == [] {
      assert a + b == b;
    } else {
      assert (a + b)[0] == a[0];
      assert (a + b)[1..] == a[1..] + b;
      FindSomeAppend(a[1..], b, f);
    }
  }

  /** `find`: the first value `f` produces, the fallback only when there is
      none. */
  function Find<T, U>(v: seq<T>, f: T -> Option<U>, fallback: U): (r: U)
    ensures (forall i :: 0 <= i < |v| ==> f(v[i]).None?) ==> r == fallback
    ensures (exists i :: 0 <= i < |v| && f(v[i]).Some?) ==>
      exists i :: 0 <= i < |v| && f(v[i]) == Some(r) && forall j :: 0 <= j < i ==> f(v[j]).None?
  {
    FindSome(v, f).GetOr(fallback)
  }
}
