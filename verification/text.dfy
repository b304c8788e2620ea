/** String helpers that stand in for the Rust standard library functions the
    source relies on: `str::trim`, `str::lines`, `str::split`, joining with a
    separator (itertools `format_with`/`join`), ASCII case folding, decimal
    formatting of integers and the byte-wise ordering of `str`. */
module Text {

  /** Unicode `White_Space` code points, the set `str::trim` removes. */
  predicate IsWhitespace(c: char) {
    || ('\U{0009}' <= c <= '\U{000D}')
    || c == '\U{0020}' || c == '\U{0085}' || c == '\U{00A0}' || c == '\U{1680}'
    || ('\U{2000}' <= c <= '\U{200A}')
    || c == '\U{2028}' || c == '\U{2029}' || c == '\U{202F}' || c == '\U{205F}' || c == '\U{3000}'
  }

  function TrimStart(s: string): (r: string)
    ensures |r| <= |s| && r == s[|s| - |r|..]
    ensures r == [] || !IsWhitespace(r[0])
    ensures forall i :: 0 <= i < |s| - |r| ==> IsWhitespace(s[i])
  {
    if s == [] then s
    else if IsWhitespace(s[0]) then TrimStart(s[1..])
    else s
  }

  function TrimEnd(s: string): (r: string)
    ensures |r| <= |s| && r == s[..|r|]
    ensures r == [] || !IsWhitespace(r[|r| - 1])
    ensures forall i :: |r| <= i < |s| ==> IsWhitespace(s[i])
  {
    if s == [] then s
    else if IsWhitespace(s[|s| - 1]) then TrimEnd(s[..|s| - 1])
    else s
  }

  /** `str::trim`. */
  function Trim(s: string): (r: string)
    ensures r == [] || (!IsWhitespace(r[0]) && !IsWhitespace(r[|r| - 1]))
  {
    TrimEnd(TrimStart(s))
  }

  predicate AllWhitespace(s: string) {
    forall i :: 0 <= i < |s| ==> IsWhitespace(s[i])
  }

  lemma TrimEmptyIffAllWhitespace(s: string)
    ensures Trim(s) == [] <==> AllWhitespace(s)
  {
    var t := TrimStart(s);
    if !AllWhitespace(s) {
      var k :| 0 <= k < |s| && !IsWhitespace(s[k]);
      assert |t| > 0;
    }
  }

  /** Splits `s` at every occurrence of `sep`, like `str::split(char)` (and
      like splitting a token list at a top-level punctuation mark):
      `k` separators give `k + 1` pieces, some possibly empty. */
  function Split<T(==)>(s: seq<T>, sep: T): (r: seq<seq<T>>)
    ensures |r| >= 1
    ensures forall i, j :: 0 <= i < |r| && 0 <= j < |r[i]| ==> r[i][j] != sep
  {
    if s == [] then [[]]
    else if s[0] == sep then [[]] + Split(s[1..], sep)
    else
      var rest := Split(s[1..], sep);
      [[s[0]] + rest[0]] + rest[1..]
  }

  /** Concatenates `parts` with `sep` between consecutive parts. */
  function Join<T>(parts: seq<seq<T>>, sep: seq<T>): seq<T> {
    if parts == [] then []
    else if |parts| == 1 then parts[0]
    else parts[0] + sep + Join(parts[1..], sep)
  }

  /** Splitting at a separator and joining back with it is the identity. */
  lemma {:induction false} JoinSplit<T>(s: seq<T>, sep: T)
    ensures Join(Split(s, sep), [sep]) == s
  {
    if s != [] {
      var rest := Split(s[1..], sep);
      JoinSplit(s[1..], sep);
      if s[0] == sep {
        JoinEmptyHead(rest, [sep]);
      } else {
        JoinExtendHead(s[0], rest, [sep]);
      }
      assert s == [s[0]] + s[1..];
    }
  }

  /** An empty first part contributes only its separator. */
  lemma JoinEmptyHead<T>(parts: seq<seq<T>>, sep: seq<T>)
    requires |parts| >= 1
    ensures Join([[]] + parts, sep) == sep + Join(parts, sep)
  {
    assert ([[]] + parts)[1..] == parts;
  }

  /** Extending the first part extends the joined text by the same. */
  lemma JoinExtendHead<T>(x: T, parts: seq<seq<T>>, sep: seq<T>)
    requires |parts| >= 1
    ensures Join([[x] + parts[0]] + parts[1..], sep) == [x] + Join(parts, sep)
  {
    var r := [[x] + parts[0]] + parts[1..];
    if |parts| > 1 {
      assert r[1..] == parts[1..];
      assert Join(r, sep) == ([x] + parts[0]) + sep + Join(parts[1..], sep);
      assert Join(parts, sep) == parts[0] + sep + Join(parts[1..], sep);
    }
  }

  /** Joining pieces free of the separator and splitting again gives back
      the pieces. */
  lemma {:induction false} SplitJoin<T>(parts: seq<seq<T>>, sep: T)
    requires |parts| >= 1
    requires forall i, j :: 0 <= i < |parts| && 0 <= j < |parts[i]| ==> parts[i][j] != sep
    ensures Split(Join(parts, [sep]), sep) == parts
    decreases |parts|
  {
    if |parts| == 1 {
      SplitPrefix(parts[0], [], sep);
      AppendNil(parts[0]);
    } else {
      JoinCons(parts, [sep]);
      SplitJoin(parts[1..], sep);
      var tail := Join(parts[1..], [sep]);
      SplitPrefix(parts[0], [sep] + tail, sep);
      TailAppend([sep], tail);
      assert Split([sep] + tail, sep) == [[]] + Split(tail, sep);
      AppendAssoc(parts[0], [sep], tail);
      AppendNil(parts[0]);
      HeadTail(parts);
    }
  }

  /** A separator-free prefix extends the first piece. */
  lemma {:induction false} SplitPrefix<T>(p: seq<T>, s: seq<T>, sep: T)
    requires forall j :: 0 <= j < |p| ==> p[j] != sep
    ensures Split(p + s, sep) == [p + Split(s, sep)[0]] + Split(s, sep)[1..]
    decreases |p|
  {
    if p != [] {
      SplitPrefix(p[1..], s, sep);
      assert (p + s)[1..] == p[1..] + s;
      assert [p[0]] + (p[1..] + Split(s, sep)[0]) == p + Split(s, sep)[0];
    } else {
      assert p + s == s;
      var r := Split(s, sep);
      AppendNil(r[0]);
      HeadTail(r);
    }
  }

  /** A non-empty sequence is its head followed by its tail. */
  lemma HeadTail<T>(s: seq<T>)
    requires s != []
    ensures s == [s[0]] + s[1..]
  {
  }

  lemma AppendNil<T>(s: seq<T>)
    ensures s + [] == s && [] + s == s
  {
  }

  lemma AppendAssoc<T>(a: seq<T>, b: seq<T>, c: seq<T>)
    ensures a + (b + c) == (a + b) + c
  {
  }

  /** The head and tail of a concatenation whose first part is non-empty. */
  lemma IndexAppend<T>(a: seq<T>, b: seq<T>, j: nat)
    ensures j < |b| ==> |a| + j < |a + b| && (a + b)[|a| + j] == b[j]
  {
  }

  lemma TailAppend<T>(a: seq<T>, b: seq<T>)
    requires a != []
    ensures (a + b)[0] == a[0] && (a + b)[1..] == a[1..] + b
  {
  }

  lemma JoinCons<T>(parts: seq<seq<T>>, sep: seq<T>)
    requires |parts| >= 2
    ensures Join(parts, sep) == parts[0] + sep + Join(parts[1..], sep)
  {
  }

  /** `str::lines`: pieces between `\n`, without a trailing empty piece,
      and with one `\r` removed from the end of each line. */
  function Lines(s: string): (r: seq<string>)
    ensures s == [] ==> r == []
  {
    if s == [] then []
    else
      var pieces := Split(s, '\n');
      var kept := if pieces[|pieces| - 1] == [] then pieces[..|pieces| - 1] else pieces;
      seq(|kept|, i requires 0 <= i < |kept| => DropCr(kept[i]))
  }

  function DropCr(line: string): string {
    if line != [] && line[|line| - 1] == '\r' then line[..|line| - 1] else line
  }

  /** Number of occurrences of `c` in `s`. */
  function Count(s: string, c: char): nat {
    if s == [] then 0 else (if s[0] == c then 1 else 0) + Count(s[1..], c)
  }

  lemma CountAppend(a: string, b: string, c: char)
    ensures Count(a + b, c) == Count(a, c) + Count(b, c)
  {
    if a == [] {
      assert a + b == b;
    } else {
      assert (a + b)[1..] == a[1..] + b;
    }
  }

  lemma CountZeroIffAbsent(s: string, c: char)
    ensures Count(s, c) == 0 <==> c !in s
  {
  }

  /** ASCII case folding; the source folds with Unicode `to_lowercase`, which
      agrees on the ASCII letters the matched names are made of. */
  function AsciiLower(s: string): (r: string)
    ensures |r| == |s|
    ensures forall i :: 0 <= i < |s| ==> ('A' <= s[i] <= 'Z' <==> r[i] != s[i])
  {
    seq(|s|, i requires 0 <= i < |s| =>
      if 'A' <= s[i] <= 'Z' then (s[i] as int + 32) as char else s[i])
  }

  function Digit(d: nat): (c: char)
    requires d < 10
    ensures '0' <= c <= '9'
  {
    ('0' as int + d) as char
  }

  /** Decimal rendering of a natural number, as `Display for usize`. */
  function NatToString(n: nat): (r: string)
    ensures |r| >= 1
    ensures forall i :: 0 <= i < |r| ==> '0' <= r[i] <= '9'
    decreases n
  {
    if n < 10 then [Digit(n)] else NatToString(n / 10) + [Digit(n % 10)]
  }

  /** The value of a non-empty run of decimal digits. */
  function DigitsValue(s: string): nat
    requires |s| >= 1 && forall i :: 0 <= i < |s| ==> '0' <= s[i] <= '9'
    decreases |s|
  {
    var d: nat := s[|s| - 1] as int - '0' as int;
    if |s| == 1 then d else DigitsValue(s[..|s| - 1]) * 10 + d
  }

  /** Reading a rendered number back gives the number. */
  lemma {:induction false} NatToStringValue(n: nat)
    ensures DigitsValue(NatToString(n)) == n
    decreases n
  {
    if n >= 10 {
      NatToStringValue(n / 10);
      var s := NatToString(n);
      assert s[..|s| - 1] == NatToString(n / 10);
    }
  }

  /** Byte-wise (equivalently code-point-wise) ordering of `str`. */
  predicate Less(a: string, b: string)
    decreases |a|
  {
    if a == [] then b != []
    else if b == [] then false
    else if a[0] < b[0] then true
    else if a[0] > b[0] then false
    else Less(a[1..], b[1..])
  }

  lemma {:induction false} LessIrreflexive(a: string)
    ensures !Less(a, a)
    decreases |a|
  {
    if a != [] {
      LessIrreflexive(a[1..]);
    }
  }

  lemma {:induction false} LessTransitive(a: string, b: string, c: string)
    requires Less(a, b) && Less(b, c)
    ensures Less(a, c)
    decreases |a|
  {
    if a != [] && b != [] && c != [] && a[0] == b[0] && b[0] == c[0] {
      LessTransitive(a[1..], b[1..], c[1..]);
    }
  }

  lemma {:induction false} LessTotal(a: string, b: string)
    requires a != b
    ensures Less(a, b) || Less(b, a)
    decreases |a|
  {
    if a != [] && b != [] && a[0] == b[0] {
      assert a[1..] != b[1..];
      LessTotal(a[1..], b[1..]);
    }
  }

  /** Strictly increasing under `Less`, hence also free of duplicates. */
  predicate StrictlySorted(s: seq<string>) {
    forall i, j :: 0 <= i < j < |s| ==> Less(s[i], s[j])
  }

  predicate Distinct<T(==)>(s: seq<T>) {
    forall i, j :: 0 <= i < j < |s| ==> s[i] != s[j]
  }

  function Insert(x: string, s: seq<string>): (r: seq<string>)
    requires StrictlySorted(s) && x !in s
    ensures StrictlySorted(r)
    ensures multiset(r) == multiset(s) + multiset{x}
  {
    if s == [] then [x]
    else if Less(x, s[0]) then
      assert forall j :: 0 < j < |s| ==> Less(x, s[j]) by {
        forall j | 0 < j < |s| { LessTransitive(x, s[0], s[j]); }
      }
      [x] + s
    else
      assert x != s[0];
      LessTotal(x, s[0]);
      var tail := Insert(x, s[1..]);
      assert s == [s[0]] + s[1..];
      BelowAll(s[0], x, s[1..], tail);
      [s[0]] + tail
  }

  lemma BelowAll(h: string, x: string, rest: seq<string>, tail: seq<string>)
    requires Less(h, x)
    requires forall j :: 0 <= j < |rest| ==> Less(h, rest[j])
    requires multiset(tail) == multiset(rest) + multiset{x}
    ensures forall k :: 0 <= k < |tail| ==> Less(h, tail[k])
  {
    forall k | 0 <= k < |tail|
      ensures Less(h, tail[k])
    {
      assert tail[k] in multiset(tail);
      if tail[k] != x {
        assert tail[k] in multiset(rest);
        assert tail[k] in rest;
      }
    }
  }

  /** `sort_unstable` on keys that are known to be distinct. */
  function Sort(s: seq<string>): (r: seq<string>)
    requires Distinct(s)
    ensures StrictlySorted(r)
    ensures multiset(r) == multiset(s)
  {
    if s == [] then []
    else
      var rest := Sort(s[..|s| - 1]);
      assert s == s[..|s| - 1] + [s[|s| - 1]];
      assert s[|s| - 1] !in multiset(s[..|s| - 1]);
      Insert(s[|s| - 1], rest)
  }
}
