/** The ordered set of named arguments the driver's two attribute parsers
    collect (an `IndexSet`), and the loop both of them run to fill it from
    the `name = value` arguments of an attribute: a duplicate-free
    sequence in insertion order. The argument type and how one assignment
    is read are parameters, since each parser has its own. */
module NamedArgSet {
  import O = Outcome
  import Text
  import SynExpr
  import DNA = DemoNamedArgs
  import opened DriverProperty

  /** `IndexSet::insert`, keeping the set only: a value already present
      leaves it as it is. */
  function Insert<A(==)>(args: seq<A>, a: A): (r: seq<A>)
    ensures Text.Distinct(args) ==> Text.Distinct(r)
    ensures a in r && |r| <= |args| + 1
    ensures forall i :: 0 <= i < |args| ==> i < |r| && r[i] == args[i]
  {
    if a in args then args else args + [a]
  }

  /** One assignment `ident = value` read with `read`; the left side must
      be a single identifier. */
  function ReadAssign<A>(e: Expr, read: (string, Expr) -> O.Result<A, Panic>): (r: O.Result<A, Panic>)
    requires e.Assign?
    ensures !SynExpr.IsIdent(e.left) ==> r == O.Err(NotAPath(e.left))
    ensures SynExpr.IsIdent(e.left) ==> r == read(e.left.segments[0], e.right)
  {
    var ident :- ExprIdent(e.left);
    read(ident, e.right)
  }

  /** An argument that is not an assignment, or an assignment `read`
      accepts. */
  predicate Readable<A>(e: Expr, read: (string, Expr) -> O.Result<A, Panic>) {
    e.Assign? ==> ReadAssign(e, read).Ok?
  }

  /** The assignments that can be read, read, in order. */
  function NamedOf<A>(exprs: seq<Expr>, read: (string, Expr) -> O.Result<A, Panic>): (r: seq<A>)
    ensures |r| <= |exprs|
  {
    if exprs == [] then []
    else
      var head := if exprs[0].Assign? && ReadAssign(exprs[0], read).Ok? then [ReadAssign(exprs[0], read).value] else [];
      head + NamedOf(exprs[1..], read)
  }

  /** `parse_named_args`: each assignment is read and inserted, and
      inserting a value already present panics (`assert!(first)`); every
      other argument is kept as positional. `args` and `positional` are
      what the loop has collected so far. */
  function ParseNamedArgs<A(==)>(exprs: seq<Expr>, args: seq<A>, positional: seq<Expr>,
                                 read: (string, Expr) -> O.Result<A, Panic>): (r: O.Result<(seq<A>, seq<Expr>), Panic>)
    decreases |exprs|
  {
    if exprs == [] then O.Ok((args, positional))
    else if exprs[0].Assign? then
      var ident :- ExprIdent(exprs[0].left);
      var a :- read(ident, exprs[0].right);
      if a in args then O.Err(ArgExists(ident))
      else ParseNamedArgs(exprs[1..], args + [a], positional, read)
    else ParseNamedArgs(exprs[1..], args, positional + [exprs[0]], read)
  }

  /** Reading succeeds exactly when every assignment can be read and no
      value is read twice (nor was collected before); then the set is
      the collected values followed by the values read, in order, and the
      positional arguments are the other expressions, in order. */
  lemma ParseNamedArgsSpec<A>(exprs: seq<Expr>, args: seq<A>, positional: seq<Expr>,
                                  read: (string, Expr) -> O.Result<A, Panic>)
    requires Text.Distinct(args)
    ensures ParseNamedArgs(exprs, args, positional, read).Ok?
      <==> (forall i :: 0 <= i < |exprs| ==> Readable(exprs[i], read)) && Text.Distinct(args + NamedOf(exprs, read))
    ensures ParseNamedArgs(exprs, args, positional, read).Ok? ==>
      ParseNamedArgs(exprs, args, positional, read).value == (args + NamedOf(exprs, read), positional + DNA.Positional(exprs))
  {
    ParseNamedArgsOk(exprs, args, positional, read);
    if ParseNamedArgs(exprs, args, positional, read).Ok? {
      ParseNamedArgsValue(exprs, args, positional, read);
    }
  }

  lemma {:induction false} ParseNamedArgsOk<A>(exprs: seq<Expr>, args: seq<A>, positional: seq<Expr>,
                                               read: (string, Expr) -> O.Result<A, Panic>)
    requires Text.Distinct(args)
    ensures ParseNamedArgs(exprs, args, positional, read).Ok?
      <==> (forall i :: 0 <= i < |exprs| ==> Readable(exprs[i], read)) && Text.Distinct(args + NamedOf(exprs, read))
    decreases |exprs|
  {
    if exprs == [] {
      assert args + [] == args;
    } else {
      var e := exprs[0];
      var rest := exprs[1..];
      assert forall i :: 0 < i < |exprs| ==> exprs[i] == rest[i - 1];
      if e.Assign? {
        if ReadAssign(e, read).Ok? {
          var a := ReadAssign(e, read).value;
          var later := NamedOf(rest, read);
          assert NamedOf(exprs, read) == [a] + later;
          assert args + NamedOf(exprs, read) == (args + [a]) + later;
          if a in args {
            DistinctRepeat(args, a, later);
          } else {
            DistinctSnoc(args, a);
            ParseNamedArgsOk(rest, args + [a], positional, read);
          }
        }
      } else {
        assert NamedOf(exprs, read) == NamedOf(rest, read);
        ParseNamedArgsOk(rest, args, positional + [e], read);
      }
    }
  }

  lemma {:induction false} ParseNamedArgsValue<A>(exprs: seq<Expr>, args: seq<A>, positional: seq<Expr>,
                                                  read: (string, Expr) -> O.Result<A, Panic>)
    requires ParseNamedArgs(exprs, args, positional, read).Ok?
    ensures ParseNamedArgs(exprs, args, positional, read).value == (args + NamedOf(exprs, read), positional + DNA.Positional(exprs))
    decreases |exprs|
  {
    if exprs == [] {
      assert args + [] == args;
      assert positional + [] == positional;
    } else {
      var e := exprs[0];
      var rest := exprs[1..];
      if e.Assign? {
        var a := ReadAssign(e, read).value;
        assert DNA.Positional(exprs) == DNA.Positional(rest);
        assert NamedOf(exprs, read) == [a] + NamedOf(rest, read);
        assert args + NamedOf(exprs, read) == (args + [a]) + NamedOf(rest, read);
        ParseNamedArgsValue(rest, args + [a], positional, read);
      } else {
        assert DNA.Positional(exprs) == [e] + DNA.Positional(rest);
        assert NamedOf(exprs, read) == NamedOf(rest, read);
        assert positional + DNA.Positional(exprs) == (positional + [e]) + DNA.Positional(rest);
        ParseNamedArgsValue(rest, args, positional + [e], read);
      }
    }
  }

  lemma DistinctSnoc<A>(s: seq<A>, a: A)
    requires Text.Distinct(s) && a !in s
    ensures Text.Distinct(s + [a])
  {
  }

  lemma DistinctRepeat<A>(s: seq<A>, a: A, t: seq<A>)
    requires a in s
    ensures !Text.Distinct((s + [a]) + t)
  {
    var k :| 0 <= k < |s| && s[k] == a;
    assert ((s + [a]) + t)[k] == ((s + [a]) + t)[|s|];
  }

  /** Every value read from an argument list comes from one of its
      assignments. */
  lemma {:induction false} NamedOfFrom<A>(exprs: seq<Expr>, read: (string, Expr) -> O.Result<A, Panic>, k: nat)
    requires k < |NamedOf(exprs, read)|
    ensures exists i :: 0 <= i < |exprs| && exprs[i].Assign? && ReadAssign(exprs[i], read) == O.Ok(NamedOf(exprs, read)[k])
    decreases |exprs|
  {
    var rest := exprs[1..];
    if exprs[0].Assign? && ReadAssign(exprs[0], read).Ok? && k == 0 {
      assert ReadAssign(exprs[0], read) == O.Ok(NamedOf(exprs, read)[0]);
    } else {
      var d := if exprs[0].Assign? && ReadAssign(exprs[0], read).Ok? then 1 else 0;
      assert NamedOf(exprs, read)[k] == NamedOf(rest, read)[k - d];
      NamedOfFrom(rest, read, k - d);
      var i :| 0 <= i < |rest| && rest[i].Assign? && ReadAssign(rest[i], read) == O.Ok(NamedOf(rest, read)[k - d]);
      assert exprs[i + 1] == rest[i];
    }
  }

  /** Arguments that are not assignments are only collected as
      positional, whatever follows them. */
  lemma {:induction false} PositionalPrefix<A>(exprs: seq<Expr>, rest: seq<Expr>, args: seq<A>, positional: seq<Expr>,
                                                  read: (string, Expr) -> O.Result<A, Panic>)
    requires forall i :: 0 <= i < |exprs| ==> !exprs[i].Assign?
    ensures ParseNamedArgs(exprs + rest, args, positional, read) == ParseNamedArgs(rest, args, positional + exprs, read)
    decreases |exprs|
  {
    if exprs == [] {
      assert exprs + rest == rest;
      assert positional + exprs == positional;
    } else {
      assert (exprs + rest)[0] == exprs[0];
      assert (exprs + rest)[1..] == exprs[1..] + rest;
      assert (positional + [exprs[0]]) + exprs[1..] == positional + exprs;
      PositionalPrefix(exprs[1..], rest, args, positional + [exprs[0]], read);
    }
  }
}
