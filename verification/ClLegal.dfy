/** Which scripts the parser accepts, said of the whole script: how deep its loops are nested, and whether some NEXT or
    BREAK is outside them; and what its flag for "this `for` has a test" is left at. Source: pkg/cl/grammar.y,
    pkg/cl/gram.c. */
module ClLegal {
  import opened Arith
  import opened ClCode
  import ClCompiler

  /** How many loops are inside one another. */
  function Nesting(s: Stmt): (n: nat)
    decreases s, 1
  {
    match s
    case Seq(a, b) => Max(Nesting(a), Nesting(b))
    case If(_, a) => Nesting(a)
    case IfElse(_, a, b) => Max(Nesting(a), Nesting(b))
    case While(_, a) => 1 + Nesting(a)
    case For(_, _, _, a) => 1 + Nesting(a)
    case Switch(_, bs) => BlocksNesting(bs, |bs|)
    case _ => 0
  }

  /** The same for the first k blocks of a switch. */
  function BlocksNesting(bs: seq<Block>, k: nat): (n: nat)
    requires k <= |bs|
    decreases bs, 0, k
  {
    if k == 0 then 0
    else
      assert bs decreases to bs[k - 1];
      Max(BlocksNesting(bs, k - 1), Nesting(bs[k - 1].body))
  }

  /** A NEXT or BREAK is in no loop. */
  predicate Loose(s: Stmt)
    decreases s, 0
  {
    match s
    case Next => true
    case Break => true
    case Seq(a, b) => Loose(a) || Loose(b)
    case If(_, a) => Loose(a)
    case IfElse(_, a, b) => Loose(a) || Loose(b)
    case Switch(_, bs) => exists k :: 0 <= k < |bs| && Loose(bs[k].body)
    case _ => false
  }

  /** A script is accepted exactly when its loops are nested no deeper than MAX_LOOP and every NEXT and BREAK is in one
      of them. */
  lemma {:induction false} LegalIff(s: Stmt, depth: nat)
    requires depth <= MAX_LOOP
    ensures Legal(s, depth) <==> depth + Nesting(s) <= MAX_LOOP && (depth == 0 ==> !Loose(s))
    decreases s, 0
  {
    match s
    case Seq(a, b) => LegalIff(a, depth); LegalIff(b, depth);
    case If(_, a) => LegalIff(a, depth);
    case IfElse(_, a, b) => LegalIff(a, depth); LegalIff(b, depth);
    case While(_, a) => if depth < MAX_LOOP { LegalIff(a, depth + 1); }
    case For(_, _, _, a) => if depth < MAX_LOOP { LegalIff(a, depth + 1); }
    case Switch(_, bs) =>
      DeepestNesting(bs, |bs|);
      forall k | 0 <= k < |bs|
        ensures Legal(bs[k].body, depth) <==> depth + Nesting(bs[k].body) <= MAX_LOOP && (depth == 0 ==> !Loose(bs[k].body))
      {
        LegalIff(bs[k].body, depth);
      }
    case _ =>
  }

  lemma {:induction false} DeepestNesting(bs: seq<Block>, n: nat)
    requires n <= |bs|
    ensures forall k :: 0 <= k < n ==> Nesting(bs[k].body) <= BlocksNesting(bs, n)
    ensures n > 0 ==> exists k :: 0 <= k < n && Nesting(bs[k].body) == BlocksNesting(bs, n)
  {
    if n > 0 {
      DeepestNesting(bs, n - 1);
      assert Nesting(bs[n - 1].body) <= BlocksNesting(bs, n);
    }
  }

  // ---------------------------------------------------------------- the flag of the last `for`

  /** The `for` statements in the order of the text, each by whether it has a test. */
  function Fors(s: Stmt): seq<bool>
    decreases s, 1
  {
    match s
    case Seq(a, b) => Fors(a) + Fors(b)
    case If(_, a) => Fors(a)
    case IfElse(_, a, b) => Fors(a) + Fors(b)
    case While(_, a) => Fors(a)
    case For(_, u, _, a) => [u.Some?] + Fors(a)
    case Switch(_, bs) => BlocksFors(bs, |bs|)
    case _ => []
  }

  function BlocksFors(bs: seq<Block>, n: nat): seq<bool>
    requires n <= |bs|
    decreases bs, 0, n
  {
    if n == 0 then []
    else
      assert bs decreases to bs[n - 1];
      BlocksFors(bs, n - 1) + Fors(bs[n - 1].body)
  }

  function LastOr(s: seq<bool>, flag: bool): bool {
    if s == [] then flag else s[|s| - 1]
  }

  /** The flag is left at whether the last `for` of the text has a test, inside another one or not. */
  lemma {:induction false} FlagIsOfLast(s: Stmt, flag: bool)
    ensures ClCompiler.FlagAfter(s, flag) == LastOr(Fors(s), flag)
    decreases s, 1
  {
    match s
    case Seq(a, b) => FlagIsOfLast(a, flag); FlagIsOfLast(b, LastOr(Fors(a), flag));
    case If(_, a) => FlagIsOfLast(a, flag);
    case IfElse(_, a, b) => FlagIsOfLast(a, flag); FlagIsOfLast(b, LastOr(Fors(a), flag));
    case While(_, a) => FlagIsOfLast(a, flag);
    case For(_, u, _, a) => FlagIsOfLast(a, u.Some?);
    case Switch(_, bs) => BlocksFlagIsOfLast(bs, |bs|, flag);
    case _ =>
  }

  lemma {:induction false} BlocksFlagIsOfLast(bs: seq<Block>, n: nat, flag: bool)
    requires n <= |bs|
    ensures ClCompiler.BlocksFlag(bs, n, flag) == LastOr(BlocksFors(bs, n), flag)
    decreases bs, 0, n
  {
    if n > 0 {
      assert bs decreases to bs[n - 1];
      BlocksFlagIsOfLast(bs, n - 1, flag);
      FlagIsOfLast(bs[n - 1].body, LastOr(BlocksFors(bs, n - 1), flag));
    }
  }
}
