/** The back-patching compiler: the actions pkg/cl/grammar.y attaches to each statement, over the CL's single
    stack array, which holds code growing up from `pc` and the control stack growing down from `topcs`. */
module ClCompiler {
  import opened Arith
  import opened Wrappers
  import opened ClCode
  import opened Simulation
  import opened LaidLemmas

  /** Cells the control stack grows by, at most, while s is compiled. */
  function Depth(s: Stmt): nat
    decreases s, 1
  {
    match s
    case Seq(a, b) => Max(Depth(a), Depth(b))
    case If(_, a) => 1 + Depth(a)
    case IfElse(_, a, b) => 1 + Max(Depth(a), Depth(b))
    case While(_, a) => 2 + Depth(a)
    case For(_, _, _, a) => 4 + Depth(a)
    case Switch(_, bs) => 1 + BlocksDepth(bs, |bs|)
    case _ => 0
  }

  function BlocksDepth(bs: seq<Block>, n: nat): nat
    requires n <= |bs|
    decreases bs, 0, n
  {
    if n == 0 then 0
    else
      Max(BlocksDepth(bs, n - 1), 2 * n + Width(bs[n - 1]) + Depth(bs[n - 1].body))
  }

  /** The values of a CASE are stacked before the CASE is compiled. */
  function Width(b: Block): nat {
    if b.Case? then |b.values| else 0
  }

  /** for_expr after s has been compiled: it says whether the last `for` the parser saw has a test. */
  function FlagAfter(s: Stmt, flag: bool): bool
    decreases s, 1
  {
    match s
    case Seq(a, b) => FlagAfter(b, FlagAfter(a, flag))
    case If(_, a) => FlagAfter(a, flag)
    case IfElse(_, a, b) => FlagAfter(b, FlagAfter(a, flag))
    case While(_, a) => FlagAfter(a, flag)
    case For(_, u, _, a) => FlagAfter(a, u.Some?)
    case Switch(_, bs) => BlocksFlag(bs, |bs|, flag)
    case _ => flag
  }

  function BlocksFlag(bs: seq<Block>, n: nat, flag: bool): bool
    requires n <= |bs|
    decreases bs, 0, n
  {
    if n == 0 then flag
    else
      assert (bs decreases to bs[n - 1]) && (bs[n - 1] decreases to bs[n - 1].body);
      FlagAfter(bs[n - 1].body, BlocksFlag(bs, n - 1, flag))
  }

  /** Nothing inside the body of a `for` leaves for_expr at odds with that `for`. */
  predicate OwnFlag(s: Stmt)
    requires s.For?
  {
    FlagAfter(s.body, s.until.Some?) == s.until.Some?
  }

  predicate FlagsKept(s: Stmt)
    decreases s
  {
    match s
    case Seq(a, b) => FlagsKept(a) && FlagsKept(b)
    case If(_, a) => FlagsKept(a)
    case IfElse(_, a, b) => FlagsKept(a) && FlagsKept(b)
    case While(_, a) => FlagsKept(a)
    case For(_, _, _, a) => FlagsKept(a) && OwnFlag(s)
    case Switch(_, bs) => forall k :: 0 <= k < |bs| ==> FlagsKept(bs[k].body)
    case _ => true
  }

  /** A concrete loop nest the parser gets wrong: the inner `for` has no test, the outer one has. */
  lemma NestedForLosesTest(test: Code)
    ensures !FlagsKept(For([], Some(test), [], For([], None, [], Plain([]))))
    ensures FlagsKept(For([], Some(test), [], For([], Some(test), [], Plain([]))))
  {
  }

  /** Control-stack entries of the first n blocks, pushed from cell base downwards. */
  ghost predicate Entries(code: seq<int>, bs: seq<Block>, n: nat, p: nat, base: nat)
    requires n <= |bs| && 2 * n <= base <= |code|
  {
    forall k {:trigger ExitLoc(bs, k, p)} :: 0 <= k < n ==>
      code[base - 1 - 2 * k] == BlockLoc(bs, k, p) && code[base - 2 - 2 * k] == ExitLoc(bs, k, p)
  }

  /** What the end of a `for` does to the stack: pc and top are the registers before it, brk the loop's break cell.
      The cell it patches besides is the argument of whatever lies below the increment's address. */
  ghost predicate ForTail(c1: seq<int>, c2: seq<int>, pc: nat, top: nat, brk: int, flag: bool)
    requires pc + 3 <= top < |c1| - 1
  {
    var b := c1[top + 1];
    && |c2| == |c1|
    && (!(flag && pc - 2 <= b + 2 < pc + 3) ==> JumpAt(c2, pc, GOTO, c1[top]))
    && (brk > 0 && brk + 2 < |c2| ==> c2[brk + 2] == pc - brk)
    && (flag && 0 <= b < pc && !(brk > 0 && b == brk) ==> c2[b + 2] == pc - b)
    && forall i :: 0 <= i < |c1| && (i < pc || i >= top) && !(brk > 0 && i == brk + 2) && !(flag && i == b + 2)
         ==> c2[i] == c1[i]
  }

  /** What the end of a `while` does to the stack, b being the address of its BIFF and e that of its test. */
  ghost predicate WhileTail(c1: seq<int>, c2: seq<int>, pc: nat, b: int, e: int, brk: int) {
    && |c2| == |c1| && JumpAt(c2, pc, GOTO, e)
    && 0 <= b && b + 2 < |c2| && c2[b + 2] == pc - b
    && (brk > 0 ==> brk + 2 < |c2| && c2[brk + 2] == pc - brk)
    && forall i :: 0 <= i < |c1| && (i < pc || i >= pc + 3) && i != b + 2 && !(brk > 0 && i == brk + 2) ==> c2[i] == c1[i]
  }

  lemma WhileDone(c1: seq<int>, c2: seq<int>, s: Stmt, lo: nat, brk: int)
    requires s.While? && brk == BreakCell(0, s.body, BodyStart(s, lo)) && lo + Size(s) <= |c1|
    requires PlainAt(c1, lo, s.test) && InstrAt(c1, lo + |s.test|, BIFF, 3)
    requires Laid(c1, s.body, BodyStart(s, lo), Loop(lo, brk))
    requires WhileTail(c1, c2, lo + Size(s) - 3, lo + |s.test|, lo, brk)
    ensures WhileLaid(c2, s, lo) && SameOutside(c1, c2, lo, lo + Size(s), -1)
  {
    BreakCellBounds(0, s.body, BodyStart(s, lo));
    PlainKept(c1, c2, s.test, lo);
    BodyDone(c1, c2, s, lo, brk);
  }

  /** c1: the operand and the body of a block are compiled; c2: its GOTO too. */
  lemma BlockDone(c1: seq<int>, c2: seq<int>, b: Block, lo: nat, brk: int, l: Loop, top: int)
    requires BreakBefore(brk, lo) && l.brk == BreakCell(brk, b.body, lo + HeadSize(b))
    requires HeadAt(c1, lo, b) && Laid(c1, b.body, lo + HeadSize(b), l)
    requires SameOutside(c1, c2, lo + HeadSize(b) + Size(b.body), top, -1)
    requires InstrAt(c2, lo + HeadSize(b) + Size(b.body), GOTO, 3)
    ensures BlockAt(c2, b, lo, l)
  {
    BreakCellBounds(brk, b.body, lo + HeadSize(b));
    LaidKept(c1, c2, b.body, lo + HeadSize(b), l, l);
    HeadKept(c1, c2, lo, b);
  }

  /** c1: the statement after ELSE, whose GOTO is at g, is compiled; c2: that GOTO is patched. */
  lemma ElseDone(c1: seq<int>, c2: seq<int>, no: Stmt, g: nat, brk: int, l: Loop)
    requires BreakBefore(brk, g + 3) && l.brk == BreakCell(brk, no, g + 3) && Laid(c1, no, g + 3, l)
    requires SameOutside(c1, c2, 0, 0, g + 2)
    ensures Laid(c2, no, g + 3, l)
  {
    BreakCellBounds(brk, no, g + 3);
    LaidKept(c1, c2, no, g + 3, l, l);
  }

  /** The stack as setswitch finds it: the code of all blocks up to pc, their entries and the SWITCH's above top. */
  ghost predicate SwitchStacked(code: seq<int>, bs: seq<Block>, sw: nat, pc: nat, top: nat, l: Loop) {
    var base := top + 2 * |bs|;
    && |code| == STACKSIZ
    && pc == sw + 6 + BlocksSize(bs, |bs|) && pc + TableSize(bs) <= top && base < |code|
    && code[base] == sw && InstrAt(code, sw, SWITCH, 3) && InstrAt(code, sw + 3, GOTO, 3)
    && BlocksLaid(code, bs, |bs|, sw + 6, l) && Entries(code, bs, |bs|, sw + 6, base)
  }

  /** c1: the first expression of a `for` is compiled; c2: the test too; c3: the GOTO over the increment too. */
  lemma UntilMade(c1: seq<int>, c2: seq<int>, c3: seq<int>, init: Code, until: Option<Code>, lo: nat)
    requires var l1 := lo + |init|;
             var g := l1 + UntilSize(until);
             && PlainAt(c1, lo, init) && (exists top :: SameOutside(c1, c2, l1, top, -1))
             && (until.Some? ==> PlainAt(c2, l1, until.value) && JumpAt(c2, g - 3, BIFF, g))
             && (exists top :: SameOutside(c2, c3, g, top, -1))
    ensures PlainAt(c3, lo, init)
    ensures until.Some? ==>
              var g := lo + |init| + UntilSize(until);
              PlainAt(c3, lo + |init|, until.value) && JumpAt(c3, g - 3, BIFF, g)
  {
    PlainKept(c1, c3, init, lo);
    if until.Some? { PlainKept(c2, c3, until.value, lo + |init|); }
  }

  /** c1: the head of a `for` is compiled; c2: the body too. */
  lemma HeadStays(c1: seq<int>, c2: seq<int>, s: Stmt, lo: nat, top: nat)
    requires s.For? && ForHeadAt(c1, s.init, s.until, s.incr, lo, NextLoc(s, lo) - 3)
    requires SameOutside(c1, c2, BodyStart(s, lo), top, -1) && top + 1 < |c1|
    ensures ForHeadAt(c2, s.init, s.until, s.incr, lo, NextLoc(s, lo) - 3)
    ensures c2[top] == c1[top] && c2[top + 1] == c1[top + 1]
  {
    ForHeadKept(c1, c2, s.init, s.until, s.incr, lo, NextLoc(s, lo) - 3);
  }

  /** c1: the head of a `for` is compiled up to the GOTO over the increment; c2: the increment too. */
  lemma ForHeadMade(c1: seq<int>, c2: seq<int>, init: Code, until: Option<Code>, incr: Code, lo: nat, top: int)
    requires var g := lo + |init| + UntilSize(until);
             && PlainAt(c1, lo, init) && InstrAt(c1, g, GOTO, 3)
             && (until.Some? ==> PlainAt(c1, lo + |init|, until.value) && JumpAt(c1, g - 3, BIFF, g))
             && SameOutside(c1, c2, g + 2, top, -1) && c2[g + 2] == |incr| + 3
             && PlainAt(c2, g + 3, incr) && JumpAt(c2, g + 3 + |incr|, GOTO, lo + |init|)
    ensures ForHeadAt(c2, init, until, incr, lo, lo + |init| + UntilSize(until))
  {
    PlainKept(c1, c2, init, lo);
    if until.Some? { PlainKept(c1, c2, until.value, lo + |init|); }
  }

  /** c1: the statements of a script are compiled; c2: its END too. */
  lemma ProgramDone(c1: seq<int>, c2: seq<int>, s: Stmt, lo: nat)
    requires Laid(c1, s, lo, Loop(0, 0)) && SameOutside(c1, c2, lo + Size(s), lo + Size(s) + 2, -1)
    requires InstrAt(c2, lo + Size(s), END, 2) && |c2| == STACKSIZ
    ensures ProgramLaid(c2, s, lo)
  {
    LaidKept(c1, c2, s, lo, Loop(0, 0), Loop(0, 0));
  }

  /** c1: the selector is compiled; c2: the blocks too. */
  lemma BlocksStacked(c1: seq<int>, c2: seq<int>, s: Stmt, lo: nat, pc: nat, top: nat, l: Loop)
    requires s.Switch? && PlainAt(c1, lo, s.selector) && |c2| == STACKSIZ
    requires var bs, sw := s.blocks, lo + |s.selector|;
             var base := top + 2 * |bs|;
             && base < |c1| && c1[base] == sw && InstrAt(c1, sw, SWITCH, 3) && InstrAt(c1, sw + 3, GOTO, 3)
             && SameOutside(c1, c2, sw + 6, base, -1) && pc == sw + 6 + BlocksSize(bs, |bs|) && lo + Size(s) <= top
             && BlocksLaid(c2, bs, |bs|, sw + 6, l) && Entries(c2, bs, |bs|, sw + 6, base)
    ensures SwitchStacked(c2, s.blocks, lo + |s.selector|, pc, top, l) && PlainAt(c2, lo, s.selector)
  {
    PlainKept(c1, c2, s.selector, lo);
  }

  /** c1: the selector and the blocks are compiled; c2: setswitch has been at work. */
  lemma SwitchDone(c1: seq<int>, c2: seq<int>, s: Stmt, lo: nat, l: Loop)
    requires s.Switch? && PlainAt(c1, lo, s.selector)
    requires var bs, sw := s.blocks, lo + |s.selector|;
             var t := sw + 6 + BlocksSize(bs, |bs|);
             && SameOutside(c1, c2, sw, lo + Size(s), -1)
             && JumpAt(c2, sw, SWITCH, t + 3) && JumpAt(c2, sw + 3, GOTO, lo + Size(s))
             && BlocksLaid(c2, bs, |bs|, sw + 6, l) && ExitsTo(c2, bs, sw + 6, lo + Size(s)) && TableAt(c2, bs, sw, t)
    ensures SwitchLaid(c2, s, lo, l)
  {
    PlainKept(c1, c2, s.selector, lo);
  }

  lemma SwitchBreak(s: Stmt, lo: nat, brk: int)
    requires s.Switch? && BreakBefore(brk, lo)
    ensures var p := lo + |s.selector| + 6;
            var brk' := BlocksBreak(brk, s.blocks, |s.blocks|, p);
            && brk' == BreakCell(brk, s, lo)
            && (brk' <= 0 || brk' + 3 <= lo || FirstBreakIn(s.blocks, |s.blocks|, p) == Some(brk'))
  {
  }

  class Compiler {
    const stack: array<int>
    const nextdest: array<int>
    const brkdest: array<int>
    var pc: nat
    var topcs: nat
    var topos: int
    var nestlevel: nat
    var forExpr: bool

    ghost predicate Valid()
      reads this
    {
      && stack.Length == STACKSIZ && nextdest.Length == MAX_LOOP && brkdest.Length == MAX_LOOP
      && stack != nextdest && stack != brkdest && nextdest != brkdest
      && pc <= STACKSIZ && topcs <= STACKSIZ && -1 <= topos < topcs
      && nestlevel <= MAX_LOOP
    }

    constructor (bascode: nat, controlTop: nat, operandTop: int)
      requires bascode <= STACKSIZ && controlTop <= STACKSIZ && -1 <= operandTop < controlTop
      ensures Valid() && pc == bascode && topcs == controlTop && topos == operandTop && nestlevel == 0
      ensures fresh(stack) && fresh(nextdest) && fresh(brkdest)
    {
      stack, nextdest, brkdest := new int[STACKSIZ], new int[MAX_LOOP], new int[MAX_LOOP];
      pc, topcs, topos, nestlevel, forExpr := bascode, controlTop, operandTop, 0, false;
    }

    /** The loop the parser is in. */
    ghost function Current(): Loop
      requires Valid()
      reads this, nextdest, brkdest
    {
      if nestlevel == 0 then Loop(0, 0) else Loop(nextdest[nestlevel - 1], brkdest[nestlevel - 1])
    }

    /** The break cell, if there is one, is already compiled; no code of a loop body starts at 0. */
    ghost predicate InLoop()
      requires Valid()
      reads this, nextdest, brkdest
    {
      BreakBefore(Current().brk, pc) && (nestlevel > 0 ==> pc > 0)
    }

    /** There is room for `size` cells of code, for `depth` cells of control stack and for the slack `compile`
        insists on; the frame of the current task lies above topcs. */
    ghost predicate Room(size: nat, depth: nat)
      reads this
    {
      pc + size + depth + 20 <= topcs < STACKSIZ && topos + depth < topcs
    }

    /** Cells below the old pc and the control stack are as they were. */
    twostate predicate CellsKept()
      requires old(Valid()) && Valid()
      reads this, stack
    {
      SameOutside(old(stack[..]), stack[..], old(pc), old(topcs), -1)
    }

    twostate predicate LoopsKept()
      requires old(Valid()) && Valid()
      reads this, nextdest, brkdest
    {
      && nestlevel == old(nestlevel)
      && (forall i :: 0 <= i < nestlevel ==> nextdest[i] == old(nextdest[i]))
      && (forall i :: 0 <= i < nestlevel - 1 ==> brkdest[i] == old(brkdest[i]))
    }

    /** Cells below lo and the control stack are as they were, all but cell x. */
    twostate predicate KeptBut(lo: nat, x: int)
      requires old(Valid()) && Valid()
      reads this, stack
    {
      SameOutside(old(stack[..]), stack[..], lo, topcs, x)
    }

    // -------------------------------------------------------------- stack.c, compile.c

    method Push(v: int)
      requires Valid()
      modifies this`topcs, stack
      ensures Valid() && topcs == if old(topcs) - 1 > topos then old(topcs) - 1 else old(topcs)
      ensures topcs < old(topcs) ==> stack[topcs] == v
      ensures SameOutside(old(stack[..]), stack[..], topcs, old(topcs), -1)
    {
      if topcs - 1 > topos {
        topcs := topcs - 1;
        stack[topcs] := v;
      }
    }

    method Pop() returns (v: int)
      requires Valid()
      modifies this`topcs
      ensures Valid() && topcs == if old(topcs) < STACKSIZ then old(topcs) + 1 else old(topcs)
      ensures v == if old(topcs) < STACKSIZ then stack[old(topcs)] else -1
    {
      if topcs < STACKSIZ {
        v := stack[topcs];
        topcs := topcs + 1;
      } else {
        v := -1;
      }
    }

    /** PPUSH: push below the top element. */
    method PPush(v: int)
      requires Valid() && topcs < STACKSIZ && topos < topcs - 1
      modifies this`topcs, stack
      ensures Valid() && topcs == old(topcs) - 1
      ensures stack[topcs] == old(stack[topcs]) && stack[topcs + 1] == v
      ensures SameOutside(old(stack[..]), stack[..], topcs, topcs + 2, -1)
    {
      var q := Pop();
      Push(v);
      Push(q);
    }

    /** coderef(loc)->c_args = v. A location outside the stack is undefined in C; here nothing is written. */
    method SetArg(loc: int, v: int)
      requires Valid()
      modifies stack
      ensures SameOutside(old(stack[..]), stack[..], 0, 0, loc + 2)
      ensures 0 <= loc && loc + 2 < STACKSIZ ==> stack[loc + 2] == v
    {
      if 0 <= loc && loc + 2 < STACKSIZ { stack[loc + 2] := v; }
    }

    /** coderef(loc)->c_opcode. */
    method Opcode(loc: int) returns (op: int)
      requires Valid()
      ensures op == OpcodeAt(loc)
    {
      op := if 0 <= loc < STACKSIZ then stack[loc] else 0;
    }

    /** COMPILE: opcode, length, arguments; `extra` cells are only set aside. ERR (-1) when pc nears topcs. */
    method Compile(op: int, args: seq<int>, extra: nat) returns (loc: int)
      requires Valid() && pc + 2 + |args| + extra <= topcs
      modifies this`pc, stack
      ensures Valid()
      ensures old(pc) > topcs - 20 ==> loc == -1 && pc == old(pc)
      ensures old(pc) <= topcs - 20 ==>
                && loc == old(pc) && pc == loc + 2 + |args| + extra
                && InstrAt(stack[..], loc, op, 2 + |args| + extra)
                && (forall j :: 0 <= j < |args| ==> stack[loc + 2 + j] == args[j])
                && (|args| > 0 ==> stack[loc + 2] == args[0])
      ensures SameOutside(old(stack[..]), stack[..], old(pc), old(pc) + 2 + |args|, -1)
    {
      if pc > topcs - 20 { return -1; }
      loc := pc;
      stack[pc] := op;
      stack[pc + 1] := 2 + |args| + extra;
      for j := 0 to |args|
        invariant pc == loc && stack[loc] == op && stack[loc + 1] == 2 + |args| + extra
        invariant forall i :: 0 <= i < j ==> stack[loc + 2 + i] == args[i]
        invariant forall i :: 0 <= i < STACKSIZ && !(loc <= i < loc + 2 + j) ==> stack[i] == old(stack[i])
      {
        stack[loc + 2 + j] := args[j];
      }
      pc := pc + 2 + |args| + extra;
    }

    /** The parser emits straight-line code one instruction at a time. */
    method CompilePlain(c: Code)
      requires Valid() && Straight(c) && pc + |c| + 20 <= topcs
      modifies this`pc, stack
      ensures Valid() && pc == old(pc) + |c| && PlainAt(stack[..], old(pc), c)
      ensures SameOutside(old(stack[..]), stack[..], old(pc), pc, -1)
      decreases |c|
    {
      if c != [] {
        var n := c[1];
        var loc := Compile(c[0], c[2..n], 0);
        ghost var c1 := stack[..];
        assert forall j :: 2 <= j < n ==> c1[loc + j] == c[2..n][j - 2] == c[j];
        CompilePlain(c[n..]);
        forall j | 0 <= j < |c| ensures stack[loc + j] == c[j] {
          if j < n { assert stack[loc + j] == c1[loc + j]; } else { assert stack[loc + n + (j - n)] == c[n..][j - n]; }
        }
      }
    }

    // -------------------------------------------------------------- loops

    /** LOOPINCR; false when loops nest too deeply. */
    method LoopIncr() returns (ok: bool)
      requires Valid()
      modifies this`nestlevel, nextdest, brkdest
      ensures Valid() && ok == (old(nestlevel) < MAX_LOOP)
      ensures nestlevel == old(nestlevel) + if ok then 1 else 0
      ensures ok ==> Current() == Loop(pc, 0)
      ensures forall i :: 0 <= i < old(nestlevel) ==> nextdest[i] == old(nextdest[i]) && brkdest[i] == old(brkdest[i])
    {
      if nestlevel >= MAX_LOOP { return false; }
      brkdest[nestlevel] := 0;
      nextdest[nestlevel] := pc;
      nestlevel := nestlevel + 1;
      ok := true;
    }

    /** LOOPDECR: the first BREAK of the loop, if any, now branches to pc. */
    method LoopDecr()
      requires Valid() && nestlevel > 0 && 0 <= Current().brk && Current().brk + 3 <= STACKSIZ
      modifies this`nestlevel, stack
      ensures Valid() && nestlevel == old(nestlevel) - 1
      ensures var brk := old(Current().brk);
              && (brk > 0 ==> stack[brk + 2] == pc - brk - 3)
              && SameOutside(old(stack[..]), stack[..], 0, 0, if brk > 0 then brk + 2 else -1)
    {
      nestlevel := nestlevel - 1;
      var p := brkdest[nestlevel];
      if p != 0 { SetArg(p, pc - p - 3); }
    }

    // -------------------------------------------------------------- statements

    /** Compiles s by back-patching. It succeeds exactly when NEXT and BREAK are inside loops and loops do not
        nest too deeply; then the cells from the old pc on hold the code of s, every other code cell and the
        control stack are as before, and the break cell of the enclosing loop is up to date. */
    method CompileStmt(s: Stmt) returns (ok: bool)
      requires Valid() && InLoop() && Room(Size(s), Depth(s)) && WellFormed(s) && FlagsKept(s)
      modifies this`pc, this`topcs, this`nestlevel, this`forExpr, stack, nextdest, brkdest
      ensures Valid() && ok == Legal(s, old(nestlevel))
      ensures ok ==> pc == old(pc) + Size(s) && topcs == old(topcs) && CellsKept() && LoopsKept()
      ensures ok ==> Laid(stack[..], s, old(pc), Current())
      ensures ok ==> Current().brk == BreakCell(old(Current().brk), s, old(pc))
      ensures ok ==> forExpr == FlagAfter(s, old(forExpr))
      decreases s, 2
    {
      match s
      case Plain(c) => CompilePlain(c); ok := true;
      case Seq(_, _) => ok := CompileSeq(s);
      case If(_, _) => ok := CompileIf(s);
      case IfElse(_, _, _) => ok := CompileIfElse(s);
      case While(_, _) => ok := CompileWhile(s);
      case For(_, _, _, _) => ok := CompileFor(s);
      case Switch(_, _) => ok := CompileSwitch(s);
      case Next => ok := CompileNext();
      case Break => ok := CompileBreak();
      case Return => var loc := Compile(END, [], 0); ok := true;
    }

    method CompileNext() returns (ok: bool)
      requires Valid() && Room(3, 0)
      modifies this`pc, stack
      ensures Valid() && ok == (nestlevel > 0)
      ensures ok ==> pc == old(pc) + 3 && CellsKept() && JumpAt(stack[..], old(pc), GOTO, Current().next)
    {
      ok := nestlevel > 0;
      if ok { var loc := Compile(GOTO, [nextdest[nestlevel - 1] - pc - 3], 0); }
    }

    /** The first BREAK of a loop is the GOTO every later BREAK of that loop branches to. */
    method CompileBreak() returns (ok: bool)
      requires Valid() && InLoop() && Room(3, 0)
      modifies this`pc, stack, brkdest
      ensures Valid() && ok == (nestlevel > 0)
      ensures ok ==> pc == old(pc) + 3 && CellsKept() && LoopsKept() && Laid(stack[..], Break, old(pc), Current())
      ensures ok ==> Current().brk == BreakCell(old(Current().brk), Break, old(pc))
    {
      ok := nestlevel > 0;
      if ok {
        var dest := brkdest[nestlevel - 1];
        if dest != 0 {
          var loc := Compile(GOTO, [dest - pc - 3], 0);
        } else {
          brkdest[nestlevel - 1] := pc;
          var loc := Compile(GOTO, [0], 0);
        }
      }
    }

    method CompileSeq(s: Stmt) returns (ok: bool)
      requires s.Seq? && Valid() && InLoop() && Room(Size(s), Depth(s)) && WellFormed(s) && FlagsKept(s)
      modifies this`pc, this`topcs, this`nestlevel, this`forExpr, stack, nextdest, brkdest
      ensures Valid() && ok == Legal(s, old(nestlevel))
      ensures ok ==> pc == old(pc) + Size(s) && topcs == old(topcs) && CellsKept() && LoopsKept()
      ensures ok ==> SeqLaid(stack[..], s, old(pc), Current())
      ensures ok ==> Current().brk == BreakCell(old(Current().brk), s, old(pc))
      ensures ok ==> forExpr == FlagAfter(s, old(forExpr))
      decreases s, 1
    {
      ghost var lo, brk := pc, Current().brk;
      ok := CompileStmt(s.first);
      if !ok { return; }
      NoBreakAtTop(s.first, lo, nestlevel);
      BreakCellBounds(brk, s.first, lo);
      ok := CompileSecond(s, lo, brk);
    }

    /** The second of two statements, the first having been compiled at lo; brk was the break cell before it. */
    method CompileSecond(s: Stmt, ghost lo: nat, ghost brk: int) returns (ok: bool)
      requires s.Seq? && Valid() && InLoop() && Room(Size(s.second), Depth(s.second))
      requires WellFormed(s.second) && FlagsKept(s.second)
      requires pc == lo + Size(s.first) && Laid(stack[..], s.first, lo, Current())
      requires BreakBefore(brk, lo) && (lo == 0 ==> FirstBreak(s.first, lo) == None)
      requires Current().brk == BreakCell(brk, s.first, lo)
      modifies this`pc, this`topcs, this`nestlevel, this`forExpr, stack, nextdest, brkdest
      ensures Valid() && ok == Legal(s.second, old(nestlevel))
      ensures ok ==> pc == lo + Size(s) && topcs == old(topcs) && CellsKept() && LoopsKept()
      ensures ok ==> SeqLaid(stack[..], s, lo, Current())
      ensures ok ==> Current().brk == BreakCell(brk, s, lo)
      ensures ok ==> forExpr == FlagAfter(s.second, old(forExpr))
      decreases s, 0
    {
      ghost var c1, l1 := stack[..], Current();
      ok := CompileStmt(s.second);
      if !ok { return; }
      SeqBreak(s, lo, brk);
      SeqDone(c1, stack[..], s, lo, brk, l1, Current(), topcs);
    }

    /** Pops the address of a branch and sets its destination to the current pc. */
    method PatchTop()
      requires Valid() && topcs < STACKSIZ && 0 <= stack[topcs] && stack[topcs] + 3 <= STACKSIZ
      modifies this`topcs, stack
      ensures Valid() && topcs == old(topcs) + 1
      ensures var b := old(stack[topcs]);
              stack[b + 2] == pc - b - 3 && SameOutside(old(stack[..]), stack[..], 0, 0, b + 2)
    {
      var addr := Pop();
      SetArg(addr, pc - addr - 3);
    }

    /** if_stat: the test and the branch taken when it holds; the address of the BIFF stays on the control stack. */
    method CompileIfStat(test: Code, yes: Stmt) returns (ok: bool)
      requires Valid() && BreakBefore(Current().brk, pc) && Room(|test| + 3 + Size(yes), 1 + Depth(yes))
      requires Straight(test) && WellFormed(yes) && FlagsKept(yes)
      modifies this`pc, this`topcs, this`nestlevel, this`forExpr, stack, nextdest, brkdest
      ensures Valid() && ok == Legal(yes, old(nestlevel))
      ensures ok ==> pc == old(pc) + |test| + 3 + Size(yes) && CellsKept() && LoopsKept()
      ensures ok ==> topcs == old(topcs) - 1 && stack[topcs] == old(pc) + |test|
      ensures ok ==> PlainAt(stack[..], old(pc), test) && InstrAt(stack[..], old(pc) + |test|, BIFF, 3)
      ensures ok ==> Laid(stack[..], yes, old(pc) + |test| + 3, Current())
      ensures ok ==> Current().brk == BreakCell(old(Current().brk), yes, old(pc) + |test| + 3)
      ensures ok ==> forExpr == FlagAfter(yes, old(forExpr))
      decreases yes, 3
    {
      ghost var lo := pc;
      CompileTest(test);
      ghost var c0 := stack[..];
      ok := CompileStmt(yes);
      if ok { PlainKept(c0, stack[..], test, lo); }
    }

    /** A test and its BIFF, whose address goes on the control stack. */
    method CompileTest(test: Code)
      requires Valid() && Straight(test) && Room(|test| + 3, 1)
      modifies this`pc, this`topcs, stack
      ensures Valid() && pc == old(pc) + |test| + 3 && topcs == old(topcs) - 1 && stack[topcs] == pc - 3
      ensures PlainAt(stack[..], old(pc), test) && InstrAt(stack[..], pc - 3, BIFF, 3) && CellsKept()
    {
      CompilePlain(test);
      ghost var c0 := stack[..];
      var biffaddr := Compile(BIFF, [0], 0);
      Push(biffaddr);
      PlainKept(c0, stack[..], test, old(pc));
    }

    method CompileIf(s: Stmt) returns (ok: bool)
      requires s.If? && Valid() && InLoop() && Room(Size(s), Depth(s)) && WellFormed(s) && FlagsKept(s)
      modifies this`pc, this`topcs, this`nestlevel, this`forExpr, stack, nextdest, brkdest
      ensures Valid() && ok == Legal(s, old(nestlevel))
      ensures ok ==> pc == old(pc) + Size(s) && topcs == old(topcs) && CellsKept() && LoopsKept()
      ensures ok ==> IfLaid(stack[..], s, old(pc), Current())
      ensures ok ==> Current().brk == BreakCell(old(Current().brk), s, old(pc))
      ensures ok ==> forExpr == FlagAfter(s, old(forExpr))
      decreases s, 1
    {
      ghost var lo, brk := pc, Current().brk;
      ok := CompileIfStat(s.test, s.yes);
      if !ok { return; }
      ghost var c1 := stack[..];
      PatchTop();
      IfDone(c1, c1, stack[..], s, lo, brk, Current());
    }

    /** ELSE: the branch taken ends with a GOTO, and the BIFF branches past it. */
    method CompileElse()
      requires Valid() && pc + 3 <= topcs - 20 && topcs < STACKSIZ && 0 <= stack[topcs] && stack[topcs] + 3 <= pc
      modifies this`pc, this`topcs, stack
      ensures Valid() && topcs == old(topcs) && pc == old(pc) + 3
      ensures stack[topcs] == old(pc) && InstrAt(stack[..], old(pc), GOTO, 3)
      ensures var b := old(stack[topcs]);
              && stack[b + 2] == pc - b - 3
              && forall i :: 0 <= i < STACKSIZ && i != b + 2 && i != topcs && !(old(pc) <= i < pc) ==>
                  stack[..][i] == old(stack[..])[i]
    {
      var biffaddr := Pop();
      var gotoaddr := Compile(GOTO, [0], 0);
      Push(gotoaddr);
      SetArg(biffaddr, pc - biffaddr - 3);
    }

    /** ELSE and its statement, the address of the BIFF being on the control stack. */
    method CompileElsePart(no: Stmt) returns (ok: bool)
      requires Valid() && InLoop() && Room(3 + Size(no), Depth(no)) && WellFormed(no) && FlagsKept(no)
      requires topcs < STACKSIZ && 0 <= stack[topcs] && stack[topcs] + 3 <= pc
      modifies this`pc, this`topcs, this`nestlevel, this`forExpr, stack, nextdest, brkdest
      ensures Valid() && ok == Legal(no, old(nestlevel))
      ensures ok ==> pc == old(pc) + 3 + Size(no) && topcs == old(topcs) + 1 && LoopsKept()
      ensures ok ==> JumpAt(stack[..], old(pc), GOTO, pc) && Laid(stack[..], no, old(pc) + 3, Current())
      ensures ok ==> stack[old(stack[topcs]) + 2] == old(pc) - old(stack[topcs])
      ensures ok ==> KeptBut(old(pc), old(stack[topcs]) + 2)
      ensures ok ==> Current().brk == BreakCell(old(Current().brk), no, old(pc) + 3)
      ensures ok ==> forExpr == FlagAfter(no, old(forExpr))
      decreases no, 3
    {
      ghost var g := pc;
      CompileElse();
      ok := CompileElseStmt(no, g);
    }

    /** The statement after ELSE, the address g of the GOTO over it being on the control stack. */
    method CompileElseStmt(no: Stmt, ghost g: nat) returns (ok: bool)
      requires Valid() && InLoop() && Room(Size(no), Depth(no)) && WellFormed(no) && FlagsKept(no)
      requires topcs < STACKSIZ && stack[topcs] == g && pc == g + 3 && InstrAt(stack[..], g, GOTO, 3)
      requires BreakBefore(Current().brk, g)
      modifies this`pc, this`topcs, this`nestlevel, this`forExpr, stack, nextdest, brkdest
      ensures Valid() && ok == Legal(no, old(nestlevel))
      ensures ok ==> pc == g + 3 + Size(no) && topcs == old(topcs) + 1 && LoopsKept()
      ensures ok ==> JumpAt(stack[..], g, GOTO, pc) && Laid(stack[..], no, g + 3, Current())
      ensures ok ==> SameOutside(old(stack[..]), stack[..], g, topcs, -1)
      ensures ok ==> Current().brk == BreakCell(old(Current().brk), no, g + 3)
      ensures ok ==> forExpr == FlagAfter(no, old(forExpr))
      decreases no, 3, 0
    {
      ghost var brk := Current().brk;
      ok := CompileStmt(no);
      if !ok { return; }
      PatchElse(no, g, brk);
    }

    /** The GOTO over the statement after ELSE gets its destination. */
    method PatchElse(ghost no: Stmt, ghost g: nat, ghost brk: int)
      requires Valid() && topcs < STACKSIZ && stack[topcs] == g && g + 3 <= pc == g + 3 + Size(no)
      requires InstrAt(stack[..], g, GOTO, 3) && Laid(stack[..], no, g + 3, Current())
      requires BreakBefore(brk, g + 3) && Current().brk == BreakCell(brk, no, g + 3)
      modifies this`topcs, stack
      ensures Valid() && topcs == old(topcs) + 1 && SameOutside(old(stack[..]), stack[..], 0, 0, g + 2)
      ensures JumpAt(stack[..], g, GOTO, pc) && Laid(stack[..], no, g + 3, Current())
    {
      ghost var c := stack[..];
      PatchTop();
      ElseDone(c, stack[..], no, g, brk, Current());
    }

    /** ELSE and its statement, after the if_stat of s has been compiled at lo; brk was the break cell before it. */
    method CompileElseBranch(s: Stmt, ghost lo: nat, ghost brk: int) returns (ok: bool)
      requires s.IfElse? && Valid() && InLoop() && Room(3 + Size(s.no), Depth(s.no)) && WellFormed(s.no)
          && FlagsKept(s.no)
      requires topcs < STACKSIZ && stack[topcs] == lo + |s.test| && pc == lo + |s.test| + 3 + Size(s.yes)
      requires PlainAt(stack[..], lo, s.test) && InstrAt(stack[..], lo + |s.test|, BIFF, 3)
      requires Laid(stack[..], s.yes, lo + |s.test| + 3, Current())
      requires BreakBefore(brk, lo) && Current().brk == BreakCell(brk, s.yes, lo + |s.test| + 3)
      modifies this`pc, this`topcs, this`nestlevel, this`forExpr, stack, nextdest, brkdest
      ensures Valid() && ok == Legal(s.no, old(nestlevel))
      ensures ok ==> pc == lo + Size(s) && topcs == old(topcs) + 1 && LoopsKept() && KeptBut(lo, -1)
      ensures ok ==> IfElseLaid(stack[..], s, lo, Current())
      ensures ok ==> Current().brk == BreakCell(brk, s, lo)
      ensures ok ==> forExpr == FlagAfter(s.no, old(forExpr))
      decreases s, 0
    {
      ghost var c1, l1 := stack[..], Current();
      ok := CompileElsePart(s.no);
      if !ok { return; }
      IfElseBreak(s, lo, brk);
      IfElseDone(c1, stack[..], s, lo, brk, l1, Current());
    }

    method CompileIfElse(s: Stmt) returns (ok: bool)
      requires s.IfElse? && Valid() && InLoop() && Room(Size(s), Depth(s)) && WellFormed(s) && FlagsKept(s)
      modifies this`pc, this`topcs, this`nestlevel, this`forExpr, stack, nextdest, brkdest
      ensures Valid() && ok == Legal(s, old(nestlevel))
      ensures ok ==> pc == old(pc) + Size(s) && topcs == old(topcs) && CellsKept() && LoopsKept()
      ensures ok ==> IfElseLaid(stack[..], s, old(pc), Current())
      ensures ok ==> Current().brk == BreakCell(old(Current().brk), s, old(pc))
      ensures ok ==> forExpr == FlagAfter(s, old(forExpr))
      decreases s, 1
    {
      ghost var lo, brk := pc, Current().brk;
      ok := CompileIfPart(s);
      if !ok { return; }
      ok := CompileElseBranch(s, lo, brk);
    }

    /** Its if_stat. */
    method CompileIfPart(s: Stmt) returns (ok: bool)
      requires s.IfElse? && Valid() && InLoop() && Room(Size(s), Depth(s)) && WellFormed(s) && FlagsKept(s)
      modifies this`pc, this`topcs, this`nestlevel, this`forExpr, stack, nextdest, brkdest
      ensures Valid() && ok == Legal(s.yes, old(nestlevel))
      ensures ok ==> InLoop() && Room(3 + Size(s.no), Depth(s.no)) && CellsKept() && LoopsKept()
      ensures ok ==> pc == old(pc) + |s.test| + 3 + Size(s.yes) && topcs == old(topcs) - 1
      ensures ok ==> stack[topcs] == old(pc) + |s.test|
      ensures ok ==> PlainAt(stack[..], old(pc), s.test) && InstrAt(stack[..], old(pc) + |s.test|, BIFF, 3)
      ensures ok ==> Laid(stack[..], s.yes, old(pc) + |s.test| + 3, Current())
      ensures ok ==> Current().brk == BreakCell(old(Current().brk), s.yes, old(pc) + |s.test| + 3)
      ensures ok ==> forExpr == FlagAfter(s.yes, old(forExpr))
      decreases s, 0
    {
      ghost var brk := Current().brk;
      BreakCellBounds(brk, s.yes, pc + |s.test| + 3);
      ok := CompileIfStat(s.test, s.yes);
    }

    /** The end of a WHILE: back to the test, the BIFF branches past the loop, and so does the loop's first BREAK. */
    method CompileWhileEnd(ghost s: Stmt, ghost lo: nat)
      requires s.While? && Valid() && pc + 3 <= topcs - 20 && topcs + 1 < STACKSIZ
      requires stack[topcs] == lo + |s.test| && stack[topcs + 1] == lo && pc == BodyStart(s, lo) + Size(s.body)
      requires nestlevel > 0 && Current() == Loop(lo, BreakCell(0, s.body, BodyStart(s, lo)))
      requires PlainAt(stack[..], lo, s.test) && InstrAt(stack[..], lo + |s.test|, BIFF, 3)
      requires Laid(stack[..], s.body, BodyStart(s, lo), Current())
      modifies this`pc, this`topcs, this`nestlevel, stack
      ensures Valid() && topcs == old(topcs) + 2 && pc == old(pc) + 3 && nestlevel == old(nestlevel) - 1
      ensures WhileLaid(stack[..], s, lo)
      ensures SameOutside(old(stack[..]), stack[..], lo, pc, -1)
    {
      ghost var c1, brk := stack[..], Current().brk;
      BreakCellBounds(0, s.body, BodyStart(s, lo));
      CompileWhileTail();
      WhileDone(c1, stack[..], s, lo, brk);
    }

    method CompileWhileTail()
      requires Valid() && pc + 3 <= topcs - 20 && topcs + 1 < STACKSIZ && 0 <= stack[topcs] && stack[topcs] + 3 <= pc
      requires nestlevel > 0 && BreakBefore(Current().brk, pc) && (Current().brk > 0 ==> Current().brk != stack[topcs])
      modifies this`pc, this`topcs, this`nestlevel, stack
      ensures Valid() && topcs == old(topcs) + 2 && pc == old(pc) + 3 && nestlevel == old(nestlevel) - 1
      ensures WhileTail(old(stack[..]), stack[..], old(pc), old(stack[topcs]), old(stack[topcs + 1]), old(Current().brk))
    {
      var biffaddr := Pop();
      var exprloc := Pop();
      var loc := Compile(GOTO, [exprloc - pc - 3], 0);
      SetArg(biffaddr, pc - biffaddr - 3);
      LoopDecr();
    }

    method CompileWhile(s: Stmt) returns (ok: bool)
      requires s.While? && Valid() && InLoop() && Room(Size(s), Depth(s)) && WellFormed(s) && FlagsKept(s)
      modifies this`pc, this`topcs, this`nestlevel, this`forExpr, stack, nextdest, brkdest
      ensures Valid() && ok == Legal(s, old(nestlevel))
      ensures ok ==> pc == old(pc) + Size(s) && topcs == old(topcs) && CellsKept() && LoopsKept()
      ensures ok ==> WhileLaid(stack[..], s, old(pc))
      ensures ok ==> Current().brk == BreakCell(old(Current().brk), s, old(pc))
      ensures ok ==> forExpr == FlagAfter(s, old(forExpr))
      decreases s, 1
    {
      ghost var lo := pc;
      ok := CompileWhileBody(s);
      if !ok { return; }
      CompileWhileEnd(s, lo);
    }

    /** A WHILE up to the end of its body. */
    method CompileWhileBody(s: Stmt) returns (ok: bool)
      requires s.While? && Valid() && Room(Size(s), Depth(s)) && WellFormed(s) && FlagsKept(s)
      modifies this`pc, this`topcs, this`nestlevel, this`forExpr, stack, nextdest, brkdest
      ensures Valid() && ok == Legal(s, old(nestlevel))
      ensures ok ==> pc == BodyStart(s, old(pc)) + Size(s.body) && CellsKept()
      ensures ok ==> topcs == old(topcs) - 2 && stack[topcs] == old(pc) + |s.test| && stack[topcs + 1] == old(pc)
      ensures ok ==> nestlevel == old(nestlevel) + 1
      ensures ok ==> Current() == Loop(old(pc), BreakCell(0, s.body, BodyStart(s, old(pc))))
      ensures ok ==> PlainAt(stack[..], old(pc), s.test) && InstrAt(stack[..], old(pc) + |s.test|, BIFF, 3)
      ensures ok ==> Laid(stack[..], s.body, BodyStart(s, old(pc)), Current())
      ensures ok ==> forall i :: 0 <= i < old(nestlevel) ==>
          nextdest[i] == old(nextdest[i]) && brkdest[i] == old(brkdest[i])
      ensures ok ==> forExpr == FlagAfter(s.body, old(forExpr))
      decreases s, 0
    {
      ok := CompileWhileTop();
      if !ok { return; }
      ok := CompileIfStat(s.test, s.body);
    }

    /** The start of a WHILE: NEXT goes to the test, and so will the end of the body. */
    method CompileWhileTop() returns (ok: bool)
      requires Valid() && topos < topcs - 1
      modifies this`topcs, this`nestlevel, stack, nextdest, brkdest
      ensures Valid() && ok == (old(nestlevel) < MAX_LOOP)
      ensures ok ==> nestlevel == old(nestlevel) + 1 && Current() == Loop(pc, 0)
      ensures ok ==> topcs == old(topcs) - 1 && stack[topcs] == pc && KeptBut(topcs, topcs)
      ensures forall i :: 0 <= i < old(nestlevel) ==> nextdest[i] == old(nextdest[i]) && brkdest[i] == old(brkdest[i])
    {
      Push(pc);
      ok := LoopIncr();
    }

    // -------------------------------------------------------------- for

    /** The head of a FOR up to the GOTO that skips the increment. The control stack receives, from the top down,
        the address of the test, of that GOTO, of the increment, and of the BIFF if there is a test. */
    method CompileForTest(init: Code, until: Option<Code>)
      requires Valid() && Straight(init) && (until.Some? ==> Straight(until.value))
      requires Room(|init| + UntilSize(until) + 3, 4)
      modifies this`pc, this`topcs, this`forExpr, stack
      ensures Valid() && forExpr == until.Some?
      ensures pc == old(pc) + |init| + UntilSize(until) + 3 && topcs == old(topcs) - if until.Some? then 4 else 3
      ensures stack[topcs] == old(pc) + |init| && stack[topcs + 1] == pc - 3 && stack[topcs + 2] == pc
      ensures until.Some? ==> stack[topcs + 3] == pc - 6
      ensures PlainAt(stack[..], old(pc), init) && InstrAt(stack[..], pc - 3, GOTO, 3)
      ensures until.Some? ==>
                PlainAt(stack[..], old(pc) + |init|, until.value) && JumpAt(stack[..], pc - 6, BIFF, pc - 3)
      ensures CellsKept()
    {
      ghost var lo := pc;
      CompilePlain(init);
      ghost var c1 := stack[..];
      CompileUntil(until);
      ghost var c2 := stack[..];
      CompileSkip();
      UntilMade(c1, c2, stack[..], init, until, lo);
    }

    /** The address of the test, and the test if there is one, with its BIFF. */
    method CompileUntil(until: Option<Code>)
      requires Valid() && (until.Some? ==> Straight(until.value)) && Room(UntilSize(until), 2)
      modifies this`pc, this`topcs, this`forExpr, stack
      ensures Valid() && forExpr == until.Some? && pc == old(pc) + UntilSize(until) && CellsKept()
      ensures topcs == old(topcs) - (if until.Some? then 2 else 1) && stack[topcs] == old(pc)
      ensures until.Some? ==>
                && stack[topcs + 1] == pc - 3 && PlainAt(stack[..], old(pc), until.value)
                && JumpAt(stack[..], pc - 3, BIFF, pc)
    {
      Push(pc);
      forExpr := until.Some?;
      if until.Some? {
        CompilePlain(until.value);
        ghost var c := stack[..];
        var biffaddr := Compile(BIFF, [0], 0);
        PPush(biffaddr);
        PlainKept(c, stack[..], until.value, old(pc));
      }
    }

    /** The GOTO that skips the increment, below the address of the test. */
    method CompileSkip()
      requires Valid() && Room(3, 2)
      modifies this`pc, this`topcs, stack
      ensures Valid() && pc == old(pc) + 3 && topcs == old(topcs) - 2 && InstrAt(stack[..], old(pc), GOTO, 3)
      ensures stack[topcs] == old(stack[topcs]) && stack[topcs + 1] == old(pc) && stack[topcs + 2] == pc
      ensures SameOutside(old(stack[..]), stack[..], old(pc), old(topcs) + 1, -1)
    {
      PPush(pc + 3);
      var gotoaddr := Compile(GOTO, [0], 0);
      PPush(gotoaddr);
    }

    /** The increment, the GOTO back to the test, and the destination of the GOTO that skipped them. */
    method CompileForIncr(incr: Code) returns (ok: bool)
      requires Valid() && Straight(incr) && Room(|incr| + 3, 0) && topcs + 2 < STACKSIZ
      requires stack[topcs + 1] == pc - 3 && 3 <= pc
      modifies this`pc, this`topcs, this`nestlevel, stack, nextdest, brkdest
      ensures Valid() && ok == (old(nestlevel) < MAX_LOOP)
      ensures ok ==> nestlevel == old(nestlevel) + 1 && Current() == Loop(old(pc), 0)
      ensures ok ==> pc == old(pc) + |incr| + 3 && topcs == old(topcs) + 2
      ensures ok ==> PlainAt(stack[..], old(pc), incr) && JumpAt(stack[..], pc - 3, GOTO, old(stack[topcs]))
      ensures ok ==> stack[old(pc) - 1] == pc - old(pc) && KeptBut(old(pc) - 1, -1)
      ensures forall i :: 0 <= i < old(nestlevel) ==> nextdest[i] == old(nextdest[i]) && brkdest[i] == old(brkdest[i])
    {
      ok := LoopIncr();
      if !ok { return; }
      CompilePlain(incr);
      ghost var c0 := stack[..];
      var stmtaddr := Pop();
      var loc := Compile(GOTO, [stmtaddr - pc - 3], 0);
      PatchTop();
      PlainKept(c0, stack[..], incr, old(pc));
    }

    method CompileForHead(s: Stmt) returns (ok: bool)
      requires s.For? && Valid() && Room(Size(s), Depth(s)) && WellFormed(s)
      modifies this`pc, this`topcs, this`nestlevel, this`forExpr, stack, nextdest, brkdest
      ensures Valid() && ok == (old(nestlevel) < MAX_LOOP)
      ensures ok ==> nestlevel == old(nestlevel) + 1 && Current() == Loop(NextLoc(s, old(pc)), 0)
      ensures ok ==> forExpr == s.until.Some? && pc == BodyStart(s, old(pc))
      ensures ok ==> topcs == old(topcs) - (if s.until.Some? then 2 else 1) && stack[topcs] == NextLoc(s, old(pc))
      ensures ok && s.until.Some? ==> stack[topcs + 1] == NextLoc(s, old(pc)) - 6
      ensures ok ==> ForHeadAt(stack[..], s.init, s.until, s.incr, old(pc), NextLoc(s, old(pc)) - 3) && CellsKept()
      ensures forall i :: 0 <= i < old(nestlevel) ==> nextdest[i] == old(nextdest[i]) && brkdest[i] == old(brkdest[i])
    {
      ghost var lo := pc;
      CompileForTest(s.init, s.until);
      ghost var c0 := stack[..];
      ok := CompileForIncr(s.incr);
      if !ok { return; }
      ForHeadMade(c0, stack[..], s.init, s.until, s.incr, lo, topcs);
    }

    method CompileForTail()
      requires Valid() && pc + 3 <= topcs - 20 && topcs + 1 < STACKSIZ
      requires nestlevel > 0 && BreakBefore(Current().brk, pc)
      modifies this`pc, this`topcs, this`nestlevel, stack
      ensures Valid() && pc == old(pc) + 3 && nestlevel == old(nestlevel) - 1
      ensures topcs == old(topcs) + if forExpr then 2 else 1
      ensures ForTail(old(stack[..]), stack[..], old(pc), old(topcs), old(Current().brk), forExpr)
    {
      ghost var c1 := stack[..];
      var stmtaddr := Pop();
      var loc := Compile(GOTO, [stmtaddr - pc - 3], 0);
      if forExpr {
        stmtaddr := Pop();
        SetArg(stmtaddr, pc - stmtaddr - 3);
      }
      LoopDecr();
    }

    /** The end of a FOR. Whether the BIFF is patched depends on for_expr, which by now tells of the last `for` seen. */
    method CompileForEnd(ghost s: Stmt, ghost lo: nat)
      requires s.For? && Valid() && pc + 3 <= topcs - 20 && topcs + 1 < STACKSIZ
      requires stack[topcs] == NextLoc(s, lo) && pc == BodyStart(s, lo) + Size(s.body)
      requires s.until.Some? ==> stack[topcs + 1] == NextLoc(s, lo) - 6
      requires nestlevel > 0 && Current() == Loop(NextLoc(s, lo), BreakCell(0, s.body, BodyStart(s, lo)))
      requires ForHeadAt(stack[..], s.init, s.until, s.incr, lo, NextLoc(s, lo) - 3)
      requires Laid(stack[..], s.body, BodyStart(s, lo), Current())
      modifies this`pc, this`topcs, this`nestlevel, stack
      ensures Valid() && pc == old(pc) + 3 && nestlevel == old(nestlevel) - 1
      ensures topcs == old(topcs) + if forExpr then 2 else 1
      ensures forExpr == s.until.Some? ==> ForLaid(stack[..], s, lo) && KeptBut(lo, -1)
      ensures !forExpr && s.until.Some? ==>
                !ForLaid(stack[..], s, lo) && ForHeadAt(stack[..], s.init, s.until, s.incr, lo, NextLoc(s, lo) - 3)
    {
      ghost var c1, brk := stack[..], Current().brk;
      BreakCellBounds(0, s.body, BodyStart(s, lo));
      CompileForTail();
      ForEnded(c1, stack[..], s, lo, old(topcs), brk, forExpr);
    }

    lemma ForEnded(c1: seq<int>, c2: seq<int>, s: Stmt, lo: nat, top: nat, brk: int, flag: bool)
      requires s.For? && ForHeadAt(c1, s.init, s.until, s.incr, lo, NextLoc(s, lo) - 3)
      requires brk == BreakCell(0, s.body, BodyStart(s, lo)) && lo + Size(s) <= top < |c1| - 1
      requires Laid(c1, s.body, BodyStart(s, lo), Loop(NextLoc(s, lo), brk))
      requires ForTail(c1, c2, lo + Size(s) - 3, top, brk, flag)
      requires c1[top] == NextLoc(s, lo) && (s.until.Some? ==> c1[top + 1] == NextLoc(s, lo) - 6)
      ensures flag == s.until.Some? ==>
                ForLaid(c2, s, lo) && forall i :: 0 <= i < |c1| && (i < lo || i >= top) ==> c2[i] == c1[i]
      ensures !flag && s.until.Some? ==>
                !ForLaid(c2, s, lo) && ForHeadAt(c2, s.init, s.until, s.incr, lo, NextLoc(s, lo) - 3)
    {
      BreakCellBounds(0, s.body, BodyStart(s, lo));
      if flag == s.until.Some? {
        ForHeadEnd(c1, c2, s, lo);
        BodyDone(c1, c2, s, lo, brk);
      } else if s.until.Some? {
        ForHeadKept(c1, c2, s.init, s.until, s.incr, lo, NextLoc(s, lo) - 3);
      }
    }

    lemma ForHeadEnd(c1: seq<int>, c2: seq<int>, s: Stmt, lo: nat)
      requires s.For? && ForHeadAt(c1, s.init, s.until, s.incr, lo, NextLoc(s, lo) - 3)
      requires var b := NextLoc(s, lo) - 6;
               if s.until.Some? then
                 && AgreeBut(c1, c2, lo, b, 0) && AgreeBut(c1, c2, b + 3, BodyStart(s, lo), 0)
                 && JumpAt(c2, b, BIFF, lo + Size(s))
               else
                 AgreeBut(c1, c2, lo, BodyStart(s, lo), 0)
      ensures ForHeadAt(c2, s.init, s.until, s.incr, lo, lo + Size(s))
    {
      if s.until.Some? {
        ForHeadDone(c1, c2, s.init, s.until.value, s.incr, lo, lo + Size(s));
      } else {
        ForHeadKept(c1, c2, s.init, s.until, s.incr, lo, lo + Size(s));
      }
    }

    /** A FOR whose body is compiled properly is itself compiled properly, and leaves the control stack as it was,
        exactly when the last `for` seen in the body has a test if and only if this one has. */
    method CompileFor(s: Stmt) returns (ok: bool)
      requires s.For? && Valid() && InLoop() && Room(Size(s), Depth(s)) && WellFormed(s) && FlagsKept(s.body)
      modifies this`pc, this`topcs, this`nestlevel, this`forExpr, stack, nextdest, brkdest
      ensures Valid() && ok == Legal(s, old(nestlevel))
      ensures ok ==> pc == old(pc) + Size(s) && LoopsKept()
      ensures ok ==> (topcs == old(topcs) <==> OwnFlag(s))
      ensures ok && OwnFlag(s) ==> CellsKept() && ForLaid(stack[..], s, old(pc))
      ensures ok && !OwnFlag(s) && s.until.Some? ==>
                && !ForLaid(stack[..], s, old(pc))
                && ForHeadAt(stack[..], s.init, s.until, s.incr, old(pc), NextLoc(s, old(pc)) - 3)
      ensures ok ==> Current().brk == BreakCell(old(Current().brk), s, old(pc))
      ensures ok ==> forExpr == FlagAfter(s, old(forExpr))
      decreases s, 1
    {
      ghost var lo := pc;
      ok := CompileForBody(s);
      if !ok { return; }
      CompileForEnd(s, lo);
    }

    /** A FOR up to the end of its body. */
    method CompileForBody(s: Stmt) returns (ok: bool)
      requires s.For? && Valid() && Room(Size(s), Depth(s)) && WellFormed(s) && FlagsKept(s.body)
      modifies this`pc, this`topcs, this`nestlevel, this`forExpr, stack, nextdest, brkdest
      ensures Valid() && ok == Legal(s, old(nestlevel))
      ensures ok ==> pc == BodyStart(s, old(pc)) + Size(s.body) && CellsKept()
      ensures ok ==> topcs == old(topcs) - (if s.until.Some? then 2 else 1) && stack[topcs] == NextLoc(s, old(pc))
      ensures ok && s.until.Some? ==> stack[topcs + 1] == NextLoc(s, old(pc)) - 6
      ensures ok ==> ForHeadAt(stack[..], s.init, s.until, s.incr, old(pc), NextLoc(s, old(pc)) - 3)
      ensures ok ==> nestlevel == old(nestlevel) + 1
      ensures ok ==> Current() == Loop(NextLoc(s, old(pc)), BreakCell(0, s.body, BodyStart(s, old(pc))))
      ensures ok ==> Laid(stack[..], s.body, BodyStart(s, old(pc)), Current())
      ensures ok ==> forall i :: 0 <= i < old(nestlevel) ==>
          nextdest[i] == old(nextdest[i]) && brkdest[i] == old(brkdest[i])
      ensures ok ==> forExpr == FlagAfter(s.body, s.until.Some?)
      decreases s, 0
    {
      ghost var lo := pc;
      ok := CompileForHead(s);
      if !ok { return; }
      ok := CompileForStmt(s, lo);
    }

    /** Its body, the head being compiled at lo. */
    method CompileForStmt(s: Stmt, ghost lo: nat) returns (ok: bool)
      requires s.For? && Valid() && InLoop() && Room(Size(s.body), Depth(s.body)) && WellFormed(s.body) && FlagsKept(s.body)
      requires pc == BodyStart(s, lo) && topcs + 1 < STACKSIZ && nestlevel > 0 && Current() == Loop(NextLoc(s, lo), 0)
      requires ForHeadAt(stack[..], s.init, s.until, s.incr, lo, NextLoc(s, lo) - 3)
      modifies this`pc, this`topcs, this`nestlevel, this`forExpr, stack, nextdest, brkdest
      ensures Valid() && ok == Legal(s.body, old(nestlevel))
      ensures ok ==> pc == BodyStart(s, lo) + Size(s.body) && topcs == old(topcs) && CellsKept() && LoopsKept()
      ensures ok ==> stack[topcs] == old(stack[topcs]) && stack[topcs + 1] == old(stack[topcs + 1])
      ensures ok ==> ForHeadAt(stack[..], s.init, s.until, s.incr, lo, NextLoc(s, lo) - 3)
      ensures ok ==> Current() == Loop(NextLoc(s, lo), BreakCell(0, s.body, BodyStart(s, lo)))
      ensures ok ==> Laid(stack[..], s.body, BodyStart(s, lo), Current())
      ensures ok ==> forExpr == FlagAfter(s.body, old(forExpr))
      decreases s.body, 3
    {
      ghost var c1 := stack[..];
      ok := CompileStmt(s.body);
      if ok { HeadStays(c1, stack[..], s, lo, topcs); }
    }

    // -------------------------------------------------------------- switch

    /** Whether CASE or DEFAULT is legal here: the control stack shows an open SWITCH, or the end of one of its
        blocks. The stack is left as it was, except that an entry of any other kind is dropped. */
    method InSwitch() returns (status: bool)
      requires Valid() && topcs + 1 < STACKSIZ
      modifies this`topcs, stack
      ensures Valid() && stack[..] == old(stack[..])
      ensures var code, code2 := old(OpcodeAt(stack[topcs])), old(OpcodeAt(stack[topcs + 1]));
              && status == (code == SWITCH || (code == GOTO && code2 in {CASE, DEFAULT}))
              && topcs == old(topcs) + if code in {SWITCH, GOTO} then 0 else 1
    {
      var oper := Pop();
      var code := Opcode(oper);
      status := true;
      if code == SWITCH {
        Push(oper);
      } else if code == GOTO {
        var oper2 := Pop();
        var code2 := Opcode(oper2);
        if code2 != CASE && code2 != DEFAULT { status := false; }
        Push(oper2);
        Push(oper);
      } else {
        status := false;
      }
      assert stack[..] == old(stack[..]);
    }

    ghost function OpcodeAt(loc: int): int
      requires stack.Length == STACKSIZ
      reads stack
    {
      if 0 <= loc < STACKSIZ then stack[loc] else 0
    }

    /** The constants of a CASE are stacked as they are parsed. */
    method PushValues(vs: seq<int>)
      requires Valid() && topos < topcs - |vs| && |vs| <= topcs
      modifies this`topcs, stack
      ensures Valid() && topcs == old(topcs) - |vs|
      ensures forall j :: topcs <= j < old(topcs) ==> stack[j] == vs[old(topcs) - 1 - j]
      ensures SameOutside(old(stack[..]), stack[..], topcs, old(topcs), -1)
    {
      for n := 0 to |vs|
        invariant Valid() && topcs == old(topcs) - n
        invariant forall j :: topcs <= j < old(topcs) ==> stack[j] == vs[old(topcs) - 1 - j]
        invariant forall i :: 0 <= i < STACKSIZ && !(topcs <= i < old(topcs)) ==> stack[i] == old(stack[i])
      {
        Push(vs[n]);
      }
    }

    /** CASESET: pops the constants into the CASE operand, so the last one comes first. */
    method CaseSet(parg: nat, ncaseval: nat)
      requires Valid() && topcs + ncaseval <= STACKSIZ && parg + ncaseval <= topcs
      modifies this`topcs, stack
      ensures Valid() && topcs == old(topcs) + ncaseval
      ensures stack[parg..parg + ncaseval] == old(stack[topcs..topcs + ncaseval])
      ensures SameOutside(old(stack[..]), stack[..], parg, parg + ncaseval, -1)
    {
      for ival := 0 to ncaseval
        invariant Valid() && topcs == old(topcs) + ival
        invariant stack[parg..parg + ival] == old(stack[topcs..topcs + ival])
        invariant forall i :: 0 <= i < STACKSIZ && !(parg <= i < parg + ival) ==> stack[i] == old(stack[i])
      {
        var o := Pop();
        assert o == old(stack[topcs + ival]);
        stack[parg + ival] := o;
      }
    }

    /** CASE and its constants. */
    method CompileCase(b: Block) returns (pcase: int)
      requires b.Case? && Valid() && Room(HeadSize(b), Width(b))
      modifies this`pc, this`topcs, stack
      ensures Valid() && pcase == old(pc) && pc == old(pc) + HeadSize(b) && topcs == old(topcs)
      ensures HeadAt(stack[..], pcase, b) && CellsKept()
    {
      var n := |b.values|;
      PushValues(b.values);
      ghost var pushed := stack[topcs..topcs + n];
      assert forall j :: 0 <= j < n ==> pushed[j] == b.values[n - 1 - j];
      pcase := Compile(CASE, [], n);
      assert stack[topcs..topcs + n] == pushed;
      CaseSet(pcase + 2, n);
      CaseDone(stack[..], pcase, b, pushed);
    }

    lemma CaseDone(c: seq<int>, p: nat, b: Block, pushed: seq<int>)
      requires b.Case? && |pushed| == |b.values| && InstrAt(c, p, CASE, 2 + |pushed|)
      requires forall j :: 0 <= j < |pushed| ==> pushed[j] == b.values[|pushed| - 1 - j]
      requires c[p + 2..p + 2 + |pushed|] == pushed
      ensures HeadAt(c, p, b)
    {
      var n := |pushed|;
      forall i | 0 <= i < n ensures c[p + 1 + n - i] == b.values[i] {
        assert c[p + 2..p + 2 + n][n - 1 - i] == pushed[n - 1 - i];
      }
    }

    /** The start of a block: is it legal here, and its operand, whose address goes on the control stack. */
    method OpenBlock(b: Block) returns (ok: bool)
      requires Valid() && Room(HeadSize(b), 1 + Width(b)) && topcs + 1 < STACKSIZ
      requires BlockAllowed()
      modifies this`pc, this`topcs, stack
      ensures Valid() && ok && pc == old(pc) + HeadSize(b) && topcs == old(topcs) - 1 && stack[topcs] == old(pc)
      ensures HeadAt(stack[..], old(pc), b) && CellsKept()
    {
      ghost var c0 := stack[..];
      ok := InSwitch();
      assert stack[..] == c0;
      var loc;
      if b.Case? { loc := CompileCase(b); } else { loc := Compile(DEFAULT, [], 0); }
      Push(loc);
    }

    /** What in_switch looks for. */
    ghost predicate BlockAllowed()
      requires Valid() && topcs + 1 < STACKSIZ
      reads this, stack
    {
      || OpcodeAt(stack[topcs]) == SWITCH
      || (OpcodeAt(stack[topcs]) == GOTO && OpcodeAt(stack[topcs + 1]) in {CASE, DEFAULT})
    }

    /** The GOTO that ends a block; its address goes on the control stack. */
    method CloseBlock()
      requires Valid() && Room(3, 1)
      modifies this`pc, this`topcs, stack
      ensures Valid() && pc == old(pc) + 3 && topcs == old(topcs) - 1 && stack[topcs] == old(pc)
      ensures InstrAt(stack[..], old(pc), GOTO, 3) && CellsKept()
    {
      var loc := Compile(GOTO, [0], 0);
      Push(loc);
    }

    /** A CASE or DEFAULT block: operand, body, GOTO; two more control-stack entries. */
    method CompileBlock(b: Block) returns (ok: bool)
      requires Valid() && InLoop() && Room(HeadSize(b) + Size(b.body) + 3, 2 + Width(b) + Depth(b.body))
      requires pc > 0 && WellFormed(b.body) && FlagsKept(b.body) && topcs + 1 < STACKSIZ && BlockAllowed()
      modifies this`pc, this`topcs, this`nestlevel, this`forExpr, stack, nextdest, brkdest
      ensures Valid() && ok == Legal(b.body, old(nestlevel))
      ensures ok ==> pc == old(pc) + HeadSize(b) + Size(b.body) + 3 && topcs == old(topcs) - 2
      ensures ok ==> CellsKept() && LoopsKept() && stack[topcs] == pc - 3 && stack[topcs + 1] == old(pc)
      ensures ok ==> BlockAt(stack[..], b, old(pc), Current())
      ensures ok ==> Current().brk == BreakCell(old(Current().brk), b.body, old(pc) + HeadSize(b))
      ensures ok ==> forExpr == FlagAfter(b.body, old(forExpr))
      decreases b, 1
    {
      ghost var lo, brk := pc, Current().brk;
      ok := CompileBlockBody(b);
      if !ok { return; }
      ghost var c1, top := stack[..], topcs;
      CloseBlock();
      BlockDone(c1, stack[..], b, lo, brk, Current(), top);
    }

    method CompileBlockBody(b: Block) returns (ok: bool)
      requires Valid() && InLoop() && Room(HeadSize(b) + Size(b.body), 1 + Width(b) + Depth(b.body))
      requires pc > 0 && WellFormed(b.body) && FlagsKept(b.body) && topcs + 1 < STACKSIZ && BlockAllowed()
      modifies this`pc, this`topcs, this`nestlevel, this`forExpr, stack, nextdest, brkdest
      ensures Valid() && ok == Legal(b.body, old(nestlevel))
      ensures ok ==> pc == old(pc) + HeadSize(b) + Size(b.body) && topcs == old(topcs) - 1
      ensures ok ==> CellsKept() && LoopsKept() && stack[topcs] == old(pc) && HeadAt(stack[..], old(pc), b)
      ensures ok ==> Laid(stack[..], b.body, old(pc) + HeadSize(b), Current())
      ensures ok ==> Current().brk == BreakCell(old(Current().brk), b.body, old(pc) + HeadSize(b))
      ensures ok ==> forExpr == FlagAfter(b.body, old(forExpr))
      decreases b, 0
    {
      ok := OpenBlock(b);
      ghost var c0 := stack[..];
      assert b.Case? || b.Default?;
      ok := CompileStmt(b.body);
      if ok { HeadKept(c0, stack[..], old(pc), b); }
    }

    /** The blocks of a switch whose SWITCH instruction, at sw, is on top of the control stack. */
    method CompileBlocks(bs: seq<Block>, ghost sw: nat, ghost s: Stmt) returns (ok: bool)
      requires s.Switch? && s.blocks == bs && Valid() && InLoop() && Room(BlocksSize(bs, |bs|), BlocksDepth(bs, |bs|))
      requires forall k :: 0 <= k < |bs| ==> WellFormed(bs[k].body) && FlagsKept(bs[k].body)
      requires pc == sw + 6 && topcs + 1 < STACKSIZ && stack[topcs] == sw && stack[sw] == SWITCH
      modifies this`pc, this`topcs, this`nestlevel, this`forExpr, stack, nextdest, brkdest
      ensures Valid() && ok == LegalBlocks(bs, |bs|, old(nestlevel))
      ensures ok ==> pc == old(pc) + BlocksSize(bs, |bs|) && topcs == old(topcs) - 2 * |bs|
      ensures ok ==> CellsKept() && LoopsKept() && Entries(stack[..], bs, |bs|, old(pc), old(topcs))
      ensures ok ==> BlocksLaid(stack[..], bs, |bs|, old(pc), Current())
      ensures ok ==> Current().brk == BlocksBreak(old(Current().brk), bs, |bs|, old(pc))
      ensures ok ==> forExpr == BlocksFlag(bs, |bs|, old(forExpr))
      decreases s, 0, 1
    {
      ghost var p, base, brk := pc, topcs, Current().brk;
      ok := true;
      for n := 0 to |bs|
        invariant Valid() && ok && LegalBlocks(bs, n, nestlevel)
        invariant pc == p + BlocksSize(bs, n) && topcs == base - 2 * n >= 0
        invariant CellsKept() && LoopsKept()
        invariant BlocksLaid(stack[..], bs, n, p, Current()) && Entries(stack[..], bs, n, p, base)
        invariant Current().brk == BlocksBreak(brk, bs, n, p)
        invariant forExpr == BlocksFlag(bs, n, old(forExpr))
      {
        RoomForBlock(bs, n);
        ok := CompileNextBlock(bs, n, sw, base, brk, s);
        if !ok { return; }
        assert BlocksFlag(bs, n + 1, old(forExpr)) == FlagAfter(bs[n].body, BlocksFlag(bs, n, old(forExpr)));
      }
    }

    method CompileNextBlock(bs: seq<Block>, n: nat, ghost sw: nat, ghost base: nat, ghost brk: int, ghost s: Stmt)
      returns (ok: bool)
      requires s.Switch? && s.blocks == bs && n < |bs| && Valid() && BreakBefore(brk, sw + 6)
      requires Room(HeadSize(bs[n]) + Size(bs[n].body) + 3, 2 + Width(bs[n]) + Depth(bs[n].body))
      requires WellFormed(bs[n].body) && FlagsKept(bs[n].body)
      requires pc == sw + 6 + BlocksSize(bs, n) && topcs == base - 2 * n >= 2 && base + 1 < STACKSIZ
      requires stack[base] == sw && stack[sw] == SWITCH
      requires BlocksLaid(stack[..], bs, n, sw + 6, Current()) && Entries(stack[..], bs, n, sw + 6, base)
      requires Current().brk == BlocksBreak(brk, bs, n, sw + 6)
      modifies this`pc, this`topcs, this`nestlevel, this`forExpr, stack, nextdest, brkdest
      ensures Valid() && ok == Legal(bs[n].body, old(nestlevel))
      ensures ok ==> pc == sw + 6 + BlocksSize(bs, n + 1) && topcs == old(topcs) - 2 && CellsKept() && LoopsKept()
      ensures ok ==> BlocksLaid(stack[..], bs, n + 1, sw + 6, Current()) && Entries(stack[..], bs, n + 1, sw + 6, base)
      ensures ok ==> Current().brk == BlocksBreak(brk, bs, n + 1, sw + 6)
      ensures ok ==> forExpr == FlagAfter(bs[n].body, old(forExpr))
      decreases s, 0, 0
    {
      ghost var c1, l1 := stack[..], Current();
      BlocksBreakBounds(brk, bs, n, sw + 6);
      TopAllows(c1, bs, n, sw, base, l1);
      ok := CompileBlock(bs[n]);
      if !ok { return; }
      EntriesStep(c1, stack[..], bs, n, sw + 6, base);
      BlocksStep(c1, stack[..], bs, n, sw + 6, brk, l1, Current());
    }

    lemma EntriesStep(c1: seq<int>, c2: seq<int>, bs: seq<Block>, n: nat, p: nat, base: nat)
      requires n < |bs| && 2 * n + 2 <= base <= |c1| && Entries(c1, bs, n, p, base)
      requires SameCells(c1, c2, base - 2 * n, base)
      requires c2[base - 1 - 2 * n] == BlockLoc(bs, n, p) && c2[base - 2 - 2 * n] == ExitLoc(bs, n, p)
      ensures Entries(c2, bs, n + 1, p, base)
    {
      forall k | 0 <= k < n + 1
        ensures c2[base - 1 - 2 * k] == BlockLoc(bs, k, p) && c2[base - 2 - 2 * k] == ExitLoc(bs, k, p)
      {
        if k < n { assert c1[base - 2 - 2 * k] == ExitLoc(bs, k, p) && c1[base - 1 - 2 * k] == BlockLoc(bs, k, p); }
      }
    }

    lemma RoomForBlock(bs: seq<Block>, n: nat)
      requires n < |bs|
      ensures BlocksSize(bs, n) + HeadSize(bs[n]) + Size(bs[n].body) + 3 <= BlocksSize(bs, |bs|)
      ensures 2 * (n + 1) + Width(bs[n]) + Depth(bs[n].body) <= BlocksDepth(bs, |bs|)
    {
      BlocksSizeMonotone(bs, n, |bs|);
      DepthMonotone(bs, n + 1, |bs|);
    }

    lemma {:induction false} DepthMonotone(bs: seq<Block>, i: nat, j: nat)
      requires i <= j <= |bs|
      ensures BlocksDepth(bs, i) <= BlocksDepth(bs, j)
      decreases j
    {
      if i < j { DepthMonotone(bs, i, j - 1); }
    }

    /** After n blocks, in_switch accepts another one. */
    lemma TopAllows(code: seq<int>, bs: seq<Block>, n: nat, sw: nat, base: nat, l: Loop)
      requires n <= |bs| && 2 * n <= base < |code| - 1 && sw + 6 <= |code| && code[base] == sw && code[sw] == SWITCH
      requires BlocksLaid(code, bs, n, sw + 6, l) && Entries(code, bs, n, sw + 6, base)
      ensures var top, next := code[base - 2 * n], code[base - 2 * n + 1];
              || (0 <= top < |code| && code[top] == SWITCH)
              || (0 <= top < |code| && 0 <= next < |code| && code[top] == GOTO && code[next] in {CASE, DEFAULT})
    {
      if n > 0 {
        assert BlockLaid(code, bs, n - 1, sw + 6, l);
        assert BlockAt(code, bs[n - 1], BlockLoc(bs, n - 1, sw + 6), l);
        assert code[base - 2 - 2 * (n - 1)] == ExitLoc(bs, n - 1, sw + 6);
        assert code[base - 1 - 2 * (n - 1)] == BlockLoc(bs, n - 1, sw + 6);
      }
    }

    /** The first pass of setswitch: from the top of the control stack down to the SWITCH, counting CASEs. */
    method CountCases(ghost bs: seq<Block>, ghost sw: nat, ghost l: Loop) returns (ok: bool, njump: nat, assgn: int)
      requires Valid() && SwitchStacked(stack[..], bs, sw, pc, topcs, l)
      ensures ok && njump == TableSize(bs) && assgn == sw
    {
      var oper := topcs;
      var code := Opcode(stack[oper]);
      njump := 2;
      ghost var j := 0;
      StackedOp(stack[..], bs, sw, pc, topcs, l, j);
      while code != SWITCH
        invariant 0 <= j <= 2 * |bs| && oper == topcs + j
        invariant code == OpcodeAt(stack[oper]) == EntryOp(bs, j)
        invariant njump == 2 + CasesFrom(bs, |bs| - j / 2)
        decreases 2 * |bs| - j
      {
        if code == CASE {
          njump := njump + 1;
        } else if code != GOTO && code != DEFAULT {
          return false, njump, 0;      // "Corrupt stack in SWITCH analysis."
        }
        oper := oper + 1;
        j := j + 1;
        StackedOp(stack[..], bs, sw, pc, topcs, l, j);
        code := Opcode(stack[oper]);
      }
      ok, assgn := true, stack[oper];
    }

    /** Opcode the j-th control-stack entry of a switch points at: GOTO and CASE or DEFAULT in turn, last block
        first, then SWITCH. */
    ghost function EntryOp(bs: seq<Block>, j: nat): int
      requires j <= 2 * |bs|
    {
      if j == 2 * |bs| then SWITCH
      else if j % 2 == 0 then GOTO
      else if bs[|bs| - 1 - j / 2].Case? then CASE else DEFAULT
    }

    /** The location itself. */
    ghost function EntryLoc(bs: seq<Block>, sw: nat, j: nat): nat
      requires j <= 2 * |bs|
    {
      if j == 2 * |bs| then sw
      else if j % 2 == 0 then ExitLoc(bs, |bs| - 1 - j / 2, sw + 6)
      else BlockLoc(bs, |bs| - 1 - j / 2, sw + 6)
    }

    lemma StackedOp(code: seq<int>, bs: seq<Block>, sw: nat, pc: nat, top: nat, l: Loop, j: nat)
      requires j <= 2 * |bs| && SwitchStacked(code, bs, sw, pc, top, l)
      ensures code[top + j] == EntryLoc(bs, sw, j) < STACKSIZ && code[EntryLoc(bs, sw, j)] == EntryOp(bs, j)
    {
      if j < 2 * |bs| {
        var k := |bs| - 1 - j / 2;
        EntryOps(code, bs, sw + 6, l, k);
        assert code[top + 2 * |bs| - 1 - 2 * k] == BlockLoc(bs, k, sw + 6);
        assert code[top + 2 * |bs| - 2 - 2 * k] == ExitLoc(bs, k, sw + 6);
      }
    }

    /** Where setswitch stands after handling j control-stack entries. */
    ghost predicate Handled(c0: seq<int>, bs: seq<Block>, sw: nat, t: nat, j: nat)
      requires Valid() && j <= 2 * |bs|
      reads this, stack
    {
      Patching(c0, stack[..], bs, sw, t, |bs| - (j + 1) / 2, |bs| - j / 2)
    }

    lemma EntryStays(c0: seq<int>, c: seq<int>, bs: seq<Block>, sw: nat, t: nat, top: nat, l: Loop, he: nat, i: nat)
      requires i <= 2 * |bs| && |c| == STACKSIZ && PatchingBlocks(c0, c, bs, sw, t, he)
      requires SwitchStacked(c0, bs, sw, t, top, l)
      ensures c[top + i] == EntryLoc(bs, sw, i) < STACKSIZ && c[EntryLoc(bs, sw, i)] == EntryOp(bs, i)
    {
      StackedOp(c0, bs, sw, t, top, l, i);
      if i < 2 * |bs| {
        var k := |bs| - 1 - i / 2;
        var p := sw + 6;
        assert SameCells(c0, c, BlockLoc(bs, k, p), ExitLoc(bs, k, p) + 2);
      }
    }

    lemma HalfSteps(j: nat)
      ensures (j + 1) / 2 == j / 2 + j % 2 && (j + 2) / 2 == j / 2 + 1
    {
    }

    /** One turn of the second pass: entry j, already popped, is oper with opcode code. */
    method HandleEntry(oper: int, code: int, jmp: nat, njump: nat, assgn: int,
                       ghost c0: seq<int>, ghost bs: seq<Block>, ghost sw: nat, ghost j: nat) returns (jmp': nat)
      requires Valid() && j < 2 * |bs| && Handled(c0, bs, sw, pc, j)
      requires oper == EntryLoc(bs, sw, j) && code == EntryOp(bs, j)
      requires jmp == pc + 1 + CasesFrom(bs, |bs| - j / 2) && njump == TableSize(bs) && assgn == sw
      modifies stack
      ensures Handled(c0, bs, sw, pc, j + 1) && jmp' == pc + 1 + CasesFrom(bs, |bs| - (j + 1) / 2)
    {
      jmp' := jmp;
      ghost var c := stack[..];
      ghost var k := |bs| - 1 - j / 2;
      HalfSteps(j);
      BlocksSizeMonotone(bs, k, |bs|);
      if code == DEFAULT {
        stack[pc] := oper - assgn;
        PatchDefault(c0, c, stack[..], bs, sw, pc, k);
      } else if code == CASE {
        if k > 0 { CasesFromStep(bs, 0, k); }
        stack[jmp] := oper - assgn;
        jmp' := jmp + 1;
        PatchCase(c0, c, stack[..], bs, sw, pc, k);
      } else {
        SetArg(oper, pc + njump - oper - 3);
        assert stack[..] == c[oper + 2 := pc + njump - oper - 3];
        PatchExit(c0, c, stack[..], bs, sw, pc, k);
      }
    }

    /** SETSWITCH: builds the jump table at pc from the control stack and drops the switch's entries from it. */
    method SetSwitch(ghost bs: seq<Block>, ghost sw: nat, ghost l: Loop) returns (ok: bool)
      requires Valid() && SwitchStacked(stack[..], bs, sw, pc, topcs, l)
      requires l.brk <= 0 || FirstBreakIn(bs, |bs|, sw + 6) == Some(l.brk) || l.brk + 3 <= sw + 6
      modifies this`pc, this`topcs, stack
      ensures ok && Valid() && pc == old(pc) + TableSize(bs) && topcs == old(topcs) + 2 * |bs| + 1
      ensures JumpAt(stack[..], sw, SWITCH, old(pc) + 3) && JumpAt(stack[..], sw + 3, GOTO, pc)
      ensures BlocksLaid(stack[..], bs, |bs|, sw + 6, l) && ExitsTo(stack[..], bs, sw + 6, pc)
      ensures TableAt(stack[..], bs, sw, old(pc))
      ensures SameOutside(old(stack[..]), stack[..], sw, pc, -1)
    {
      ghost var c0, t, top := stack[..], pc, topcs;
      var njump, assgn;
      ok, njump, assgn := CountCases(bs, sw, l);
      var jmp := pc + 1;
      stack[pc] := 0;
      PatchStart(c0, stack[..], bs, sw, t);
      var oper;
      ok, oper, jmp := PatchEntries(jmp, njump, assgn, c0, bs, sw, l);
      FinishSwitch(oper, jmp, njump, c0, bs, sw, l);
    }

    /** The second pass of setswitch, popping the entries and handling each. */
    method PatchEntries(jmp0: nat, njump: nat, assgn: int,
                        ghost c0: seq<int>, ghost bs: seq<Block>, ghost sw: nat, ghost l: Loop)
      returns (ok: bool, oper: int, jmp: nat)
      requires Valid() && SwitchStacked(c0, bs, sw, pc, topcs, l) && Handled(c0, bs, sw, pc, 0)
      requires jmp0 == pc + 1 && njump == TableSize(bs) && assgn == sw
      modifies this`topcs, stack
      ensures ok && Valid() && topcs == old(topcs) + 2 * |bs| + 1 && Handled(c0, bs, sw, pc, 2 * |bs|)
      ensures oper == sw && jmp == pc + 1 + CasesFrom(bs, 0)
    {
      ghost var top := topcs;
      jmp := jmp0;
      ghost var j := 0;
      var code;
      oper, code := TakeEntry(c0, bs, sw, l, top, j);
      while code != SWITCH
        invariant Valid() && 0 <= j <= 2 * |bs| && topcs == top + j + 1
        invariant Handled(c0, bs, sw, pc, j)
        invariant oper == EntryLoc(bs, sw, j) && code == EntryOp(bs, j)
        invariant jmp == pc + 1 + CasesFrom(bs, |bs| - j / 2)
        decreases 2 * |bs| - j
      {
        if code !in {DEFAULT, CASE, GOTO} { return false, oper, jmp; }      // "Corrupt stack in SWITCH analysis."
        oper, code, jmp, j := NextEntry(oper, code, jmp, njump, assgn, c0, bs, sw, l, top, j);
      }
      assert j == 2 * |bs|;
      ok := true;
    }

    method NextEntry(oper: int, code: int, jmp: nat, njump: nat, assgn: int, ghost c0: seq<int>,
                     ghost bs: seq<Block>, ghost sw: nat, ghost l: Loop, ghost top: nat, ghost j: nat)
      returns (oper': int, code': int, jmp': nat, ghost j': nat)
      requires Valid() && SwitchStacked(c0, bs, sw, pc, top, l) && j < 2 * |bs| && topcs == top + j + 1
      requires Handled(c0, bs, sw, pc, j) && oper == EntryLoc(bs, sw, j) && code == EntryOp(bs, j)
      requires jmp == pc + 1 + CasesFrom(bs, |bs| - j / 2) && njump == TableSize(bs) && assgn == sw
      modifies this`topcs, stack
      ensures Valid() && topcs == old(topcs) + 1 && j' == j + 1 && Handled(c0, bs, sw, pc, j')
      ensures oper' == EntryLoc(bs, sw, j') && code' == EntryOp(bs, j')
      ensures jmp' == pc + 1 + CasesFrom(bs, |bs| - j' / 2)
    {
      jmp' := HandleEntry(oper, code, jmp, njump, assgn, c0, bs, sw, j);
      j' := j + 1;
      oper', code' := TakeEntry(c0, bs, sw, l, top, j');
    }

    /** The next entry popped, and its opcode. */
    method TakeEntry(ghost c0: seq<int>, ghost bs: seq<Block>, ghost sw: nat, ghost l: Loop, ghost top: nat, ghost j: nat)
      returns (oper: int, code: int)
      requires Valid() && SwitchStacked(c0, bs, sw, pc, top, l) && j <= 2 * |bs| && topcs == top + j
      requires Handled(c0, bs, sw, pc, j)
      modifies this`topcs
      ensures Valid() && topcs == old(topcs) + 1
      ensures oper == EntryLoc(bs, sw, j) && code == EntryOp(bs, j)
    {
      EntryStays(c0, stack[..], bs, sw, pc, top, l, |bs| - (j + 1) / 2, j);
      oper := Pop();
      code := Opcode(oper);
    }

    lemma PatchStart(c0: seq<int>, c: seq<int>, bs: seq<Block>, sw: nat, t: nat)
      requires t == sw + 6 + BlocksSize(bs, |bs|) && t + TableSize(bs) <= |c0| && c == c0[t := 0]
      ensures Patching(c0, c, bs, sw, t, |bs|, |bs|)
    {
      var p := sw + 6;
      forall k | 0 <= k < |bs| ensures SameCells(c0, c, BlockLoc(bs, k, p), ExitLoc(bs, k, p) + 2) {
        BlocksSizeMonotone(bs, k, |bs|);
      }
    }

    /** The terminator of the table, the table address in the SWITCH, the pc past the table, and the destination
        of the GOTO after the SWITCH. */
    method FinishSwitch(oper: int, jmp: nat, njump: nat, ghost c0: seq<int>, ghost bs: seq<Block>, ghost sw: nat,
          ghost l: Loop)
      requires Valid() && Handled(c0, bs, sw, pc, 2 * |bs|) && oper == sw && |c0| == STACKSIZ
      requires jmp == pc + 1 + CasesFrom(bs, 0) && njump == TableSize(bs) && pc + njump <= STACKSIZ
      requires BlocksLaid(c0, bs, |bs|, sw + 6, l) && InstrAt(c0, sw, SWITCH, 3) && InstrAt(c0, sw + 3, GOTO, 3)
      requires l.brk <= 0 || FirstBreakIn(bs, |bs|, sw + 6) == Some(l.brk) || l.brk + 3 <= sw + 6
      modifies this`pc, stack
      ensures Valid() && pc == old(pc) + TableSize(bs)
      ensures JumpAt(stack[..], sw, SWITCH, old(pc) + 3) && JumpAt(stack[..], sw + 3, GOTO, pc)
      ensures BlocksLaid(stack[..], bs, |bs|, sw + 6, l) && ExitsTo(stack[..], bs, sw + 6, pc)
      ensures TableAt(stack[..], bs, sw, old(pc))
      ensures SameOutside(c0, stack[..], sw, pc, -1)
    {
      ghost var c, t := stack[..], pc;
      stack[jmp] := 0;
      SetArg(oper, pc - oper);
      pc := pc + njump;
      SetArg(oper + 3, pc - (oper + 3) - 3);
      assert stack[..] == c[jmp := 0][sw + 2 := t - sw][sw + 5 := t + TableSize(bs) - sw - 6];
      PatchDone(c0, c, stack[..], bs, sw, t, l);
    }

    /** The selector, the SWITCH, whose address goes on the control stack, and the GOTO after it. */
    method CompileSelector(selector: Code)
      requires Valid() && Straight(selector) && Room(|selector| + 6, 1)
      modifies this`pc, this`topcs, stack
      ensures Valid() && pc == old(pc) + |selector| + 6 && topcs == old(topcs) - 1 && stack[topcs] == pc - 6
      ensures PlainAt(stack[..], old(pc), selector) && CellsKept()
      ensures InstrAt(stack[..], pc - 6, SWITCH, 3) && InstrAt(stack[..], pc - 3, GOTO, 3)
    {
      CompilePlain(selector);
      ghost var c0 := stack[..];
      var sw := Compile(SWITCH, [], 1);
      Push(sw);
      var loc := Compile(GOTO, [0], 0);
      PlainKept(c0, stack[..], selector, old(pc));
    }

    method CompileSwitch(s: Stmt) returns (ok: bool)
      requires s.Switch? && Valid() && InLoop() && Room(Size(s), Depth(s)) && WellFormed(s) && FlagsKept(s)
      modifies this`pc, this`topcs, this`nestlevel, this`forExpr, stack, nextdest, brkdest
      ensures Valid() && ok == Legal(s, old(nestlevel))
      ensures ok ==> pc == old(pc) + Size(s) && topcs == old(topcs) && CellsKept() && LoopsKept()
      ensures ok ==> SwitchLaid(stack[..], s, old(pc), Current())
      ensures ok ==> Current().brk == BreakCell(old(Current().brk), s, old(pc))
      ensures ok ==> forExpr == FlagAfter(s, old(forExpr))
      decreases s, 1
    {
      ghost var lo, brk := pc, Current().brk;
      ok := CompileSwitchBody(s);
      if !ok { return; }
      SwitchBreak(s, lo, brk);
      ghost var c1 := stack[..];
      ok := SetSwitch(s.blocks, lo + |s.selector|, Current());
      SwitchDone(c1, stack[..], s, lo, Current());
    }

    /** A switch up to the end of its blocks, ready for setswitch. */
    method CompileSwitchBody(s: Stmt) returns (ok: bool)
      requires s.Switch? && Valid() && InLoop() && Room(Size(s), Depth(s)) && WellFormed(s) && FlagsKept(s)
      modifies this`pc, this`topcs, this`nestlevel, this`forExpr, stack, nextdest, brkdest
      ensures Valid() && ok == Legal(s, old(nestlevel))
      ensures ok ==> SwitchStacked(stack[..], s.blocks, old(pc) + |s.selector|, pc, topcs, Current())
      ensures ok ==> topcs == old(topcs) - 2 * |s.blocks| - 1 && CellsKept() && LoopsKept()
      ensures ok ==> PlainAt(stack[..], old(pc), s.selector)
      ensures ok ==> Current().brk == BlocksBreak(old(Current().brk), s.blocks, |s.blocks|, old(pc) + |s.selector| + 6)
      ensures ok ==> forExpr == FlagAfter(s, old(forExpr))
      decreases s, 0, 3
    {
      ghost var lo := pc;
      CompileSelector(s.selector);
      ok := CompileBlocksOf(s, lo);
    }

    /** The blocks of a switch, its selector and its SWITCH being compiled. */
    method CompileBlocksOf(s: Stmt, ghost lo: nat) returns (ok: bool)
      requires s.Switch? && Valid() && InLoop() && pc == lo + |s.selector| + 6 && topcs + 1 < STACKSIZ
      requires pc + BlocksSize(s.blocks, |s.blocks|) + TableSize(s.blocks) + BlocksDepth(s.blocks, |s.blocks|) + 20 <= topcs
      requires topos + BlocksDepth(s.blocks, |s.blocks|) < topcs
      requires forall k :: 0 <= k < |s.blocks| ==> WellFormed(s.blocks[k].body) && FlagsKept(s.blocks[k].body)
      requires stack[topcs] == pc - 6 && InstrAt(stack[..], pc - 6, SWITCH, 3) && InstrAt(stack[..], pc - 3, GOTO, 3)
      requires PlainAt(stack[..], lo, s.selector)
      modifies this`pc, this`topcs, this`nestlevel, this`forExpr, stack, nextdest, brkdest
      ensures Valid() && ok == LegalBlocks(s.blocks, |s.blocks|, old(nestlevel))
      ensures ok ==> SwitchStacked(stack[..], s.blocks, lo + |s.selector|, pc, topcs, Current())
      ensures ok ==> topcs == old(topcs) - 2 * |s.blocks| && CellsKept() && LoopsKept()
      ensures ok ==> PlainAt(stack[..], lo, s.selector)
      ensures ok ==> Current().brk == BlocksBreak(old(Current().brk), s.blocks, |s.blocks|, lo + |s.selector| + 6)
      ensures ok ==> forExpr == BlocksFlag(s.blocks, |s.blocks|, old(forExpr))
      decreases s, 0, 2
    {
      ghost var c1 := stack[..];
      BlocksFit(s.blocks, |s.blocks|);
      ok := CompileBlocks(s.blocks, pc - 6, s);
      if !ok { return; }
      BlocksStacked(c1, stack[..], s, lo, pc, topcs, Current());
    }

    lemma {:induction false} BlocksFit(bs: seq<Block>, n: nat)
      requires n <= |bs|
      ensures 2 * n <= BlocksDepth(bs, n)
    {
    }

    /** A whole script: its statements, then END. */
    method CompileProgram(s: Stmt) returns (ok: bool)
      requires Valid() && nestlevel == 0 && Room(Size(s) + 2, Depth(s)) && WellFormed(s) && FlagsKept(s)
      modifies this`pc, this`topcs, this`nestlevel, this`forExpr, stack, nextdest, brkdest
      ensures Valid() && ok == Legal(s, 0)
      ensures ok ==> ProgramLaid(stack[..], s, old(pc)) && pc == old(pc) + Size(s) + 2 && topcs == old(topcs)
      ensures ok ==> CellsKept()
    {
      ok := CompileStmt(s);
      if !ok { return; }
      ghost var c1 := stack[..];
      var loc := Compile(END, [], 0);
      ProgramDone(c1, stack[..], s, old(pc));
    }

    lemma NoBreakAtTop(s: Stmt, lo: nat, nest: nat)
      requires Legal(s, nest)
      ensures nest == 0 ==> FirstBreak(s, lo) == None
    {
      if nest == 0 { NoFreeBreak(s, lo); }
    }
  }
}
