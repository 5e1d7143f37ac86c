/** Compiled code does what its statement means: for every statement, every interpretation of the
    straight-line instructions and every state, the machine running the laid-out cells ends exactly where and
    how the source says, and runs forever exactly when the source does. */
module Simulation {
  import opened Wrappers
  import opened ClCode

  // ---------------------------------------------------------------- runs

  lemma {:induction false} RunAdd(I: Interp, code: seq<int>, m: Machine, a: nat, b: nat)
    ensures Run(I, code, m, a + b) == Run(I, code, Run(I, code, m, a), b)
    decreases a
  {
    if a > 0 {
      var m1 := Step(I, code, m);
      assert RunOn(I, code, m, a + b) == Run(I, code, m1, a - 1 + b);
      assert RunOn(I, code, m, a) == Run(I, code, m1, a - 1);
      RunAdd(I, code, m1, a - 1, b);
    }
  }

  lemma {:induction false} StoppedStays(I: Interp, code: seq<int>, m: Machine, n: nat)
    requires !m.Running?
    ensures Run(I, code, m, n) == m
    decreases n
  {
    if n > 0 {
      assert RunOn(I, code, m, n) == Run(I, code, m, n - 1);
      StoppedStays(I, code, m, n - 1);
    }
  }

  lemma RunOne(I: Interp, code: seq<int>, m: Machine)
    ensures Run(I, code, m, 1) == Step(I, code, m)
  {
    assert RunOn(I, code, m, 1) == Run(I, code, Step(I, code, m), 0);
  }

  lemma {:induction false} PlainRuns(I: Interp, code: seq<int>, c: Code, p: nat, st: State) returns (k: nat)
    requires Straight(c) && PlainAt(code, p, c)
    ensures match RunPlain(I, c, st)
            case None => Run(I, code, Running(p, st), k) == Error
            case Some(st1) => Run(I, code, Running(p, st), k) == Running(p + |c|, st1)
    decreases |c|
  {
    k := 0;
    if c != [] {
      var m := Machine.Running(p, st);
      assert code[p + 1] == c[1];
      assert code[p..p + c[1]] == c[..c[1]];
      RunOne(I, code, m);
      match I.exec(c[..c[1]], st) {
        case None => k := 1;
        case Some(st1) =>
          var k1 := PlainRuns(I, code, c[c[1]..], p + c[1], st1);
          RunAdd(I, code, m, 1, k1);
          k := 1 + k1;
      }
    }
  }

  lemma JumpRuns(I: Interp, code: seq<int>, p: nat, dest: int, st: State)
    requires JumpAt(code, p, GOTO, dest) && 0 <= dest < STACKSIZ
    ensures Run(I, code, Running(p, st), 1) == Running(dest, st)
  {
    RunOne(I, code, Machine.Running(p, st));
  }

  /** A test followed by its BIFF: falls through when true, branches to dest when false. */
  lemma TestRuns(I: Interp, code: seq<int>, e: Code, p: nat, dest: int, st: State) returns (k: nat)
    requires Straight(e) && PlainAt(code, p, e)
    requires JumpAt(code, p + |e|, BIFF, dest) && 0 <= dest < STACKSIZ
    ensures match Test(I, e, st)
            case None => Run(I, code, Running(p, st), k) == Error
            case Some((b, st1)) =>
              Run(I, code, Running(p, st), k) == Running(if b then p + |e| + 3 else dest, st1)
  {
    var k1 := PlainRuns(I, code, e, p, st);
    k := k1;
    match RunPlain(I, e, st) {
      case None =>
      case Some(st1) =>
        RunOne(I, code, Machine.Running(p + |e|, st1));
        RunAdd(I, code, Machine.Running(p, st), k1, 1);
        k := k1 + 1;
    }
  }

  // ---------------------------------------------------------------- the jump table

  lemma {:induction false} CasesFromStep(bs: seq<Block>, i: nat, j: nat)
    requires i < j <= |bs|
    ensures CasesFrom(bs, j) <= CasesFrom(bs, i)
    ensures bs[i].Case? ==> CasesFrom(bs, j) < CasesFrom(bs, i)
    decreases j - i
  {
    if i + 1 < j { CasesFromStep(bs, i + 1, j); }
  }

  lemma {:induction false} BlocksSizeMonotone(bs: seq<Block>, i: nat, j: nat)
    requires i <= j <= |bs|
    ensures BlocksSize(bs, i) <= BlocksSize(bs, j)
    ensures i < j ==> BlocksSize(bs, i) + HeadSize(bs[i]) + Size(bs[i].body) + 3 <= BlocksSize(bs, j)
    decreases j
  {
    if i < j { BlocksSizeMonotone(bs, i, j - 1); }
  }

  lemma HeadLists(code: seq<int>, c: nat, b: Block, v: int)
    requires b.Case? && HeadAt(code, c, b)
    ensures Lists(code, c, v) <==> v in b.values
  {
    var vs := b.values;
    if v in vs {
      var i :| 0 <= i < |vs| && vs[i] == v;
      assert code[c + 1 + |vs| - i] == v;
    }
    if Lists(code, c, v) {
      var j :| c + 2 <= j < c + code[c + 1] && code[j] == v;
      assert code[c + 1 + |vs| - (c + 1 + |vs| - j)] == vs[c + 1 + |vs| - j];
    }
  }

  lemma ScanEntry(code: seq<int>, sw: nat, i: nat, c: nat, b: Block, v: int)
    requires i < |code| && code[i] == c - sw && sw < c
    requires b.Case? && HeadAt(code, c, b)
    ensures ScanTable(code, sw, i, v)
              == if v in b.values then Some(c + HeadSize(b)) else ScanTable(code, sw, i + 1, v)
  {
    HeadLists(code, c, b, v);
  }

  /** The table scan, started at the entry of the last CASE below block k, finds the last CASE below k listing v. */
  lemma {:induction false} ScanFinds(code: seq<int>, bs: seq<Block>, k: nat, sw: nat, t: nat, l: Loop, v: int)
    requires k <= |bs|
    requires BlocksLaid(code, bs, |bs|, sw + 6, l)
    requires forall i :: 0 <= i < |bs| && bs[i].Case? ==> EntryAt(code, bs, i, t)
    requires t + 1 + CasesFrom(bs, 0) < |code| && code[t + 1 + CasesFrom(bs, 0)] == 0
    ensures var c := LastCase(bs, k, v);
            ScanTable(code, sw, t + 1 + CasesFrom(bs, k), v)
              == Some(if c < |bs| then BodyLoc(bs, c, sw + 6) else 0)
    decreases k
  {
    if k > 0 {
      if bs[k - 1].Case? { ScanBlock(code, bs, k - 1, sw, t, l, v); }
      if !(bs[k - 1].Case? && v in bs[k - 1].values) { ScanFinds(code, bs, k - 1, sw, t, l, v); }
    }
  }

  /** The scan at the entry of block k. */
  lemma ScanBlock(code: seq<int>, bs: seq<Block>, k: nat, sw: nat, t: nat, l: Loop, v: int)
    requires k < |bs| && bs[k].Case? && BlocksLaid(code, bs, |bs|, sw + 6, l) && EntryAt(code, bs, k, t)
    ensures ScanTable(code, sw, t + 1 + CasesFrom(bs, k + 1), v)
              == if v in bs[k].values then Some(BodyLoc(bs, k, sw + 6))
                 else ScanTable(code, sw, t + 1 + CasesFrom(bs, k), v)
  {
    assert BlockLaid(code, bs, k, sw + 6, l);
    assert BlockAt(code, bs[k], BlockLoc(bs, k, sw + 6), l);
    ScanEntry(code, sw, t + 1 + CasesFrom(bs, k + 1), BlockLoc(bs, k, sw + 6), bs[k], v);
  }

  predicate CaseOf(b: Block, v: int) {
    b.Case? && v in b.values
  }

  lemma {:induction false} LastCaseIsLast(bs: seq<Block>, k: nat, v: int)
    requires k <= |bs|
    ensures var c := LastCase(bs, k, v);
            && (c < k ==> CaseOf(bs[c], v))
            && (forall i :: (if c < k then c + 1 else 0) <= i < k ==> !CaseOf(bs[i], v))
  {
    if k > 0 && !CaseOf(bs[k - 1], v) { LastCaseIsLast(bs, k - 1, v); }
  }

  lemma {:induction false} FirstDefaultIsFirst(bs: seq<Block>, from: nat, k: nat)
    requires from <= k <= |bs|
    ensures var d := FirstDefault(bs, from, k);
            (d < k ==> bs[d].Default?) && forall i :: from <= i < d ==> bs[i].Case?
    decreases k - from
  {
    if from < k && bs[from].Case? { FirstDefaultIsFirst(bs, from + 1, k); }
  }

  /** The block a switch enters, said outright: the last CASE listing v; failing that, the first DEFAULT;
      failing that, none. */
  lemma ChosenMeans(bs: seq<Block>, v: int, k: nat)
    requires k <= |bs|
    ensures Chosen(bs, v) == k <==>
            if k < |bs| && bs[k].Case? then
              CaseOf(bs[k], v) && forall i :: k < i < |bs| ==> !CaseOf(bs[i], v)
            else
              && (forall i :: 0 <= i < |bs| ==> !CaseOf(bs[i], v))
              && (forall i :: 0 <= i < k ==> bs[i].Case?)
  {
    LastCaseIsLast(bs, |bs|, v);
    FirstDefaultIsFirst(bs, 0, |bs|);
  }

  /** o_doswitch on a table built by setswitch: control reaches the body of the last CASE listing v, else the
      body of the first DEFAULT, else the GOTO after the SWITCH. */
  lemma DispatchChooses(code: seq<int>, bs: seq<Block>, sw: nat, l: Loop, v: int)
    requires |code| == STACKSIZ && sw + 3 <= |code|
    requires BlocksLaid(code, bs, |bs|, sw + 6, l)
    requires TableAt(code, bs, sw, sw + 6 + BlocksSize(bs, |bs|))
    ensures var k := Chosen(bs, v);
            Dispatch(code, sw, 6 + BlocksSize(bs, |bs|), v)
              == Some(if k < |bs| then BodyLoc(bs, k, sw + 6) else sw + 3)
  {
    ScanFinds(code, bs, |bs|, sw, sw + 6 + BlocksSize(bs, |bs|), l, v);
    FirstDefaultIsFirst(bs, 0, |bs|);
  }

  // ---------------------------------------------------------------- break cells

  /** The first BREAK of s lies inside the code of s. */
  lemma {:induction false} FirstBreakInside(s: Stmt, lo: nat)
    ensures FirstBreak(s, lo).Some? ==> lo <= FirstBreak(s, lo).value && FirstBreak(s, lo).value + 3 <= lo + Size(s)
    decreases s, 1
  {
    match s
    case Seq(a, b) =>
      FirstBreakInside(a, lo);
      FirstBreakInside(b, lo + Size(a));
    case If(e, a) => FirstBreakInside(a, lo + |e| + 3);
    case IfElse(e, a, b) =>
      FirstBreakInside(a, lo + |e| + 3);
      FirstBreakInside(b, lo + |e| + 3 + Size(a) + 3);
    case Switch(e, bs) => FirstBreakInsideBlocks(bs, |bs|, lo + |e| + 6);
    case _ =>
  }

  lemma {:induction false} FirstBreakInsideBlocks(bs: seq<Block>, k: nat, p: nat)
    requires k <= |bs|
    ensures FirstBreakIn(bs, k, p).Some? ==>
              p <= FirstBreakIn(bs, k, p).value && FirstBreakIn(bs, k, p).value + 3 <= p + BlocksSize(bs, k)
    decreases bs, 0, k
  {
    if k > 0 {
      FirstBreakInsideBlocks(bs, k - 1, p);
      assert (bs decreases to bs[k - 1]) && (bs[k - 1] decreases to bs[k - 1].body);
      FirstBreakInside(bs[k - 1].body, BodyLoc(bs, k - 1, p));
    }
  }

  // ---------------------------------------------------------------- simulation

  /** Where the code of a statement may be left: at its end, by NEXT, by BREAK. */
  datatype Exits = Exits(end: int, next: int, brk: int)

  /** How the machine shows the outcome of a statement; k is the number of steps it took. */
  ghost predicate Shows(o: Outcome, m: Machine, x: Exits, fuel: nat, k: nat) {
    match o
    case Normal(st) => m.Running? && m.pc == x.end && m.st == st
    case Broke(st) => m.Running? && m.pc == x.brk && m.st == st
    case Nexted(st) => m.Running? && m.pc == x.next && m.st == st
    case Returned(st) => m == Halted(st)
    case Failed => m == Error
    case OutOfFuel => m.Running? && k >= fuel
  }

  /** Running m for k steps shows outcome o. */
  ghost predicate Behaves(I: Interp, code: seq<int>, m: Machine, k: nat, o: Outcome, x: Exits, fuel: nat) {
    Shows(o, Run(I, code, m, k), x, fuel, k)
  }

  lemma Then(I: Interp, code: seq<int>, m: Machine, k1: nat, m1: Machine, k2: nat, o: Outcome,
                x: Exits, fuel: nat)
    requires Run(I, code, m, k1) == m1 && Behaves(I, code, m1, k2, o, x, fuel)
    ensures Behaves(I, code, m, k1 + k2, o, x, fuel)
  {
    RunAdd(I, code, m, k1, k2);
  }

  /** A statement whose normal end is a GOTO. */
  lemma ThenJump(I: Interp, code: seq<int>, m: Machine, k1: nat, o: Outcome, x: Exits, g: nat, fuel: nat)
    returns (k: nat)
    requires Behaves(I, code, m, k1, o, x.(end := g), fuel)
    requires JumpAt(code, g, GOTO, x.end) && 0 <= x.end < STACKSIZ
    ensures Behaves(I, code, m, k, o, x, fuel)
  {
    k := k1;
    if o.Normal? {
      JumpRuns(I, code, g, x.end, o.st);
      RunAdd(I, code, m, k1, 1);
      k := k1 + 1;
    }
  }

  /** The loop around s is ready: its NEXT destination is in range, and if s has a BREAK of that loop, the
      loop's break cell branches to `out`. */
  predicate Ready(code: seq<int>, s: Stmt, lo: nat, l: Loop, out: int) {
    && 0 <= l.next < STACKSIZ
    && 0 <= out < STACKSIZ
    && (FirstBreak(s, lo).Some? ==> l.brk > 0 && JumpAt(code, l.brk, GOTO, out))
  }

  lemma {:induction false} FirstBreakInBlock(bs: seq<Block>, k: nat, p: nat, i: nat)
    requires i < k <= |bs|
    requires FirstBreak(bs[i].body, BodyLoc(bs, i, p)).Some?
    ensures FirstBreakIn(bs, k, p).Some?
    decreases k
  {
    if i < k - 1 { FirstBreakInBlock(bs, k - 1, p, i); }
  }

  lemma {:induction false} Simulates(I: Interp, code: seq<int>, s: Stmt, lo: nat, l: Loop, out: int,
                                        st: State, fuel: nat) returns (k: nat)
    requires WellFormed(s) && |code| == STACKSIZ && lo + Size(s) < STACKSIZ
    requires Laid(code, s, lo, l) && Ready(code, s, lo, l, out)
    ensures Behaves(I, code, Running(lo, st), k, Exec(I, s, st, fuel), Exits(lo + Size(s), l.next, out), fuel)
    decreases fuel, s, 1
  {
    match s
    case Plain(ins) => k := PlainRuns(I, code, ins, lo, st);
    case Seq(_, _) => k := SimulatesSeq(I, code, s, lo, l, out, st, fuel);
    case If(_, _) => k := SimulatesIf(I, code, s, lo, l, out, st, fuel);
    case IfElse(_, _, _) => k := SimulatesIfElse(I, code, s, lo, l, out, st, fuel);
    case While(_, _) => k := SimulatesLoop(I, code, s, lo, st, fuel, Exits(lo + Size(s), l.next, out));
    case For(_, _, _, _) => k := SimulatesFor(I, code, s, lo, st, fuel, Exits(lo + Size(s), l.next, out));
    case Switch(_, _) => k := SimulatesSwitch(I, code, s, lo, l, out, st, fuel);
    case Next => JumpRuns(I, code, lo, l.next, st); k := 1;
    case Break => k := BreakRuns(I, code, lo, l, out, st);
    case Return => RunOne(I, code, Machine.Running(lo, st)); k := 1;
  }

  lemma BreakRuns(I: Interp, code: seq<int>, lo: nat, l: Loop, out: int, st: State) returns (k: nat)
    requires Laid(code, Break, lo, l) && Ready(code, Break, lo, l, out) && |code| == STACKSIZ
    ensures Run(I, code, Running(lo, st), k) == Running(out, st)
  {
    k := 1;
    if lo == l.brk {
      JumpRuns(I, code, lo, out, st);
    } else {
      JumpRuns(I, code, lo, l.brk, st);
      JumpRuns(I, code, l.brk, out, st);
      RunAdd(I, code, Machine.Running(lo, st), 1, 1);
      k := 2;
    }
  }

  lemma {:induction false} SimulatesSeq(I: Interp, code: seq<int>, s: Stmt, lo: nat, l: Loop, out: int,
                                           st: State, fuel: nat) returns (k: nat)
    requires s.Seq? && WellFormed(s) && |code| == STACKSIZ && lo + Size(s) < STACKSIZ
    requires Laid(code, s, lo, l) && Ready(code, s, lo, l, out)
    ensures Behaves(I, code, Running(lo, st), k, Exec(I, s, st, fuel), Exits(lo + Size(s), l.next, out), fuel)
    decreases fuel, s, 0
  {
    assert SeqLaid(code, s, lo, l);
    k := Simulates(I, code, s.first, lo, l, out, st, fuel);
    match Exec(I, s.first, st, fuel) {
      case Normal(st1) =>
        var mid := lo + Size(s.first);
        var k2 := Simulates(I, code, s.second, mid, l, out, st1, fuel);
        Then(I, code, Machine.Running(lo, st), k, Machine.Running(mid, st1), k2, Exec(I, s.second, st1, fuel),
             Exits(lo + Size(s), l.next, out), fuel);
        k := k + k2;
      case _ =>
    }
  }

  lemma {:induction false} SimulatesIf(I: Interp, code: seq<int>, s: Stmt, lo: nat, l: Loop, out: int,
                                          st: State, fuel: nat) returns (k: nat)
    requires s.If? && WellFormed(s) && |code| == STACKSIZ && lo + Size(s) < STACKSIZ
    requires Laid(code, s, lo, l) && Ready(code, s, lo, l, out)
    ensures Behaves(I, code, Running(lo, st), k, Exec(I, s, st, fuel), Exits(lo + Size(s), l.next, out), fuel)
    decreases fuel, s, 0
  {
    assert IfLaid(code, s, lo, l);
    var p := lo + |s.test| + 3;
    k := TestRuns(I, code, s.test, lo, lo + Size(s), st);
    match Test(I, s.test, st) {
      case None =>
      case Some((t, st1)) =>
        if t {
          var k2 := Simulates(I, code, s.yes, p, l, out, st1, fuel);
          Then(I, code, Machine.Running(lo, st), k, Machine.Running(p, st1), k2, Exec(I, s.yes, st1, fuel),
               Exits(lo + Size(s), l.next, out), fuel);
          k := k + k2;
        }
    }
  }

  lemma {:induction false} SimulatesIfElse(I: Interp, code: seq<int>, s: Stmt, lo: nat, l: Loop, out: int,
                                              st: State, fuel: nat) returns (k: nat)
    requires s.IfElse? && WellFormed(s) && |code| == STACKSIZ && lo + Size(s) < STACKSIZ
    requires Laid(code, s, lo, l) && Ready(code, s, lo, l, out)
    ensures Behaves(I, code, Running(lo, st), k, Exec(I, s, st, fuel), Exits(lo + Size(s), l.next, out), fuel)
    decreases fuel, s, 0
  {
    assert IfElseLaid(code, s, lo, l);
    var x := Exits(lo + Size(s), l.next, out);
    var p := lo + |s.test| + 3;
    var g := p + Size(s.yes);
    k := TestRuns(I, code, s.test, lo, g + 3, st);
    match Test(I, s.test, st) {
      case None =>
      case Some((t, st1)) =>
        var k2;
        if t {
          k2 := Simulates(I, code, s.yes, p, l, out, st1, fuel);
          k2 := ThenJump(I, code, Machine.Running(p, st1), k2, Exec(I, s.yes, st1, fuel), x, g, fuel);
        } else {
          k2 := Simulates(I, code, s.no, g + 3, l, out, st1, fuel);
        }
        Then(I, code, Machine.Running(lo, st), k, Machine.Running(if t then p else g + 3, st1), k2,
             Exec(I, if t then s.yes else s.no, st1, fuel), x, fuel);
        k := k + k2;
    }
  }

  /** Executing the SWITCH instruction itself. */
  lemma SwitchRuns(I: Interp, code: seq<int>, s: Stmt, lo: nat, l: Loop, st: State)
    requires s.Switch? && SwitchLaid(code, s, lo, l) && |code| == STACKSIZ && lo + Size(s) < STACKSIZ
    ensures var sw := lo + |s.selector|;
            var m := Run(I, code, Running(sw, st), 1);
            match I.value(st)
            case None => m == Error
            case Some((v, st1)) =>
              var c := Chosen(s.blocks, v);
              m == Running(if c < |s.blocks| then BodyLoc(s.blocks, c, sw + 6) else sw + 3, st1)
  {
    var bs := s.blocks;
    var sw := lo + |s.selector|;
    RunOne(I, code, Machine.Running(sw, st));
    match I.value(st) {
      case None =>
      case Some((v, st1)) =>
        DispatchChooses(code, bs, sw, l, v);
        var c := Chosen(bs, v);
        if c < |bs| { BlocksSizeMonotone(bs, c, |bs|); }
    }
  }

  lemma {:induction false} SimulatesSwitch(I: Interp, code: seq<int>, s: Stmt, lo: nat, l: Loop, out: int,
                                              st: State, fuel: nat) returns (k: nat)
    requires s.Switch? && WellFormed(s) && |code| == STACKSIZ && lo + Size(s) < STACKSIZ
    requires Laid(code, s, lo, l) && Ready(code, s, lo, l, out)
    ensures Behaves(I, code, Running(lo, st), k, Exec(I, s, st, fuel), Exits(lo + Size(s), l.next, out), fuel)
    decreases fuel, s, 0
  {
    var sw := lo + |s.selector|;
    assert SwitchLaid(code, s, lo, l);
    k := PlainRuns(I, code, s.selector, lo, st);
    match RunPlain(I, s.selector, st) {
      case None =>
      case Some(st1) =>
        var k2 := SimulatesDispatch(I, code, s, lo, l, out, st1, fuel);
        Then(I, code, Machine.Running(lo, st), k, Machine.Running(sw, st1), k2, ExecSwitch(I, s, st1, fuel),
             Exits(lo + Size(s), l.next, out), fuel);
        k := k + k2;
    }
  }

  lemma {:induction false} SimulatesDispatch(I: Interp, code: seq<int>, s: Stmt, lo: nat, l: Loop, out: int,
                                                st: State, fuel: nat) returns (k: nat)
    requires s.Switch? && WellFormed(s) && |code| == STACKSIZ && lo + Size(s) < STACKSIZ
    requires SwitchLaid(code, s, lo, l) && Ready(code, s, lo, l, out)
    ensures Behaves(I, code, Running(lo + |s.selector|, st), k, ExecSwitch(I, s, st, fuel),
                    Exits(lo + Size(s), l.next, out), fuel)
    decreases fuel, s, 0, 2
  {
    var sw := lo + |s.selector|;
    SwitchRuns(I, code, s, lo, l, st);
    k := 1;
    match I.value(st) {
      case None =>
      case Some((v, st1)) =>
        var c := Chosen(s.blocks, v);
        var at := if c < |s.blocks| then BodyLoc(s.blocks, c, sw + 6) else sw + 3;
        var k2 := SimulatesChoice(I, code, s, lo, l, out, st1, fuel, c);
        Then(I, code, Machine.Running(sw, st), 1, Machine.Running(at, st1), k2, ExecSwitch(I, s, st, fuel),
             Exits(lo + Size(s), l.next, out), fuel);
        k := 1 + k2;
    }
  }

  lemma {:induction false} SimulatesChoice(I: Interp, code: seq<int>, s: Stmt, lo: nat, l: Loop, out: int,
                                              st: State, fuel: nat, c: nat) returns (k: nat)
    requires s.Switch? && c <= |s.blocks| && WellFormed(s) && |code| == STACKSIZ && lo + Size(s) < STACKSIZ
    requires SwitchLaid(code, s, lo, l) && Ready(code, s, lo, l, out)
    ensures var sw := lo + |s.selector|;
            var x := Exits(lo + Size(s), l.next, out);
            if c < |s.blocks| then
              Behaves(I, code, Running(BodyLoc(s.blocks, c, sw + 6), st), k, Exec(I, s.blocks[c].body, st, fuel), x, fuel)
            else
              Behaves(I, code, Running(sw + 3, st), k, Normal(st), x, fuel)
    decreases fuel, s, 0, 1
  {
    var p := lo + |s.selector| + 6;
    if c < |s.blocks| {
      BlockIsReady(code, s, lo, l, out, c);
      k := SimulatesBlock(I, code, s.blocks[c].body, BodyLoc(s.blocks, c, p), l, out, st, fuel, lo + Size(s));
    } else {
      JumpRuns(I, code, p - 3, lo + Size(s), st);
      k := 1;
    }
  }

  lemma BlockIsReady(code: seq<int>, s: Stmt, lo: nat, l: Loop, out: int, c: nat)
    requires s.Switch? && c < |s.blocks| && |code| == STACKSIZ && lo + Size(s) < STACKSIZ
    requires SwitchLaid(code, s, lo, l) && Ready(code, s, lo, l, out)
    ensures var body := s.blocks[c].body;
            var q := BodyLoc(s.blocks, c, lo + |s.selector| + 6);
            && q + Size(body) < STACKSIZ
            && Laid(code, body, q, l) && Ready(code, body, q, l, out)
            && JumpAt(code, q + Size(body), GOTO, lo + Size(s))
  {
    var bs := s.blocks;
    var p := lo + |s.selector| + 6;
    assert BlockLaid(code, bs, c, p, l);
    assert BlockAt(code, bs[c], BlockLoc(bs, c, p), l);
    BlocksSizeMonotone(bs, c, |bs|);
    if FirstBreak(bs[c].body, BodyLoc(bs, c, p)).Some? { FirstBreakInBlock(bs, |bs|, p, c); }
    assert JumpAt(code, ExitLoc(bs, c, p), GOTO, lo + Size(s));
  }

  /** A block's body followed by the GOTO that leaves the switch. */
  lemma {:induction false} SimulatesBlock(I: Interp, code: seq<int>, body: Stmt, q: nat, l: Loop, out: int,
                                             st: State, fuel: nat, hi: nat) returns (k: nat)
    requires WellFormed(body) && |code| == STACKSIZ && q + Size(body) < STACKSIZ && hi < STACKSIZ
    requires Laid(code, body, q, l) && Ready(code, body, q, l, out) && JumpAt(code, q + Size(body), GOTO, hi)
    ensures Behaves(I, code, Running(q, st), k, Exec(I, body, st, fuel), Exits(hi, l.next, out), fuel)
    decreases fuel, body, 2
  {
    k := Simulates(I, code, body, q, l, out, st, fuel);
    k := ThenJump(I, code, Machine.Running(q, st), k, Exec(I, body, st, fuel), Exits(hi, l.next, out),
                  q + Size(body), fuel);
  }

  lemma {:induction false} SimulatesFor(I: Interp, code: seq<int>, s: Stmt, lo: nat, st: State, fuel: nat,
                                           x: Exits) returns (k: nat)
    requires s.For? && WellFormed(s) && |code| == STACKSIZ && lo + Size(s) < STACKSIZ
    requires ForLaid(code, s, lo) && x.end == lo + Size(s)
    ensures Behaves(I, code, Running(lo, st), k, Exec(I, s, st, fuel), x, fuel)
    decreases fuel, s, 0, 1
  {
    k := PlainRuns(I, code, s.init, lo, st);
    match RunPlain(I, s.init, st) {
      case None =>
      case Some(st1) =>
        var k2 := SimulatesLoop(I, code, s, lo, st1, fuel, x);
        Then(I, code, Machine.Running(lo, st), k, Machine.Running(LoopLoc(s, lo), st1), k2,
             ExecLoop(I, s, st1, fuel), x, fuel);
        k := k + k2;
    }
  }

  /** Where the test of a loop starts. */
  function LoopLoc(s: Stmt, lo: nat): nat
    requires s.While? || s.For?
  {
    if s.While? then lo else lo + |s.init|
  }

  ghost predicate LoopLaid(code: seq<int>, s: Stmt, lo: nat) {
    (s.While? && WhileLaid(code, s, lo)) || (s.For? && ForLaid(code, s, lo))
  }

  /** The test of a loop, up to the first cell of the body when it holds. */
  lemma LoopTestRuns(I: Interp, code: seq<int>, s: Stmt, lo: nat, st: State) returns (k: nat)
    requires LoopLaid(code, s, lo) && WellFormed(s) && |code| == STACKSIZ && lo + Size(s) < STACKSIZ
    ensures var m := Run(I, code, Running(LoopLoc(s, lo), st), k);
            match Until(I, LoopTest(s), st)
            case None => m == Error
            case Some((b, st1)) => m == Running(if b then BodyStart(s, lo) else lo + Size(s), st1)
  {
    if s.While? {
      k := TestRuns(I, code, s.test, lo, lo + Size(s), st);
    } else {
      k := ForTestRuns(I, code, s.init, s.until, s.incr, lo, lo + Size(s), st);
    }
  }

  lemma ForTestRuns(I: Interp, code: seq<int>, init: Code, until: Option<Code>, incr: Code,
                       lo: nat, hi: int, st: State) returns (k: nat)
    requires ForHeadAt(code, init, until, incr, lo, hi) && |code| == STACKSIZ
    requires lo + |init| + UntilSize(until) + 3 + |incr| + 3 <= hi < STACKSIZ
    requires until.Some? ==> Straight(until.value)
    ensures var m := Run(I, code, Running(lo + |init|, st), k);
            var p := lo + |init| + UntilSize(until) + 3 + |incr| + 3;
            match Until(I, until, st)
            case None => m == Error
            case Some((b, st1)) => m == Running(if b then p else hi, st1)
  {
    var l1 := lo + |init|;
    var g := l1 + UntilSize(until);
    if until.Some? {
      k := TestRuns(I, code, until.value, l1, hi, st);
    } else {
      k := 0;
    }
    match Until(I, until, st) {
      case None =>
      case Some((b, st1)) =>
        if b {
          JumpRuns(I, code, g, g + 3 + |incr| + 3, st1);
          RunAdd(I, code, Machine.Running(l1, st), k, 1);
          k := k + 1;
        }
    }
  }

  /** What a `for` does whose BIFF was never given a destination, its body holding one without a test: the test is
      made, but the body is entered whether it is true or false, so the loop does not end there. */
  lemma TestIgnored(I: Interp, code: seq<int>, init: Code, test: Code, incr: Code, lo: nat, st: State)
    returns (k: nat)
    requires Straight(test) && |code| == STACKSIZ
    requires var g := lo + |init| + |test| + 3;
             ForHeadAt(code, init, Some(test), incr, lo, g) && g + 3 + |incr| + 3 < STACKSIZ
    ensures var m := Run(I, code, Running(lo + |init|, st), k);
            match Test(I, test, st)
            case None => m == Error
            case Some((b, st1)) => m == Running(lo + |init| + |test| + 6 + |incr| + 3, st1)
  {
    var l1, g := lo + |init|, lo + |init| + |test| + 3;
    k := TestRuns(I, code, test, l1, g, st);
    match Test(I, test, st) {
      case None =>
      case Some((b, st1)) =>
        JumpRuns(I, code, g, g + 3 + |incr| + 3, st1);
        RunAdd(I, code, Machine.Running(l1, st), k, 1);
        k := k + 1;
    }
  }

  /** From the cell NEXT goes to, back to the test. */
  lemma NextRuns(I: Interp, code: seq<int>, s: Stmt, lo: nat, st: State) returns (k: nat)
    requires LoopLaid(code, s, lo) && |code| == STACKSIZ && lo + Size(s) < STACKSIZ
    requires Straight(LoopIncr(s))
    ensures var m := Run(I, code, Running(NextLoc(s, lo), st), k);
            match RunPlain(I, LoopIncr(s), st)
            case None => m == Error
            case Some(st1) => m == Running(LoopLoc(s, lo), st1)
  {
    k := 0;
    if s.For? { k := IncrRuns(I, code, s.incr, NextLoc(s, lo), LoopLoc(s, lo), st); }
  }

  lemma IncrRuns(I: Interp, code: seq<int>, incr: Code, p: nat, dest: int, st: State) returns (k: nat)
    requires Straight(incr) && PlainAt(code, p, incr)
    requires JumpAt(code, p + |incr|, GOTO, dest) && 0 <= dest < STACKSIZ
    ensures var m := Run(I, code, Running(p, st), k);
            match RunPlain(I, incr, st)
            case None => m == Error
            case Some(st1) => m == Running(dest, st1)
  {
    k := PlainRuns(I, code, incr, p, st);
    match RunPlain(I, incr, st) {
      case None =>
      case Some(st1) =>
        JumpRuns(I, code, p + |incr|, dest, st1);
        RunAdd(I, code, Machine.Running(p, st), k, 1);
        k := k + 1;
    }
  }

  lemma {:induction false} SimulatesLoop(I: Interp, code: seq<int>, s: Stmt, lo: nat, st: State, fuel: nat,
                                            x: Exits) returns (k: nat)
    requires LoopLaid(code, s, lo) && WellFormed(s) && |code| == STACKSIZ && lo + Size(s) < STACKSIZ
    requires x.end == lo + Size(s)
    ensures Behaves(I, code, Running(LoopLoc(s, lo), st), k, ExecLoop(I, s, st, fuel), x, fuel)
    decreases fuel, s, 0, 0
  {
    k := 0;
    if fuel > 0 {
      k := LoopTestRuns(I, code, s, lo, st);
      match Until(I, LoopTest(s), st) {
        case None =>
        case Some((b, st1)) =>
          if b {
            var k1 := SimulatesTurn(I, code, s, lo, st1, fuel, x);
            Then(I, code, Machine.Running(LoopLoc(s, lo), st), k, Machine.Running(BodyStart(s, lo), st1), k1,
                 Turn(I, s, Exec(I, s.body, st1, fuel), fuel), x, fuel);
            k := k + k1;
          }
      }
    }
  }

  lemma BodyIsReady(code: seq<int>, s: Stmt, lo: nat)
    requires LoopLaid(code, s, lo) && |code| == STACKSIZ && lo + Size(s) < STACKSIZ
    ensures var p := BodyStart(s, lo);
            var hi := lo + Size(s);
            var l := Loop(NextLoc(s, lo), BreakCell(0, s.body, p));
            && p + Size(s.body) == hi - 3
            && Laid(code, s.body, p, l) && Ready(code, s.body, p, l, hi)
            && JumpAt(code, hi - 3, GOTO, NextLoc(s, lo))
  {
    assert BodyLaid(code, s, lo);
    FirstBreakInside(s.body, BodyStart(s, lo));
  }

  /** The body and the GOTO after it: unless it leaves the loop, the body ends at the cell NEXT goes to. */
  lemma {:induction false} BodyRuns(I: Interp, code: seq<int>, s: Stmt, lo: nat, st: State, fuel: nat)
    returns (k: nat)
    requires LoopLaid(code, s, lo) && WellFormed(s) && |code| == STACKSIZ && lo + Size(s) < STACKSIZ
    ensures Behaves(I, code, Running(BodyStart(s, lo), st), k, Exec(I, s.body, st, fuel),
                    Exits(NextLoc(s, lo), NextLoc(s, lo), lo + Size(s)), fuel)
    decreases fuel, s.body, 2
  {
    BodyIsReady(code, s, lo);
    var p := BodyStart(s, lo);
    var hi := lo + Size(s);
    k := Simulates(I, code, s.body, p, Loop(NextLoc(s, lo), BreakCell(0, s.body, p)), hi, st, fuel);
    k := ThenJump(I, code, Machine.Running(p, st), k, Exec(I, s.body, st, fuel),
                  Exits(NextLoc(s, lo), NextLoc(s, lo), hi), hi - 3, fuel);
  }

  /** One turn of the loop from the first cell of its body. */
  lemma {:induction false} SimulatesTurn(I: Interp, code: seq<int>, s: Stmt, lo: nat, st: State, fuel: nat,
                                            x: Exits) returns (k: nat)
    requires LoopLaid(code, s, lo) && WellFormed(s) && |code| == STACKSIZ && lo + Size(s) < STACKSIZ
    requires x.end == lo + Size(s) && fuel > 0
    ensures Behaves(I, code, Running(BodyStart(s, lo), st), k, Turn(I, s, Exec(I, s.body, st, fuel), fuel), x, fuel)
    decreases fuel, s.body, 3
  {
    var o := Exec(I, s.body, st, fuel);
    k := BodyRuns(I, code, s, lo, st, fuel);
    if o.Normal? || o.Nexted? {
      var k1 := SimulatesAgain(I, code, s, lo, o.st, fuel - 1, x);
      TurnGoesOn(I, code, Machine.Running(BodyStart(s, lo), st), k, o, x, NextLoc(s, lo), k1,
                 LoopAgain(I, s, o.st, fuel - 1), fuel);
      k := k + k1;
    }
  }

  lemma TurnGoesOn(I: Interp, code: seq<int>, m: Machine, k: nat, o: Outcome, x: Exits, next: nat,
                      k1: nat, again: Outcome, fuel: nat)
    requires (o.Normal? || o.Nexted?) && fuel > 0 && m.Running? && m.pc != next
    requires Behaves(I, code, m, k, o, Exits(next, next, x.end), fuel)
    requires Behaves(I, code, Running(next, o.st), k1, again, x, fuel - 1)
    ensures Behaves(I, code, m, k + k1, again, x, fuel)
  {
    RunAdd(I, code, m, k, k1);
  }

  lemma {:induction false} SimulatesAgain(I: Interp, code: seq<int>, s: Stmt, lo: nat, st: State, fuel: nat,
                                             x: Exits) returns (k: nat)
    requires LoopLaid(code, s, lo) && WellFormed(s) && |code| == STACKSIZ && lo + Size(s) < STACKSIZ
    requires x.end == lo + Size(s)
    ensures Behaves(I, code, Running(NextLoc(s, lo), st), k, LoopAgain(I, s, st, fuel), x, fuel)
    decreases fuel, s, 2
  {
    k := NextRuns(I, code, s, lo, st);
    match RunPlain(I, LoopIncr(s), st) {
      case None =>
      case Some(st1) =>
        var k1 := SimulatesLoop(I, code, s, lo, st1, fuel, x);
        Then(I, code, Machine.Running(NextLoc(s, lo), st), k, Machine.Running(LoopLoc(s, lo), st1), k1,
             ExecLoop(I, s, st1, fuel), x, fuel);
        k := k + k1;
    }
  }

  // ---------------------------------------------------------------- whole programs

  lemma {:induction false} NoFreeBreak(s: Stmt, lo: nat)
    requires Legal(s, 0)
    ensures FirstBreak(s, lo) == None
    decreases s, 1
  {
    match s
    case Seq(a, b) =>
      NoFreeBreak(a, lo);
      NoFreeBreak(b, lo + Size(a));
    case If(e, a) => NoFreeBreak(a, lo + |e| + 3);
    case IfElse(e, a, b) =>
      NoFreeBreak(a, lo + |e| + 3);
      NoFreeBreak(b, lo + |e| + 3 + Size(a) + 3);
    case Switch(e, bs) => NoFreeBreakIn(bs, |bs|, lo + |e| + 6);
    case _ =>
  }

  lemma {:induction false} NoFreeBreakIn(bs: seq<Block>, k: nat, p: nat)
    requires k <= |bs| && LegalBlocks(bs, |bs|, 0)
    ensures FirstBreakIn(bs, k, p) == None
    decreases bs, 0, k
  {
    if k > 0 {
      NoFreeBreakIn(bs, k - 1, p);
      assert (bs decreases to bs[k - 1]) && (bs[k - 1] decreases to bs[k - 1].body);
      NoFreeBreak(bs[k - 1].body, BodyLoc(bs, k - 1, p));
    }
  }

  ghost predicate Stays(o: Outcome) {
    !o.Nexted? && !o.Broke?
  }

  lemma {:induction false} NoStrayJump(I: Interp, s: Stmt, st: State, fuel: nat)
    requires Legal(s, 0)
    ensures Stays(Exec(I, s, st, fuel))
    decreases s
  {
    match s
    case Seq(a, b) =>
      NoStrayJump(I, a, st, fuel);
      var o := Exec(I, a, st, fuel);
      if o.Normal? { NoStrayJump(I, b, o.st, fuel); }
    case If(e, a) =>
      var t := Test(I, e, st);
      if t.Some? { NoStrayJump(I, a, t.value.1, fuel); }
    case IfElse(e, a, b) =>
      var t := Test(I, e, st);
      if t.Some? {
        NoStrayJump(I, a, t.value.1, fuel);
        NoStrayJump(I, b, t.value.1, fuel);
      }
    case While(_, _) => LoopStays(I, s, st, fuel);
    case For(i, _, _, _) =>
      var r := RunPlain(I, i, st);
      if r.Some? { LoopStays(I, s, r.value, fuel); }
    case Switch(e, bs) =>
      var r := RunPlain(I, e, st);
      if r.Some? {
        var v := I.value(r.value);
        if v.Some? {
          var k := Chosen(bs, v.value.0);
          if k < |bs| { NoStrayJump(I, bs[k].body, v.value.1, fuel); }
        }
        assert Stays(ExecSwitch(I, s, r.value, fuel));
      }
    case _ =>
  }

  lemma {:induction false} LoopStays(I: Interp, s: Stmt, st: State, fuel: nat)
    requires s.While? || s.For?
    ensures Stays(ExecLoop(I, s, st, fuel))
    decreases fuel
  {
    if fuel > 0 {
      var t := Until(I, LoopTest(s), st);
      if t.Some? {
        var o := Exec(I, s.body, t.value.1, fuel);
        assert ExecLoop(I, s, st, fuel) == if t.value.0 then Turn(I, s, o, fuel) else Normal(t.value.1);
        if o.Normal? || o.Nexted? {
          var r := RunPlain(I, LoopIncr(s), o.st);
          if r.Some? { LoopStays(I, s, r.value, fuel - 1); }
          assert Stays(LoopAgain(I, s, o.st, fuel - 1));
        }
      }
    }
  }

  /** The stopped machine that shows an outcome of a whole program. */
  ghost predicate Finishes(o: Outcome, m: Machine) {
    match o
    case Normal(st) => m == Halted(st)
    case Returned(st) => m == Halted(st)
    case Failed => m == Error
    case _ => false
  }

  /** The cells from lo on hold the program s, closed by END as the parser closes every program. */
  ghost predicate ProgramLaid(code: seq<int>, s: Stmt, lo: nat) {
    && |code| == STACKSIZ && lo + Size(s) < STACKSIZ
    && Laid(code, s, lo, Loop(0, 0)) && InstrAt(code, lo + Size(s), END, 2)
  }

  /** With enough fuel the machine is as far as the source, stopped when the source is finished. */
  lemma ProgramSimulates(I: Interp, code: seq<int>, s: Stmt, lo: nat, st: State, fuel: nat) returns (k: nat)
    requires WellFormed(s) && Legal(s, 0) && ProgramLaid(code, s, lo)
    ensures var o := Exec(I, s, st, fuel);
            var m := Run(I, code, Running(lo, st), k);
            if o.OutOfFuel? then m.Running? && k >= fuel else Finishes(o, m)
  {
    NoFreeBreak(s, lo);
    NoStrayJump(I, s, st, fuel);
    k := Simulates(I, code, s, lo, Loop(0, 0), 0, st, fuel);
    var o := Exec(I, s, st, fuel);
    if o.Normal? {
      RunOne(I, code, Machine.Running(lo + Size(s), o.st));
      RunAdd(I, code, Machine.Running(lo, st), k, 1);
      k := k + 1;
    }
  }

  lemma StopIsUnique(I: Interp, code: seq<int>, m: Machine, a: nat, b: nat)
    requires !Run(I, code, m, a).Running? && a <= b
    ensures Run(I, code, m, b) == Run(I, code, m, a)
  {
    RunAdd(I, code, m, a, b - a);
    StoppedStays(I, code, Run(I, code, m, a), b - a);
  }

  /** Compiler correctness: the machine stops in a given way exactly when the source program finishes that way,
      so it also runs forever exactly when the source does. */
  lemma ProgramRuns(I: Interp, code: seq<int>, s: Stmt, lo: nat, st: State, m: Machine)
    requires WellFormed(s) && Legal(s, 0) && ProgramLaid(code, s, lo) && !m.Running?
    ensures (exists k: nat :: Run(I, code, Running(lo, st), k) == m)
            <==> (exists fuel: nat :: Finishes(Exec(I, s, st, fuel), m))
  {
    var m0 := Machine.Running(lo, st);
    if k: nat :| Run(I, code, m0, k) == m {
      var k1 := ProgramSimulates(I, code, s, lo, st, k + 1);
      if k <= k1 { StopIsUnique(I, code, m0, k, k1); } else { StopIsUnique(I, code, m0, k1, k); }
      assert Finishes(Exec(I, s, st, k + 1), m);
    }
    if fuel: nat :| Finishes(Exec(I, s, st, fuel), m) {
      var k1 := ProgramSimulates(I, code, s, lo, st, fuel);
      assert Run(I, code, m0, k1) == m;
    }
  }
}
