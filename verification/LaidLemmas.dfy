/** What the compiler needs to know about laid-out code: it survives writes elsewhere, and it survives the late
    patch of the loop's break cell. */
module LaidLemmas {
  import opened Wrappers
  import opened ClCode
  import opened Simulation

  /** code' agrees with code on [lo, hi), except perhaps on the argument of the break cell. */
  ghost predicate AgreeBut(code: seq<int>, code': seq<int>, lo: nat, hi: nat, brk: int) {
    |code'| == |code| && forall i :: lo <= i < hi && i < |code| && !(brk > 0 && i == brk + 2) ==> code'[i] == code[i]
  }

  /** Two stacks agree below lo and from hi on, except perhaps in cell x. */
  ghost predicate SameOutside(c: seq<int>, c': seq<int>, lo: int, hi: int, x: int) {
    |c'| == |c| && forall i :: 0 <= i < |c| && (i < lo || i >= hi) && i != x ==> c'[i] == c[i]
  }

  lemma PlainKept(code: seq<int>, code': seq<int>, c: Code, lo: nat)
    requires PlainAt(code, lo, c) && AgreeBut(code, code', lo, lo + |c|, 0)
    ensures PlainAt(code', lo, c)
  {
  }

  /** The break cell brk is the first BREAK of s, or no part of the code of s. */
  predicate Apart(s: Stmt, lo: nat, brk: int) {
    brk <= 0 || FirstBreak(s, lo) == Some(brk) || brk + 3 <= lo || lo + Size(s) <= brk
  }

  ghost predicate SameLoop(s: Stmt, lo: nat, l: Loop, l': Loop) {
    l'.next == l.next && (FirstBreak(s, lo).Some? ==> l'.brk == l.brk)
  }

  lemma {:induction false} LaidKept(code: seq<int>, code': seq<int>, s: Stmt, lo: nat, l: Loop, l': Loop)
    requires Laid(code, s, lo, l) && SameLoop(s, lo, l, l') && Apart(s, lo, l'.brk)
    requires AgreeBut(code, code', lo, lo + Size(s), l'.brk)
    ensures Laid(code', s, lo, l')
    decreases s, 1
  {
    match s
    case Plain(c) => PlainKept(code, code', c, lo);
    case Seq(_, _) => SeqKept(code, code', s, lo, l, l');
    case If(_, _) => IfKept(code, code', s, lo, l, l');
    case IfElse(_, _, _) => IfElseKept(code, code', s, lo, l, l');
    case While(_, _) => WhileKept(code, code', s, lo, l'.brk);
    case For(_, _, _, _) => ForKept(code, code', s, lo, l'.brk);
    case Switch(_, _) => SwitchKept(code, code', s, lo, l, l');
    case Next =>
    case Break =>
    case Return =>
  }

  lemma SeqApart(s: Stmt, lo: nat, brk: int)
    requires s.Seq? && Apart(s, lo, brk)
    ensures Apart(s.first, lo, brk) && Apart(s.second, lo + Size(s.first), brk)
    ensures FirstBreak(s.first, lo).Some? || FirstBreak(s.second, lo + Size(s.first)).Some? ==> FirstBreak(s, lo).Some?
  {
    FirstBreakInside(s.first, lo);
    FirstBreakInside(s.second, lo + Size(s.first));
  }

  lemma {:induction false} SeqKept(code: seq<int>, code': seq<int>, s: Stmt, lo: nat, l: Loop, l': Loop)
    requires s.Seq? && SeqLaid(code, s, lo, l) && SameLoop(s, lo, l, l') && Apart(s, lo, l'.brk)
    requires AgreeBut(code, code', lo, lo + Size(s), l'.brk)
    ensures SeqLaid(code', s, lo, l')
    decreases s, 0
  {
    SeqApart(s, lo, l'.brk);
    LaidKept(code, code', s.first, lo, l, l');
    LaidKept(code, code', s.second, lo + Size(s.first), l, l');
  }

  lemma {:induction false} IfKept(code: seq<int>, code': seq<int>, s: Stmt, lo: nat, l: Loop, l': Loop)
    requires s.If? && IfLaid(code, s, lo, l) && SameLoop(s, lo, l, l') && Apart(s, lo, l'.brk)
    requires AgreeBut(code, code', lo, lo + Size(s), l'.brk)
    ensures IfLaid(code', s, lo, l')
    decreases s, 0
  {
    FirstBreakInside(s.yes, lo + |s.test| + 3);
    PlainKept(code, code', s.test, lo);
    LaidKept(code, code', s.yes, lo + |s.test| + 3, l, l');
  }

  lemma IfElseApart(s: Stmt, lo: nat, brk: int)
    requires s.IfElse? && Apart(s, lo, brk)
    ensures var p := lo + |s.test| + 3;
            var q := p + Size(s.yes) + 3;
            && Apart(s.yes, p, brk) && Apart(s.no, q, brk)
            && (brk <= 0 || brk + 3 <= lo || p <= brk) && (brk <= 0 || brk + 3 <= q - 3 || q <= brk)
            && (FirstBreak(s.yes, p).Some? || FirstBreak(s.no, q).Some? ==> FirstBreak(s, lo).Some?)
  {
    FirstBreakInside(s.yes, lo + |s.test| + 3);
    FirstBreakInside(s.no, lo + |s.test| + 3 + Size(s.yes) + 3);
  }

  lemma {:induction false} IfElseKept(code: seq<int>, code': seq<int>, s: Stmt, lo: nat, l: Loop, l': Loop)
    requires s.IfElse? && IfElseLaid(code, s, lo, l) && SameLoop(s, lo, l, l') && Apart(s, lo, l'.brk)
    requires AgreeBut(code, code', lo, lo + Size(s), l'.brk)
    ensures IfElseLaid(code', s, lo, l')
    decreases s, 0
  {
    var p := lo + |s.test| + 3;
    var q := p + Size(s.yes) + 3;
    IfElseApart(s, lo, l'.brk);
    PlainKept(code, code', s.test, lo);
    LaidKept(code, code', s.yes, p, l, l');
    LaidKept(code, code', s.no, q, l, l');
  }

  /** A complete loop owns no cell of the break chain around it. */
  lemma {:induction false} BodyKept(code: seq<int>, code': seq<int>, s: Stmt, lo: nat)
    requires (s.While? || s.For?) && BodyLaid(code, s, lo)
    requires AgreeBut(code, code', lo, lo + Size(s), 0)
    ensures BodyLaid(code', s, lo)
    decreases s, 0, 0
  {
    var p := BodyStart(s, lo);
    var l := Loop(NextLoc(s, lo), BreakCell(0, s.body, p));
    FirstBreakInside(s.body, p);
    LaidKept(code, code', s.body, p, l, l);
  }

  lemma {:induction false} WhileKept(code: seq<int>, code': seq<int>, s: Stmt, lo: nat, brk: int)
    requires s.While? && WhileLaid(code, s, lo) && Apart(s, lo, brk)
    requires AgreeBut(code, code', lo, lo + Size(s), brk)
    ensures WhileLaid(code', s, lo)
    decreases s, 0
  {
    PlainKept(code, code', s.test, lo);
    BodyKept(code, code', s, lo);
  }

  lemma {:induction false} ForKept(code: seq<int>, code': seq<int>, s: Stmt, lo: nat, brk: int)
    requires s.For? && ForLaid(code, s, lo) && Apart(s, lo, brk)
    requires AgreeBut(code, code', lo, lo + Size(s), brk)
    ensures ForLaid(code', s, lo)
    decreases s, 0
  {
    ForHeadKept(code, code', s.init, s.until, s.incr, lo, lo + Size(s));
    BodyKept(code, code', s, lo);
  }

  lemma ForHeadKept(code: seq<int>, code': seq<int>, init: Code, until: Option<Code>, incr: Code,
                    lo: nat, hi: int)
    requires ForHeadAt(code, init, until, incr, lo, hi)
    requires AgreeBut(code, code', lo, lo + |init| + UntilSize(until) + 3 + |incr| + 3, 0)
    ensures ForHeadAt(code', init, until, incr, lo, hi)
  {
    PlainKept(code, code', init, lo);
    if until.Some? { PlainKept(code, code', until.value, lo + |init|); }
    PlainKept(code, code', incr, lo + |init| + UntilSize(until) + 3);
  }

  lemma {:induction false} BreakInOneBlock(bs: seq<Block>, n: nat, p: nat, brk: int, k: nat)
    requires k < n <= |bs|
    requires brk <= 0 || FirstBreakIn(bs, n, p) == Some(brk) || brk + 3 <= p || p + BlocksSize(bs, n) <= brk
    ensures Apart(bs[k].body, BodyLoc(bs, k, p), brk)
    ensures brk <= 0 || brk + 3 <= BodyLoc(bs, k, p) - HeadSize(bs[k]) || BodyLoc(bs, k, p) <= brk
    ensures brk <= 0 || brk + 3 <= ExitLoc(bs, k, p) || ExitLoc(bs, k, p) + 3 <= brk
    ensures FirstBreakIn(bs, n, p) == None ==> FirstBreak(bs[k].body, BodyLoc(bs, k, p)) == None
    decreases n
  {
    FirstBreakInsideBlocks(bs, n, p);
    FirstBreakInsideBlocks(bs, n - 1, p);
    FirstBreakInside(bs[n - 1].body, BodyLoc(bs, n - 1, p));
    BlocksSizeMonotone(bs, k, n);
    if k < n - 1 {
      BlocksSizeMonotone(bs, k, n - 1);
      BreakInOneBlock(bs, n - 1, p, brk, k);
    }
  }

  lemma {:induction false} BlockKept(code: seq<int>, code': seq<int>, bs: seq<Block>, k: nat, p: nat, l: Loop, l': Loop)
    requires k < |bs| && BlockLaid(code, bs, k, p, l)
    requires SameLoop(bs[k].body, BodyLoc(bs, k, p), l, l') && Apart(bs[k].body, BodyLoc(bs, k, p), l'.brk)
    requires l'.brk <= 0 || l'.brk + 3 <= BlockLoc(bs, k, p) || BodyLoc(bs, k, p) <= l'.brk
    requires l'.brk <= 0 || l'.brk + 3 <= ExitLoc(bs, k, p) || ExitLoc(bs, k, p) + 3 <= l'.brk
    requires AgreeBut(code, code', BlockLoc(bs, k, p), ExitLoc(bs, k, p) + 2, l'.brk)
    ensures BlockLaid(code', bs, k, p, l')
    decreases bs, 0, k
  {
    assert (bs decreases to bs[k]) && (bs[k] decreases to bs[k].body);
    HeadKept(code, code', BlockLoc(bs, k, p), bs[k]);
    LaidKept(code, code', bs[k].body, BodyLoc(bs, k, p), l, l');
  }

  lemma HeadKept(code: seq<int>, code': seq<int>, p: nat, b: Block)
    requires HeadAt(code, p, b) && AgreeBut(code, code', p, p + HeadSize(b), 0)
    ensures HeadAt(code', p, b)
  {
  }

  lemma {:induction false} BlocksKept(code: seq<int>, code': seq<int>, bs: seq<Block>, n: nat, p: nat, l: Loop,
        l': Loop)
    requires n <= |bs| && BlocksLaid(code, bs, n, p, l)
    requires l'.next == l.next && (FirstBreakIn(bs, n, p).Some? ==> l'.brk == l.brk)
    requires l'.brk <= 0 || FirstBreakIn(bs, n, p) == Some(l'.brk) || l'.brk + 3 <= p || p + BlocksSize(bs, n) <= l'.brk
    requires AgreeBut(code, code', p, p + BlocksSize(bs, n), l'.brk)
    ensures BlocksLaid(code', bs, n, p, l')
    decreases bs, 1
  {
    forall k | 0 <= k < n ensures BlockLaid(code', bs, k, p, l') {
      assert BlockLaid(code, bs, k, p, l);
      assert BlockAt(code, bs[k], BlockLoc(bs, k, p), l);
      BlocksSizeMonotone(bs, k, n);
      BreakInOneBlock(bs, n, p, l'.brk, k);
      BlockKept(code, code', bs, k, p, l, l');
    }
  }

  lemma ExitsKept(code: seq<int>, code': seq<int>, bs: seq<Block>, p: nat, hi: int, brk: int)
    requires ExitsTo(code, bs, p, hi)
    requires brk <= 0 || FirstBreakIn(bs, |bs|, p) == Some(brk) || brk + 3 <= p || p + BlocksSize(bs, |bs|) <= brk
    requires AgreeBut(code, code', p, p + BlocksSize(bs, |bs|), brk)
    ensures ExitsTo(code', bs, p, hi)
  {
    forall k | 0 <= k < |bs| ensures JumpAt(code', ExitLoc(bs, k, p), GOTO, hi) {
      BlocksSizeMonotone(bs, k, |bs|);
      BreakInOneBlock(bs, |bs|, p, brk, k);
      assert JumpAt(code, ExitLoc(bs, k, p), GOTO, hi);
    }
  }

  lemma TableKept(code: seq<int>, code': seq<int>, bs: seq<Block>, sw: nat, t: nat)
    requires TableAt(code, bs, sw, t) && |code'| == |code|
    requires forall i :: t <= i < t + TableSize(bs) ==> code'[i] == code[i]
    ensures TableAt(code', bs, sw, t)
  {
    forall k | 0 <= k < |bs| && bs[k].Case? ensures EntryAt(code', bs, k, t) {
      assert EntryAt(code, bs, k, t);
      if k > 0 { CasesFromStep(bs, 0, k + 1); }
      CasesFromStep(bs, k, k + 1);
    }
  }

  lemma {:induction false} SwitchKept(code: seq<int>, code': seq<int>, s: Stmt, lo: nat, l: Loop, l': Loop)
    requires s.Switch? && SwitchLaid(code, s, lo, l) && SameLoop(s, lo, l, l') && Apart(s, lo, l'.brk)
    requires AgreeBut(code, code', lo, lo + Size(s), l'.brk)
    ensures SwitchLaid(code', s, lo, l')
    decreases s, 0
  {
    var bs := s.blocks;
    var sw := lo + |s.selector|;
    var t := sw + 6 + BlocksSize(bs, |bs|);
    FirstBreakInsideBlocks(bs, |bs|, sw + 6);
    assert AgreeBut(code, code', lo, sw + 6, 0);
    assert AgreeBut(code, code', sw + 6, t, l'.brk);
    assert AgreeBut(code, code', t, t + TableSize(bs), 0);
    PlainKept(code, code', s.selector, lo);
    BlocksKept(code, code', bs, |bs|, sw + 6, l, l');
    ExitsKept(code, code', bs, sw + 6, lo + Size(s), l'.brk);
    TableKept(code, code', bs, sw, t);
  }

  // ---------------------------------------------------------------- putting statements together

  /** The break cell before s is compiled, and after. */
  ghost predicate BreakBefore(brk: int, lo: int) {
    brk == 0 || 0 < brk <= lo - 3
  }

  lemma BreakCellBounds(brk: int, s: Stmt, lo: nat)
    requires BreakBefore(brk, lo)
    ensures BreakBefore(BreakCell(brk, s, lo), lo + Size(s)) || (lo == 0 && BreakCell(brk, s, lo) == 0)
    ensures Apart(s, lo, BreakCell(brk, s, lo))
    ensures brk == 0 ==> BreakCell(brk, s, lo) == 0 || lo <= BreakCell(brk, s, lo)
    ensures FirstBreak(s, lo).Some? ==> BreakCell(brk, s, lo) != 0 || lo == 0
  {
    FirstBreakInside(s, lo);
  }

  /** a was compiled first; compiling b after it may have given the loop its break cell. */
  lemma EarlierKept(c1: seq<int>, c2: seq<int>, a: Stmt, lo: nat, brk: int, l1: Loop, b: Stmt, lo2: nat, l2: Loop)
    requires BreakBefore(brk, lo) && (lo == 0 ==> FirstBreak(a, lo) == None) && lo + Size(a) <= lo2
    requires l1.brk == BreakCell(brk, a, lo) && l2 == Loop(l1.next, BreakCell(l1.brk, b, lo2))
    requires Laid(c1, a, lo, l1) && AgreeBut(c1, c2, lo, lo + Size(a), 0)
    ensures Laid(c2, a, lo, l2)
  {
    BreakCellBounds(brk, a, lo);
    FirstBreakInside(b, lo2);
    LaidKept(c1, c2, a, lo, l1, l2);
  }

  lemma SeqBreak(s: Stmt, lo: nat, brk: int)
    requires s.Seq? && BreakBefore(brk, lo) && (lo == 0 ==> FirstBreak(s.first, lo) == None)
    ensures BreakCell(BreakCell(brk, s.first, lo), s.second, lo + Size(s.first)) == BreakCell(brk, s, lo)
  {
    FirstBreakInside(s.first, lo);
  }

  lemma IfElseBreak(s: Stmt, lo: nat, brk: int)
    requires s.IfElse? && BreakBefore(brk, lo)
    ensures var p := lo + |s.test| + 3;
            BreakCell(BreakCell(brk, s.yes, p), s.no, p + Size(s.yes) + 3) == BreakCell(brk, s, lo)
  {
    FirstBreakInside(s.yes, lo + |s.test| + 3);
  }

  /** c1 is the code when the first statement is done, c2 when the second is. */
  lemma SeqDone(c1: seq<int>, c2: seq<int>, s: Stmt, lo: nat, brk: int, l1: Loop, l2: Loop, top: int)
    requires s.Seq? && BreakBefore(brk, lo) && (lo == 0 ==> FirstBreak(s.first, lo) == None)
    requires l1.brk == BreakCell(brk, s.first, lo)
        && l2 == Loop(l1.next, BreakCell(l1.brk, s.second, lo + Size(s.first)))
    requires Laid(c1, s.first, lo, l1) && SameOutside(c1, c2, lo + Size(s.first), top, -1)
    requires Laid(c2, s.second, lo + Size(s.first), l2)
    ensures SeqLaid(c2, s, lo, l2)
  {
    var mid := lo + Size(s.first);
    EarlierKept(c1, c2, s.first, lo, brk, l1, s.second, mid, l2);
  }

  /** c0: the test is compiled; c1: the branch is compiled; c2: its BIFF is patched. */
  lemma IfDone(c0: seq<int>, c1: seq<int>, c2: seq<int>, s: Stmt, lo: nat, brk: int, l: Loop)
    requires s.If? && BreakBefore(brk, lo) && l.brk == BreakCell(brk, s.yes, lo + |s.test| + 3)
    requires PlainAt(c0, lo, s.test) && AgreeBut(c0, c2, lo, lo + |s.test|, 0)
    requires Laid(c1, s.yes, lo + |s.test| + 3, l)
    requires AgreeBut(c1, c2, lo + |s.test| + 3, lo + Size(s), 0)
    requires JumpAt(c2, lo + |s.test|, BIFF, lo + Size(s))
    ensures IfLaid(c2, s, lo, l) && l.brk == BreakCell(brk, s, lo)
  {
    var p := lo + |s.test| + 3;
    BreakCellBounds(brk, s.yes, p);
    PlainKept(c0, c2, s.test, lo);
    LaidKept(c1, c2, s.yes, p, l, l);
  }

  /** c1: the test and the first branch are compiled; c2: the second branch too, and both jumps are patched. */
  lemma IfElseDone(c1: seq<int>, c2: seq<int>, s: Stmt, lo: nat, brk: int, l1: Loop, l2: Loop)
    requires s.IfElse? && BreakBefore(brk, lo)
    requires var p := lo + |s.test| + 3;
             var g := p + Size(s.yes);
             && l1.brk == BreakCell(brk, s.yes, p) && l2 == Loop(l1.next, BreakCell(l1.brk, s.no, g + 3))
             && PlainAt(c1, lo, s.test) && AgreeBut(c1, c2, lo, p - 3, 0)
             && Laid(c1, s.yes, p, l1) && AgreeBut(c1, c2, p, g, 0)
             && Laid(c2, s.no, g + 3, l2)
             && JumpAt(c2, p - 3, BIFF, g + 3) && JumpAt(c2, g, GOTO, lo + Size(s))
    ensures IfElseLaid(c2, s, lo, l2)
  {
    var p := lo + |s.test| + 3;
    var q := p + Size(s.yes) + 3;
    PlainKept(c1, c2, s.test, lo);
    EarlierKept(c1, c2, s.yes, p, brk, l1, s.no, q, l2);
  }

  /** c0: the head of a `for` is compiled, its BIFF still branching to the cell after it; c2: the BIFF is patched. */
  lemma ForHeadDone(c0: seq<int>, c2: seq<int>, init: Code, test: Code, incr: Code, lo: nat, hi: int)
    requires var b := lo + |init| + |test|;
             && ForHeadAt(c0, init, Some(test), incr, lo, b + 3)
             && AgreeBut(c0, c2, lo, b, 0) && AgreeBut(c0, c2, b + 3, b + 6 + |incr| + 3, 0)
             && JumpAt(c2, b, BIFF, hi)
    ensures ForHeadAt(c2, init, Some(test), incr, lo, hi)
  {
    var l1 := lo + |init|;
    PlainKept(c0, c2, init, lo);
    PlainKept(c0, c2, test, l1);
    PlainKept(c0, c2, incr, l1 + |test| + 6);
  }

  /** c1: the body is compiled; c2: its GOTO is there and the loop's break cell is patched. */
  lemma BodyDone(c1: seq<int>, c2: seq<int>, s: Stmt, lo: nat, brk: int)
    requires (s.While? || s.For?) && brk == BreakCell(0, s.body, BodyStart(s, lo))
    requires Laid(c1, s.body, BodyStart(s, lo), Loop(NextLoc(s, lo), brk))
    requires AgreeBut(c1, c2, BodyStart(s, lo), BodyStart(s, lo) + Size(s.body), brk)
    requires brk > 0 ==> brk + 2 < |c2| && c2[brk + 2] == lo + Size(s) - brk - 3
    ensures BodyLaid(c2, s, lo)
  {
    var p := BodyStart(s, lo);
    var l := Loop(NextLoc(s, lo), brk);
    BreakCellBounds(0, s.body, p);
    LaidKept(c1, c2, s.body, p, l, l);
    if brk > 0 {
      FirstBreakIsGoto(c2, s.body, p, l);
    }
  }

  lemma {:induction false} FirstBreakIsGoto(code: seq<int>, s: Stmt, lo: nat, l: Loop)
    requires Laid(code, s, lo, l) && FirstBreak(s, lo) == Some(l.brk)
    ensures InstrAt(code, l.brk, GOTO, 3)
    decreases s
  {
    match s
    case Seq(a, b) =>
      assert SeqLaid(code, s, lo, l);
      if FirstBreak(a, lo).Some? { FirstBreakIsGoto(code, a, lo, l); } else { FirstBreakIsGoto(code, b, lo + Size(a), l); }
    case If(e, a) =>
      assert IfLaid(code, s, lo, l);
      FirstBreakIsGoto(code, a, lo + |e| + 3, l);
    case IfElse(e, a, b) =>
      assert IfElseLaid(code, s, lo, l);
      var p := lo + |e| + 3;
      if FirstBreak(a, p).Some? {
        FirstBreakIsGoto(code, a, p, l);
      } else {
        FirstBreakIsGoto(code, b, p + Size(a) + 3, l);
      }
    case Switch(e, bs) =>
      var p := lo + |e| + 6;
      var k := BlockOfBreak(bs, |bs|, p);
      BodyThere(code, s, lo, l, k);
      FirstBreakIsGoto(code, bs[k].body, BodyLoc(bs, k, p), l);
    case _ =>
  }

  lemma BodyThere(code: seq<int>, s: Stmt, lo: nat, l: Loop, k: nat)
    requires s.Switch? && Laid(code, s, lo, l) && k < |s.blocks|
    ensures Laid(code, s.blocks[k].body, BodyLoc(s.blocks, k, lo + |s.selector| + 6), l)
  {
    var p := lo + |s.selector| + 6;
    assert SwitchLaid(code, s, lo, l);
    assert BlocksLaid(code, s.blocks, |s.blocks|, p, l);
    assert BlockLaid(code, s.blocks, k, p, l);
    assert BlockAt(code, s.blocks[k], BlockLoc(s.blocks, k, p), l);
  }

  lemma {:induction false} BlockOfBreak(bs: seq<Block>, n: nat, p: nat) returns (k: nat)
    requires n <= |bs| && FirstBreakIn(bs, n, p).Some?
    ensures k < n && FirstBreak(bs[k].body, BodyLoc(bs, k, p)) == FirstBreakIn(bs, n, p)
    decreases n
  {
    if FirstBreakIn(bs, n - 1, p).Some? { k := BlockOfBreak(bs, n - 1, p); } else { k := n - 1; }
  }

  // ---------------------------------------------------------------- blocks of a switch

  /** The break cell of the enclosing loop once the first n blocks are compiled. */
  function BlocksBreak(brk: int, bs: seq<Block>, n: nat, p: nat): int
    requires n <= |bs|
  {
    if brk != 0 then brk
    else
      var f := FirstBreakIn(bs, n, p);
      if f.Some? then f.value else 0
  }

  lemma BlocksBreakBounds(brk: int, bs: seq<Block>, n: nat, p: nat)
    requires n <= |bs| && p > 0 && BreakBefore(brk, p)
    ensures BreakBefore(BlocksBreak(brk, bs, n, p), p + BlocksSize(bs, n))
    ensures n < |bs| ==> BlocksBreak(brk, bs, n + 1, p)
                           == BreakCell(BlocksBreak(brk, bs, n, p), bs[n].body, BodyLoc(bs, n, p))
  {
    FirstBreakInsideBlocks(bs, n, p);
  }

  /** c1: n blocks are compiled; c2: one more. */
  lemma BlocksStep(c1: seq<int>, c2: seq<int>, bs: seq<Block>, n: nat, p: nat, brk: int, l1: Loop, l2: Loop)
    requires n < |bs| && p > 0 && BreakBefore(brk, p)
    requires l1.brk == BlocksBreak(brk, bs, n, p) && l2 == Loop(l1.next, BlocksBreak(brk, bs, n + 1, p))
    requires BlocksLaid(c1, bs, n, p, l1) && AgreeBut(c1, c2, p, p + BlocksSize(bs, n), 0)
    requires BlockLaid(c2, bs, n, p, l2)
    ensures BlocksLaid(c2, bs, n + 1, p, l2)
  {
    FirstBreakInsideBlocks(bs, n, p);
    FirstBreakInside(bs[n].body, BodyLoc(bs, n, p));
    BlocksKept(c1, c2, bs, n, p, l1, l2);
    forall k | 0 <= k < n + 1 ensures BlockLaid(c2, bs, k, p, l2) {
    }
  }

  // ---------------------------------------------------------------- setswitch

  ghost predicate SameCells(c0: seq<int>, c: seq<int>, from: int, to: int) {
    |c| == |c0| && forall i :: from <= i < to && 0 <= i < |c0| ==> c[i] == c0[i]
  }

  /** The blocks while setswitch is at work: c0 is the stack before it, c now; the exits of blocks he, he + 1, ...
      branch to the end of the table at t. */
  ghost predicate PatchingBlocks(c0: seq<int>, c: seq<int>, bs: seq<Block>, sw: nat, t: nat, he: nat) {
    var p, hi := sw + 6, t + TableSize(bs);
    && SameCells(c0, c, 0, p) && SameCells(c0, c, hi, |c0|)
    && (forall k {:trigger BlockLoc(bs, k, p)} :: 0 <= k < |bs| ==>
          SameCells(c0, c, BlockLoc(bs, k, p), ExitLoc(bs, k, p) + 2))
    && (forall k {:trigger ExitLoc(bs, k, p)} :: he <= k < |bs| && ExitLoc(bs, k, p) + 2 < t <= |c| ==>
          c[ExitLoc(bs, k, p) + 2] == hi - ExitLoc(bs, k, p) - 3)
  }

  /** Blocks and table while setswitch is at work: the table has the entries of blocks hh, hh + 1, ... */
  ghost predicate Patching(c0: seq<int>, c: seq<int>, bs: seq<Block>, sw: nat, t: nat, he: nat, hh: nat)
    requires he <= |bs| && hh <= |bs|
  {
    && t == sw + 6 + BlocksSize(bs, |bs|) && t + TableSize(bs) <= |c|
    && PatchingBlocks(c0, c, bs, sw, t, he)
    && c[t] == DefaultFrom(bs, hh)
    && (forall k {:trigger EntryAt(c, bs, k, t)} :: hh <= k < |bs| && bs[k].Case? ==> EntryAt(c, bs, k, t))
  }

  lemma BlockBefore(bs: seq<Block>, j: nat, k: nat, p: nat)
    requires j < k < |bs|
    ensures BlockLoc(bs, j, p) <= ExitLoc(bs, j, p) && ExitLoc(bs, j, p) + 3 <= BlockLoc(bs, k, p) <= ExitLoc(bs, k, p)
  {
    BlocksSizeMonotone(bs, j + 1, k);
  }

  lemma BlockInside(bs: seq<Block>, k: nat, p: nat)
    requires k < |bs|
    ensures p <= BlockLoc(bs, k, p) && ExitLoc(bs, k, p) + 3 <= p + BlocksSize(bs, |bs|)
  {
    BlocksSizeMonotone(bs, k + 1, |bs|);
  }

  lemma PatchExit(c0: seq<int>, c: seq<int>, c': seq<int>, bs: seq<Block>, sw: nat, t: nat, k: nat)
    requires k < |bs| && Patching(c0, c, bs, sw, t, k + 1, k + 1)
    requires var x := ExitLoc(bs, k, sw + 6) + 2;
             x < |c| && c' == c[x := t + TableSize(bs) - ExitLoc(bs, k, sw + 6) - 3]
    ensures Patching(c0, c', bs, sw, t, k, k + 1)
  {
    var p := sw + 6;
    BlockInside(bs, k, p);
    forall j | 0 <= j < |bs| ensures SameCells(c0, c', BlockLoc(bs, j, p), ExitLoc(bs, j, p) + 2) {
      BlockInside(bs, j, p);
      if j < k { BlockBefore(bs, j, k, p); }
      if k < j { BlockBefore(bs, k, j, p); }
    }
    forall j | k <= j < |bs| && ExitLoc(bs, j, p) + 2 < t
      ensures c'[ExitLoc(bs, j, p) + 2] == t + TableSize(bs) - ExitLoc(bs, j, p) - 3
    {
      if k < j { BlockBefore(bs, k, j, p); }
    }
    EntriesKept(c, c', bs, t, k + 1);
  }

  /** Table entries survive a write outside the table's CASE part, or before the entries written so far. */
  lemma EntriesKept(c: seq<int>, c': seq<int>, bs: seq<Block>, t: nat, from: nat)
    requires from <= |bs| && |c'| == |c|
    requires forall k {:trigger EntryAt(c, bs, k, t)} :: from <= k < |bs| && bs[k].Case? ==> EntryAt(c, bs, k, t)
    requires SameCells(c, c', t + 1, t + 1 + CasesFrom(bs, from))
    ensures forall k {:trigger EntryAt(c', bs, k, t)} :: from <= k < |bs| && bs[k].Case? ==> EntryAt(c', bs, k, t)
  {
    forall k | from <= k < |bs| && bs[k].Case? ensures EntryAt(c', bs, k, t) {
      assert EntryAt(c, bs, k, t);
      CasesFromStep(bs, k, k + 1);
      if from < k + 1 { CasesFromStep(bs, from, k + 1); }
      if from < k { CasesFromStep(bs, from, k); }
    }
  }

  lemma TableWriteKeepsBlocks(c0: seq<int>, c: seq<int>, c': seq<int>, x: nat, bs: seq<Block>, sw: nat,
        t: nat, he: nat, hh: nat)
    requires he <= |bs| && hh <= |bs| && Patching(c0, c, bs, sw, t, he, hh) && t <= x < t + TableSize(bs)
    requires SameOutside(c, c', 0, 0, x)
    ensures PatchingBlocks(c0, c', bs, sw, t, he)
  {
    var p := sw + 6;
    forall k | 0 <= k < |bs| ensures SameCells(c0, c', BlockLoc(bs, k, p), ExitLoc(bs, k, p) + 2) {
      BlocksSizeMonotone(bs, k, |bs|);
    }
  }

  lemma CaseCell(bs: seq<Block>, k: nat)
    requires k < |bs| && bs[k].Case?
    ensures CasesFrom(bs, k) == CasesFrom(bs, k + 1) + 1 && 1 + CasesFrom(bs, k + 1) < TableSize(bs)
  {
    if k > 0 { CasesFromStep(bs, 0, k); }
    CasesFromStep(bs, k, k + 1);
  }

  /** Writing the entry of block k adds it to those of the later blocks. */
  lemma CaseEntries(c: seq<int>, c': seq<int>, bs: seq<Block>, t: nat, k: nat)
    requires k < |bs| && bs[k].Case? && |c'| == |c|
    requires forall j {:trigger EntryAt(c, bs, j, t)} :: k + 1 <= j < |bs| && bs[j].Case? ==> EntryAt(c, bs, j, t)
    requires var x := t + 1 + CasesFrom(bs, k + 1);
             x < |c| && SameOutside(c, c', 0, 0, x) && c'[x] == 6 + BlocksSize(bs, k)
    ensures forall j {:trigger EntryAt(c', bs, j, t)} :: k <= j < |bs| && bs[j].Case? ==> EntryAt(c', bs, j, t)
  {
    EntriesKept(c, c', bs, t, k + 1);
    forall j | k <= j < |bs| && bs[j].Case? ensures EntryAt(c', bs, j, t) {
      assert j == k || k + 1 <= j;
    }
  }

  lemma PatchCase(c0: seq<int>, c: seq<int>, c': seq<int>, bs: seq<Block>, sw: nat, t: nat, k: nat)
    requires k < |bs| && bs[k].Case? && Patching(c0, c, bs, sw, t, k, k + 1)
    requires var x := t + 1 + CasesFrom(bs, k + 1);
             x < |c| && c' == c[x := 6 + BlocksSize(bs, k)]
    ensures Patching(c0, c', bs, sw, t, k, k)
  {
    CaseCell(bs, k);
    TableWriteKeepsBlocks(c0, c, c', t + 1 + CasesFrom(bs, k + 1), bs, sw, t, k, k + 1);
    CaseEntries(c, c', bs, t, k);
    assert FirstDefault(bs, k, |bs|) == FirstDefault(bs, k + 1, |bs|);
  }

  lemma PatchDefault(c0: seq<int>, c: seq<int>, c': seq<int>, bs: seq<Block>, sw: nat, t: nat, k: nat)
    requires k < |bs| && bs[k].Default? && Patching(c0, c, bs, sw, t, k, k + 1)
    requires t < |c| && c' == c[t := 6 + BlocksSize(bs, k)]
    ensures Patching(c0, c', bs, sw, t, k, k)
  {
    TableWriteKeepsBlocks(c0, c, c', t, bs, sw, t, k, k + 1);
    EntriesKept(c, c', bs, t, k + 1);
    assert forall j {:trigger EntryAt(c', bs, j, t)} :: k <= j < |bs| && bs[j].Case? ==> k + 1 <= j;
    assert DefaultFrom(bs, k) == 6 + BlocksSize(bs, k);
  }

  /** The last writes of setswitch: the terminator, the SWITCH's table address and the GOTO after the SWITCH. */
  lemma PatchDone(c0: seq<int>, c: seq<int>, c': seq<int>, bs: seq<Block>, sw: nat, t: nat, l: Loop)
    requires Patching(c0, c, bs, sw, t, 0, 0) && BlocksLaid(c0, bs, |bs|, sw + 6, l)
    requires var z := t + 1 + CasesFrom(bs, 0);
             z < |c| && c' == c[z := 0][sw + 2 := t - sw][sw + 5 := t + TableSize(bs) - sw - 6]
    requires l.brk <= 0 || FirstBreakIn(bs, |bs|, sw + 6) == Some(l.brk) || l.brk + 3 <= sw + 6 || t <= l.brk
    ensures BlocksLaid(c', bs, |bs|, sw + 6, l)
    ensures ExitsTo(c', bs, sw + 6, t + TableSize(bs))
    ensures TableAt(c', bs, sw, t)
  {
    var p := sw + 6;
    forall k | 0 <= k < |bs| ensures BlockLaid(c', bs, k, p, l) {
      BlocksSizeMonotone(bs, k, |bs|);
      BreakInOneBlock(bs, |bs|, p, l.brk, k);
      assert BlockLaid(c0, bs, k, p, l) && SameCells(c0, c, BlockLoc(bs, k, p), ExitLoc(bs, k, p) + 2);
      BlockKept(c0, c', bs, k, p, l, l);
    }
    assert BlocksLaid(c', bs, |bs|, p, l);
    forall k | 0 <= k < |bs| ensures JumpAt(c', ExitLoc(bs, k, p), GOTO, t + TableSize(bs)) {
      BlocksSizeMonotone(bs, k, |bs|);
      assert BlockLaid(c', bs, k, p, l);
      assert BlockAt(c', bs[k], BlockLoc(bs, k, p), l);
    }
    EntriesKept(c, c', bs, t, 0);
  }

  /** What the control-stack entries of a block point at. */
  lemma EntryOps(code: seq<int>, bs: seq<Block>, p: nat, l: Loop, k: nat)
    requires k < |bs| && BlocksLaid(code, bs, |bs|, p, l)
    ensures p <= BlockLoc(bs, k, p) && ExitLoc(bs, k, p) + 3 <= p + BlocksSize(bs, |bs|) <= |code| + 3
    ensures ExitLoc(bs, k, p) + 3 <= |code|
    ensures code[BlockLoc(bs, k, p)] == if bs[k].Case? then CASE else DEFAULT
    ensures code[ExitLoc(bs, k, p)] == GOTO
  {
    assert BlockLaid(code, bs, k, p, l);
    assert BlockAt(code, bs[k], BlockLoc(bs, k, p), l);
    BlocksSizeMonotone(bs, k, |bs|);
    BlocksSizeMonotone(bs, |bs| - 1, |bs|);
    assert BlockLaid(code, bs, |bs| - 1, p, l);
    assert BlockAt(code, bs[|bs| - 1], BlockLoc(bs, |bs| - 1, p), l);
  }
}
