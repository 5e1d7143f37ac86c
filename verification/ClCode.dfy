/** The CL's control-flow statements, the code cells they compile to, and the machine that runs those cells.

    Source: pkg/cl/grammar.y (what each statement emits), pkg/cl/compile.c (instruction lengths),
    pkg/cl/gram.c (jump tables, loop stacks) and pkg/cl/opcodes.c, pkg/cl/exec.c (the interpreter). */
module ClCode {
  import opened Wrappers

  // Opcode numbers, opcodes.h.
  const BIFF := 10
  const CASE := 12
  const DEFAULT := 15
  const END := 18
  const EXEC := 20
  const GOTO := 24
  const INDXINCR := 30
  const SWITCH := 55
  const LASTOP := 60

  const STACKSIZ := 128000

  // ---------------------------------------------------------------- abstract syntax

  /** Straight-line code: the cells of a run of instructions without branches, each of them an opcode, its length
      and its arguments. */
  type Code = seq<int>

  /** The opcodes that neither branch nor leave `run`. */
  predicate StraightOp(op: int) {
    1 <= op <= LASTOP && op !in {BIFF, CASE, DEFAULT, END, EXEC, GOTO, INDXINCR, SWITCH}
  }

  datatype Stmt =
    | Plain(code: Code)
    | Seq(first: Stmt, second: Stmt)
    | If(test: Code, yes: Stmt)
    | IfElse(test: Code, yes: Stmt, no: Stmt)
    | While(test: Code, body: Stmt)
    | For(init: Code, until: Option<Code>, incr: Code, body: Stmt)
    | Switch(selector: Code, blocks: seq<Block>)
    | Next
    | Break
    | Return

  datatype Block =
    | Case(values: seq<int>, body: Stmt)
    | Default(body: Stmt)

  predicate Straight(code: Code) {
    code == [] || (FirstInstr(code) && StraightOp(code[0]) && Straight(code[code[1]..]))
  }

  predicate FirstInstr(code: Code) {
    2 <= |code| && 2 <= code[1] <= |code|
  }

  // ---------------------------------------------------------------- sizes

  function HeadSize(b: Block): nat {
    if b.Case? then 2 + |b.values| else 2
  }

  function UntilSize(u: Option<Code>): nat {
    if u.Some? then |u.value| + 3 else 0
  }

  /** Number of cells a statement compiles to. */
  function Size(s: Stmt): nat
    decreases s, 1
  {
    match s
    case Plain(code) => |code|
    case Seq(a, b) => Size(a) + Size(b)
    case If(e, a) => |e| + 3 + Size(a)
    case IfElse(e, a, b) => |e| + 3 + Size(a) + 3 + Size(b)
    case While(e, a) => |e| + 3 + Size(a) + 3
    case For(i, u, n, a) => |i| + UntilSize(u) + 3 + |n| + 3 + Size(a) + 3
    case Switch(e, bs) => |e| + 6 + BlocksSize(bs, |bs|) + TableSize(bs)
    case Next => 3
    case Break => 3
    case Return => 2
  }

  /** Cells of the first k CASE and DEFAULT blocks of a switch, each closed by a GOTO. */
  function BlocksSize(bs: seq<Block>, k: nat): nat
    requires k <= |bs|
    decreases bs, 0, k
  {
    if k == 0 then 0
    else BlocksSize(bs, k - 1) + HeadSize(bs[k - 1]) + Size(bs[k - 1].body) + 3
  }

  /** Number of CASE blocks from block k on. */
  function CasesFrom(bs: seq<Block>, k: nat): (n: nat)
    requires k <= |bs|
    ensures n <= |bs| - k
    decreases |bs| - k
  {
    if k == |bs| then 0 else CasesFrom(bs, k + 1) + if bs[k].Case? then 1 else 0
  }

  function TableSize(bs: seq<Block>): nat {
    2 + CasesFrom(bs, 0)
  }

  function BlockLoc(bs: seq<Block>, k: nat, p: nat): nat
    requires k <= |bs|
  {
    p + BlocksSize(bs, k)
  }

  function BodyLoc(bs: seq<Block>, k: nat, p: nat): nat
    requires k < |bs|
  {
    BlockLoc(bs, k, p) + HeadSize(bs[k])
  }

  /** The GOTO that closes block k. */
  function ExitLoc(bs: seq<Block>, k: nat, p: nat): nat
    requires k < |bs|
  {
    BodyLoc(bs, k, p) + Size(bs[k].body)
  }

  // ---------------------------------------------------------------- which statements the parser accepts

  const MAX_LOOP := 50

  /** NEXT and BREAK only inside a loop, loops nested at most MAX_LOOP deep; depth loops are already open. */
  predicate Legal(s: Stmt, depth: nat)
    decreases s
  {
    match s
    case Seq(a, b) => Legal(a, depth) && Legal(b, depth)
    case If(_, a) => Legal(a, depth)
    case IfElse(_, a, b) => Legal(a, depth) && Legal(b, depth)
    case While(_, a) => depth < MAX_LOOP && Legal(a, depth + 1)
    case For(_, _, _, a) => depth < MAX_LOOP && Legal(a, depth + 1)
    case Switch(_, bs) => forall k :: 0 <= k < |bs| ==> Legal(bs[k].body, depth)
    case Next => depth > 0
    case Break => depth > 0
    case _ => true
  }

  predicate LegalBlocks(bs: seq<Block>, n: nat, depth: nat)
    requires n <= |bs|
  {
    forall k :: 0 <= k < n ==> Legal(bs[k].body, depth)
  }

  /** Every straight-line part of s is made of instructions that do not branch. */
  predicate WellFormed(s: Stmt)
    decreases s
  {
    match s
    case Plain(c) => Straight(c)
    case Seq(a, b) => WellFormed(a) && WellFormed(b)
    case If(e, a) => Straight(e) && WellFormed(a)
    case IfElse(e, a, b) => Straight(e) && WellFormed(a) && WellFormed(b)
    case While(e, a) => Straight(e) && WellFormed(a)
    case For(i, u, n, a) => Straight(i) && (u.Some? ==> Straight(u.value)) && Straight(n) && WellFormed(a)
    case Switch(e, bs) => Straight(e) && forall k :: 0 <= k < |bs| ==> WellFormed(bs[k].body)
    case _ => true
  }

  // ---------------------------------------------------------------- the code of a statement

  /** Where NEXT goes, and the location of the GOTO that stands for the loop's first BREAK (0: none). */
  datatype Loop = Loop(next: int, brk: int)

  /** The first BREAK inside s that belongs to the loop around s. */
  function FirstBreak(s: Stmt, lo: nat): Option<nat>
    decreases s, 1
  {
    match s
    case Break => Some(lo)
    case Seq(a, b) =>
      var f := FirstBreak(a, lo);
      if f.Some? then f else FirstBreak(b, lo + Size(a))
    case If(e, a) => FirstBreak(a, lo + |e| + 3)
    case IfElse(e, a, b) =>
      var f := FirstBreak(a, lo + |e| + 3);
      if f.Some? then f else FirstBreak(b, lo + |e| + 3 + Size(a) + 3)
    case Switch(e, bs) => FirstBreakIn(bs, |bs|, lo + |e| + 6)
    case _ => None
  }

  function FirstBreakIn(bs: seq<Block>, k: nat, p: nat): Option<nat>
    requires k <= |bs|
    decreases bs, 0, k
  {
    if k == 0 then None
    else
      var f := FirstBreakIn(bs, k - 1, p);
      if f.Some? then f
      else
        assert (bs decreases to bs[k - 1]) && (bs[k - 1] decreases to bs[k - 1].body);
        FirstBreak(bs[k - 1].body, BodyLoc(bs, k - 1, p))
  }

  /** brkdest[] after compiling s at lo, given its value before. */
  function BreakCell(brk: int, s: Stmt, lo: nat): int {
    if brk != 0 then brk
    else
      var f := FirstBreak(s, lo);
      if f.Some? then f.value else 0
  }

  predicate InstrAt(code: seq<int>, p: nat, op: int, len: nat) {
    p + len <= |code| && 2 <= len && code[p] == op && code[p + 1] == len
  }

  predicate JumpAt(code: seq<int>, p: nat, op: int, dest: int) {
    InstrAt(code, p, op, 3) && code[p + 2] == dest - p - 3
  }

  predicate PlainAt(code: seq<int>, p: nat, c: Code) {
    p + |c| <= |code| && forall j :: 0 <= j < |c| ==> code[p + j] == c[j]
  }

  /** The CASE or DEFAULT operand at the head of block k; a CASE carries its values, last one first. */
  predicate HeadAt(code: seq<int>, p: nat, b: Block) {
    match b
    case Case(vs, _) =>
      InstrAt(code, p, CASE, 2 + |vs|)
      && forall i :: 0 <= i < |vs| ==> code[p + 1 + |vs| - i] == vs[i]
    case Default(_) => InstrAt(code, p, DEFAULT, 2)
  }

  /** The cells [lo, lo + Size(s)) hold the code of s. The argument of the GOTO at l.brk is left open:
      the enclosing loop fills it in. */
  predicate Laid(code: seq<int>, s: Stmt, lo: nat, l: Loop)
    decreases s, 2
  {
    match s
    case Plain(c) => PlainAt(code, lo, c)
    case Seq(_, _) => SeqLaid(code, s, lo, l)
    case If(_, _) => IfLaid(code, s, lo, l)
    case IfElse(_, _, _) => IfElseLaid(code, s, lo, l)
    case While(_, _) => WhileLaid(code, s, lo)
    case For(_, _, _, _) => ForLaid(code, s, lo)
    case Switch(_, _) => SwitchLaid(code, s, lo, l)
    case Next => JumpAt(code, lo, GOTO, l.next)
    case Break => if lo == l.brk then InstrAt(code, lo, GOTO, 3) else JumpAt(code, lo, GOTO, l.brk)
    case Return => InstrAt(code, lo, END, 2)
  }

  predicate SeqLaid(code: seq<int>, s: Stmt, lo: nat, l: Loop)
    requires s.Seq?
    decreases s, 1
  {
    Laid(code, s.first, lo, l) && Laid(code, s.second, lo + Size(s.first), l)
  }

  predicate IfLaid(code: seq<int>, s: Stmt, lo: nat, l: Loop)
    requires s.If?
    decreases s, 1
  {
    var b := lo + |s.test|;
    && PlainAt(code, lo, s.test) && JumpAt(code, b, BIFF, lo + Size(s))
    && Laid(code, s.yes, b + 3, l)
  }

  predicate IfElseLaid(code: seq<int>, s: Stmt, lo: nat, l: Loop)
    requires s.IfElse?
    decreases s, 1
  {
    var b := lo + |s.test|;
    var g := b + 3 + Size(s.yes);
    && PlainAt(code, lo, s.test) && JumpAt(code, b, BIFF, g + 3)
    && Laid(code, s.yes, b + 3, l)
    && JumpAt(code, g, GOTO, lo + Size(s))
    && Laid(code, s.no, g + 3, l)
  }

  predicate WhileLaid(code: seq<int>, s: Stmt, lo: nat)
    requires s.While?
    decreases s, 1
  {
    var b := lo + |s.test|;
    var g := b + 3 + Size(s.body);
    && PlainAt(code, lo, s.test) && JumpAt(code, b, BIFF, g + 3)
    && BodyLaid(code, s, lo)
    && JumpAt(code, g, GOTO, lo)
  }

  predicate ForLaid(code: seq<int>, s: Stmt, lo: nat)
    requires s.For?
    decreases s, 1
  {
    && ForHeadAt(code, s.init, s.until, s.incr, lo, lo + Size(s))
    && BodyLaid(code, s, lo)
    && JumpAt(code, lo + Size(s) - 3, GOTO, NextLoc(s, lo))
  }

  /** The cells of a `for` before its body; hi is the end of the loop. */
  predicate ForHeadAt(code: seq<int>, init: Code, until: Option<Code>, incr: Code, lo: nat, hi: int) {
    var l1 := lo + |init|;
    var g := l1 + UntilSize(until);
    var l3 := g + 3 + |incr| + 3;
    && PlainAt(code, lo, init)
    && (until.Some? ==> PlainAt(code, l1, until.value) && JumpAt(code, g - 3, BIFF, hi))
    && JumpAt(code, g, GOTO, l3)
    && PlainAt(code, g + 3, incr) && JumpAt(code, l3 - 3, GOTO, l1)
  }

  /** The body of a loop, and the loop's break cell once the loop is complete. */
  predicate BodyLaid(code: seq<int>, s: Stmt, lo: nat)
    requires s.While? || s.For?
    decreases s, 0
  {
    var p := BodyStart(s, lo);
    var brk := BreakCell(0, s.body, p);
    && Laid(code, s.body, p, Loop(NextLoc(s, lo), brk))
    && (brk > 0 ==> JumpAt(code, brk, GOTO, lo + Size(s)))
  }

  /** The first cell of a loop body. */
  function BodyStart(s: Stmt, lo: nat): nat
    requires s.While? || s.For?
  {
    if s.While? then lo + |s.test| + 3
    else lo + |s.init| + UntilSize(s.until) + 3 + |s.incr| + 3
  }

  /** nextdest[]: the cell NEXT goes to. */
  function NextLoc(s: Stmt, lo: nat): nat
    requires s.While? || s.For?
  {
    if s.While? then lo else lo + |s.init| + UntilSize(s.until) + 3
  }

  predicate SwitchLaid(code: seq<int>, s: Stmt, lo: nat, l: Loop)
    requires s.Switch?
    decreases s, 1
  {
    var sw := lo + |s.selector|;
    var t := sw + 6 + BlocksSize(s.blocks, |s.blocks|);
    && PlainAt(code, lo, s.selector)
    && JumpAt(code, sw, SWITCH, t + 3) && JumpAt(code, sw + 3, GOTO, lo + Size(s))
    && BlocksLaid(code, s.blocks, |s.blocks|, sw + 6, l)
    && ExitsTo(code, s.blocks, sw + 6, lo + Size(s))
    && TableAt(code, s.blocks, sw, t)
  }

  /** The GOTO that closes each block branches to hi. */
  predicate ExitsTo(code: seq<int>, bs: seq<Block>, p: nat, hi: int) {
    forall k {:trigger ExitLoc(bs, k, p)} :: 0 <= k < |bs| ==> JumpAt(code, ExitLoc(bs, k, p), GOTO, hi)
  }

  /** The first n blocks, each with its closing GOTO. */
  predicate BlocksLaid(code: seq<int>, bs: seq<Block>, n: nat, p: nat, l: Loop)
    requires n <= |bs|
    decreases bs, 1
  {
    forall k {:trigger BlockLaid(code, bs, k, p, l)} :: 0 <= k < n ==> BlockLaid(code, bs, k, p, l)
  }

  predicate BlockLaid(code: seq<int>, bs: seq<Block>, k: nat, p: nat, l: Loop)
    requires k < |bs|
    decreases bs, 0
  {
    BlockAt(code, bs[k], BlockLoc(bs, k, p), l)
  }

  /** A block at q: its operand, its body and its closing GOTO, whose branch is left open. */
  predicate BlockAt(code: seq<int>, b: Block, q: nat, l: Loop)
    decreases b
  {
    && HeadAt(code, q, b)
    && Laid(code, b.body, q + HeadSize(b), l)
    && InstrAt(code, q + HeadSize(b) + Size(b.body), GOTO, 3)
  }

  /** The jump table: first the DEFAULT block (0: none), then the CASE blocks from last to first, then 0.
      All entries are relative to the SWITCH instruction sw. */
  predicate TableAt(code: seq<int>, bs: seq<Block>, sw: nat, t: nat) {
    && t + TableSize(bs) <= |code|
    && code[t] == DefaultFrom(bs, 0)
    && (forall k {:trigger EntryAt(code, bs, k, t)} :: 0 <= k < |bs| && bs[k].Case? ==> EntryAt(code, bs, k, t))
    && code[t + 1 + CasesFrom(bs, 0)] == 0
  }

  /** The table entry of CASE block k comes after those of the later CASE blocks. */
  predicate EntryAt(code: seq<int>, bs: seq<Block>, k: nat, t: nat)
    requires k < |bs|
  {
    var i := t + 1 + CasesFrom(bs, k + 1);
    i < |code| && code[i] == 6 + BlocksSize(bs, k)
  }

  /** Offset of the first DEFAULT block from block k on, 0 if there is none. */
  function DefaultFrom(bs: seq<Block>, k: nat): int
    requires k <= |bs|
  {
    var d := FirstDefault(bs, k, |bs|);
    if d < |bs| then 6 + BlocksSize(bs, d) else 0
  }

  /** The least index i, from <= i < k, of a DEFAULT block; k if there is none. */
  function FirstDefault(bs: seq<Block>, from: nat, k: nat): (d: nat)
    requires from <= k <= |bs|
    ensures from <= d <= k
    decreases k - from
  {
    if from == k then k else if bs[from].Default? then from else FirstDefault(bs, from + 1, k)
  }

  // ---------------------------------------------------------------- meaning of the source

  /** The rest of the CL's state: whatever the instructions that do not branch work on. */
  type State(!new)

  /** What these instructions do to it.
      `test` and `value` pop the operand that BIFF and SWITCH consume; None is a call of cl_error. */
  datatype Interp = Interp(
    exec: (seq<int>, State) -> Option<State>,
    test: State -> Option<(bool, State)>,
    value: State -> Option<(int, State)>)

  datatype Outcome =
    | OutOfFuel
    | Normal(st: State)
    | Broke(st: State)
    | Nexted(st: State)
    | Returned(st: State)
    | Failed

  function RunPlain(I: Interp, c: Code, st: State): Option<State>
    decreases |c|
  {
    if c == [] then Some(st)
    else if !FirstInstr(c) then None
    else
      match I.exec(c[..c[1]], st)
      case None => None
      case Some(st') => RunPlain(I, c[c[1]..], st')
  }

  function Test(I: Interp, e: Code, st: State): Option<(bool, State)> {
    match RunPlain(I, e, st)
    case None => None
    case Some(st') => I.test(st')
  }

  function Until(I: Interp, u: Option<Code>, st: State): Option<(bool, State)> {
    if u.Some? then Test(I, u.value, st) else Some((true, st))
  }

  /** The block a switch enters on v: the last CASE that lists v, else the first DEFAULT, else none (|bs|). */
  function Chosen(bs: seq<Block>, v: int): (k: nat)
    ensures k <= |bs|
  {
    var c := LastCase(bs, |bs|, v);
    if c < |bs| then c else FirstDefault(bs, 0, |bs|)
  }

  /** The greatest index below k of a CASE that lists v; |bs| if there is none. */
  function LastCase(bs: seq<Block>, k: nat, v: int): (c: nat)
    requires k <= |bs|
    ensures c < k || c == |bs|
  {
    if k == 0 then |bs|
    else if bs[k - 1].Case? && v in bs[k - 1].values then k - 1
    else LastCase(bs, k - 1, v)
  }

  /** Big-step meaning of a statement; one unit of fuel is spent on every turn of a loop. */
  function Exec(I: Interp, s: Stmt, st: State, fuel: nat): Outcome
    decreases fuel, s, 1
  {
    match s
    case Plain(c) =>
      (match RunPlain(I, c, st) case None => Failed case Some(st1) => Normal(st1))
    case Seq(a, b) =>
      (match Exec(I, a, st, fuel) case Normal(st1) => Exec(I, b, st1, fuel) case o => o)
    case If(e, a) =>
      (match Test(I, e, st)
       case None => Failed
       case Some((b, st1)) => if b then Exec(I, a, st1, fuel) else Normal(st1))
    case IfElse(e, a, c) =>
      (match Test(I, e, st)
       case None => Failed
       case Some((b, st1)) => if b then Exec(I, a, st1, fuel) else Exec(I, c, st1, fuel))
    case While(e, _) => ExecLoop(I, s, st, fuel)
    case For(i, _, _, _) =>
      (match RunPlain(I, i, st) case None => Failed case Some(st1) => ExecLoop(I, s, st1, fuel))
    case Switch(e, bs) =>
      (match RunPlain(I, e, st)
       case None => Failed
       case Some(st1) => ExecSwitch(I, s, st1, fuel))
    case Next => Nexted(st)
    case Break => Broke(st)
    case Return => Returned(st)
  }

  /** A switch once its selector is on the operand stack. */
  function ExecSwitch(I: Interp, s: Stmt, st: State, fuel: nat): Outcome
    requires s.Switch?
    decreases fuel, s, 0
  {
    match I.value(st)
    case None => Failed
    case Some((v, st1)) =>
      var k := Chosen(s.blocks, v);
      if k < |s.blocks| then Exec(I, s.blocks[k].body, st1, fuel) else Normal(st1)
  }

  function LoopTest(s: Stmt): Option<Code>
    requires s.While? || s.For?
  {
    if s.While? then Some(s.test) else s.until
  }

  function LoopIncr(s: Stmt): Code
    requires s.While? || s.For?
  {
    if s.While? then [] else s.incr
  }

  /** The turns of a loop, from the test on. */
  function ExecLoop(I: Interp, s: Stmt, st: State, fuel: nat): Outcome
    requires s.While? || s.For?
    decreases fuel, s, 0
  {
    if fuel == 0 then OutOfFuel
    else
      match Until(I, LoopTest(s), st)
      case None => Failed
      case Some((b, st1)) =>
        if b then Turn(I, s, Exec(I, s.body, st1, fuel), fuel) else Normal(st1)
  }

  /** What follows the body of a loop whose outcome was o. */
  function Turn(I: Interp, s: Stmt, o: Outcome, fuel: nat): Outcome
    requires (s.While? || s.For?) && fuel > 0
    decreases fuel - 1, s, 3
  {
    match o
    case Broke(st) => Normal(st)
    case Normal(st) => LoopAgain(I, s, st, fuel - 1)
    case Nexted(st) => LoopAgain(I, s, st, fuel - 1)
    case o => o
  }

  function LoopAgain(I: Interp, s: Stmt, st: State, fuel: nat): Outcome
    requires s.While? || s.For?
    decreases fuel, s, 2
  {
    match RunPlain(I, LoopIncr(s), st)
    case None => Failed
    case Some(st1) => ExecLoop(I, s, st1, fuel)
  }

  // ---------------------------------------------------------------- the machine

  datatype Machine = Running(pc: nat, st: State) | Halted(st: State) | Error

  /** o_dogoto: the pc has already been moved past the instruction. */
  function Jump(pc: nat, delta: int, st: State): Machine {
    if 0 <= pc + delta < STACKSIZ then Running(pc + delta, st) else Error
  }

  /** One turn of `run`: fetch, advance the pc by the length cell, execute. */
  function Step(I: Interp, code: seq<int>, m: Machine): Machine {
    if !m.Running? then m
    else if m.pc + 1 >= |code| then Error
    else
      var op, len := code[m.pc], code[m.pc + 1];
      if len < 2 || m.pc + len > |code| then Error
      else if op == END then Halted(m.st)
      else if op in {GOTO, BIFF, SWITCH} then
        if len < 3 then Error else Branch(I, code, op, m.pc, len, m.st)
      else if !StraightOp(op) then Error
      else
        match I.exec(code[m.pc..m.pc + len], m.st)
        case None => Error
        case Some(st') => Running(m.pc + len, st')
  }

  function Branch(I: Interp, code: seq<int>, op: int, pc: nat, len: nat, st: State): Machine
    requires 3 <= len && pc + len <= |code|
  {
    var arg := code[pc + 2];
    if op == GOTO then Jump(pc + len, arg, st)
    else if op == BIFF then
      match I.test(st)
      case None => Error
      case Some((b, st')) => if b then Running(pc + len, st') else Jump(pc + len, arg, st')
    else
      match I.value(st)
      case None => Error
      case Some((v, st')) =>
        match Dispatch(code, pc, arg, v)
        case None => Error
        case Some(dest) => Jump(dest, 0, st')
  }

  /** o_doswitch: the jump table of the SWITCH at sw starts arg cells further on. The result is the new pc,
      None when the table runs off the code array. */
  function Dispatch(code: seq<int>, sw: nat, arg: int, v: int): Option<nat>
    requires sw + 3 <= |code|
  {
    var t := sw + arg;
    if !(0 <= t < |code|) then None
    else
      match ScanTable(code, sw, t + 1, v)
      case None => None
      case Some(c) =>
        if c != 0 then Some(c)
        else if code[t] == 0 then Some(sw + 3)
        else if code[t] + sw < 0 then None
        else Some(code[t] + sw + 2)
  }

  /** The loop over the table from cell i on: first cell after the first CASE operand that lists v, 0 at the
      terminator. */
  function ScanTable(code: seq<int>, sw: nat, i: nat, v: int): Option<nat>
    decreases |code| - i
  {
    if i >= |code| then None
    else if code[i] == 0 then Some(0)
    else
      var c := code[i] + sw;
      if c < 0 || c + 1 >= |code| || c + code[c + 1] > |code| then None
      else if Lists(code, c, v) then Some(c + code[c + 1])
      else ScanTable(code, sw, i + 1, v)
  }

  /** The operand at c lists v among its arguments. */
  predicate Lists(code: seq<int>, c: nat, v: int)
    requires c + 1 < |code| && c + code[c + 1] <= |code|
  {
    exists i :: c + 2 <= i < c + code[c + 1] && code[i] == v
  }

  /** The machine after n steps. */
  function Run(I: Interp, code: seq<int>, m: Machine, n: nat): Machine
    decreases n, 1
  {
    if n == 0 then m else RunOn(I, code, m, n)
  }

  function RunOn(I: Interp, code: seq<int>, m: Machine, n: nat): Machine
    requires n > 0
    decreases n, 0
  {
    Run(I, code, Step(I, code, m), n - 1)
  }
}
