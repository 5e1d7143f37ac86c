/** Calling and returning from tasks: the registers, the frames on the control stack and the dictionary mark, and a
    block-structured meaning without a stack that they refine. Source: pkg/cl/exec.c, stack.c, builtin.c, main.c. */
module TaskStackSpec {
  import opened Wrappers

  /** STACKSIZ, TASKSIZ and maxd. */
  datatype Config = Config(stackSize: int, taskSize: int, maxd: int)

  /** The part of a task frame that calls and returns use; input is t_in. */
  datatype Task = Task(topos: int, basos: int, topcs: int, topd: int, curpack: int, pc: int, input: int)

  /** Registers and frames; frames are found by their address on the control stack. live holds the addresses of the
      dictionary entries in use. */
  datatype Machine = Machine(topos: int, basos: int, topcs: int, topd: int, curpack: int, pc: int,
                             frames: map<int, Task>, current: int, newTask: int, lastFrame: int, live: set<int>)

  const BLANK := Task(0, 0, 0, 0, 0, 0, 0)

  // ---------------------------------------------------------------- the operations

  /** MEMNEED: topd moves up by incr and on to an even address; false if the dictionary is full then. */
  function Aligned(topd: int): int {
    if topd % 2 == 1 then topd + 1 else topd
  }

  function MemNeed(m: Machine, cfg: Config, incr: nat): Option<Machine> {
    var topd := Aligned(m.topd + incr);
    if topd > cfg.maxd then None
    else Some(m.(topd := topd, live := if incr > 0 then m.live + {m.topd} else m.live))
  }

  predicate Even(a: int) {
    a % 2 == 0
  }

  /** b is the first even address at or after a. */
  ghost predicate FirstEven(a: int, b: int) {
    a <= b && Even(b) && forall c :: a <= c < b ==> !Even(c)
  }

  /** An allocation takes topd to the first even address at or after topd + incr, and fails exactly when that is beyond
      maxd. */
  lemma MemNeedIff(m: Machine, cfg: Config, incr: nat, topd: int)
    requires FirstEven(m.topd + incr, topd)
    ensures MemNeed(m, cfg, incr) == None <==> topd > cfg.maxd
    ensures topd <= cfg.maxd ==>
              var live := if incr == 0 then m.live else m.live + {m.topd};
              MemNeed(m, cfg, incr) == Some(m.(topd := topd, live := live))
  {
    EvenIsFirst(m.topd + incr, topd);
  }

  lemma EvenIsFirst(a: int, b: int)
    ensures FirstEven(a, b) <==> b == Aligned(a)
  {
    assert Even(Aligned(a));
  }

  function FrameAt(m: Machine, a: int): Task {
    if a in m.frames then m.frames[a] else BLANK
  }

  /** callnewtask: the registers are saved in the current frame and a frame is pushed for the new task; None is the
      error "task stack overflow". */
  function Call(m: Machine, cfg: Config): Option<Machine> {
    var saved := FrameAt(m, m.current).(topos := m.topos, basos := m.basos, topcs := m.topcs, topd := m.topd, curpack := m.curpack);
    var top := m.topcs - cfg.taskSize;
    if top <= m.topos then None
    else Some(m.(frames := m.frames[m.current := saved], topcs := top, lastFrame := top, newTask := top))
  }

  /** keep: the mark of a task is moved up to topd. */
  function Keep(m: Machine, tp: int): Machine {
    m.(frames := m.frames[tp := FrameAt(m, tp).(topd := m.topd)])
  }

  /** execnewtask: a builtin runs with topd put back and the input of its caller. keepFirst stands for the implicit
      keep when a script called by a script runs cl. */
  function Exec(m: Machine, cfg: Config, builtin: bool, input: int, keepFirst: bool): Machine {
    var m1 := m.(frames := m.frames[m.current := FrameAt(m, m.current).(pc := m.pc)]);
    if builtin then
      var caller := FrameAt(m1, m.current);
      m1.(topd := caller.topd, live := Cut(m.live, caller.topd), current := m.newTask,
          frames := m1.frames[m.newTask := FrameAt(m1, m.newTask).(input := caller.input)])
    else
      var m2 := if keepFirst && m.topcs + 2 * cfg.taskSize <= cfg.stackSize then Keep(m1, m.current + cfg.taskSize) else m1;
      m2.(current := m.newTask, frames := m2.frames[m.newTask := FrameAt(m2, m.newTask).(input := input)])
  }

  function Cut(live: set<int>, mark: int): set<int> {
    set a | a in live && a < mark
  }

  /** poptask: temporaries left above the last frame are forgotten; None is "Control stack underflow". */
  function PopTask(m: Machine, cfg: Config): Option<Machine> {
    if m.topcs > cfg.stackSize - cfg.taskSize then None
    else
      var top := (if m.topcs < m.lastFrame then m.lastFrame else m.topcs) + cfg.taskSize;
      Some(m.(topcs := top, lastFrame := top))
  }

  /** oneof, for a task that is not the first: the frame is popped and restor puts the registers back. */
  function OneOf(m: Machine, cfg: Config): Option<Machine> {
    match PopTask(m, cfg)
    case None => None
    case Some(m1) =>
      var tp := FrameAt(m1, m1.topcs);
      Some(m1.(current := m1.topcs, topos := tp.topos, basos := tp.basos, topcs := tp.topcs, topd := tp.topd,
               curpack := tp.curpack, pc := tp.pc, live := Cut(m1.live, tp.topd)))
  }

  /** The outermost task below the first one that reads the same input as the caller of keep: how many frames above
      the caller; n is the number of frames from the caller up to the first task, not counting it. */
  function Root(m: Machine, cfg: Config, p: int, n: nat): nat {
    if n <= 1 then 0
    else if FrameAt(m, p + (n - 1) * cfg.taskSize).input == FrameAt(m, p).input then n - 1
    else Root(m, cfg, p, n - 1)
  }

  /** The tasks 1 .. n frames above p keep. */
  function KeepAll(m: Machine, cfg: Config, p: int, n: nat): Machine {
    if n == 0 then m else Keep(KeepAll(m, cfg, p, n - 1), p + n * cfg.taskSize)
  }

  /** clkeep, run as the builtin keep; first is the address of the first task. */
  function ClKeep(m: Machine, cfg: Config): Machine {
    var p, first := m.current + cfg.taskSize, cfg.stackSize - cfg.taskSize;
    if p >= first then m
    else if FrameAt(m, p).input == FrameAt(m, first).input then Keep(m, p + cfg.taskSize)
    else if cfg.taskSize <= 0 then m
    else KeepAll(m, cfg, p, Root(m, cfg, p, (first - p) / cfg.taskSize) + 1)
  }

  // ---------------------------------------------------------------- programs

  /** What a task does between calls: compute, or add an entry to the dictionary. */
  datatype Step = Work(topos: int, basos: int, curpack: int, pc: int) | Alloc(incr: nat)

  /** A call has the steps between its CALL and EXEC instructions, the body of the task, and how many temporaries
      are left on the control stack when the task ends. */
  datatype Act = Do(step: Step)
               | KeepCaller
               | KeepCommand
               | Invoke(args: seq<Step>, builtin: bool, input: int, keepFirst: bool, body: Body, temps: nat)

  datatype Body = Done | Then(act: Act, rest: Body)

  function RunStep(m: Machine, cfg: Config, s: Step): Option<Machine> {
    match s
    case Work(topos, basos, curpack, pc) => Some(m.(topos := topos, basos := basos, curpack := curpack, pc := pc))
    case Alloc(incr) => MemNeed(m, cfg, incr)
  }

  function RunSteps(m: Machine, cfg: Config, ss: seq<Step>): Option<Machine>
    decreases |ss|
  {
    if ss == [] then Some(m)
    else
      match RunStep(m, cfg, ss[0])
      case None => None
      case Some(m1) => RunSteps(m1, cfg, ss[1..])
  }

  function RunAct(m: Machine, cfg: Config, a: Act): Option<Machine>
    decreases a, 0
  {
    match a
    case Do(s) => RunStep(m, cfg, s)
    case KeepCaller => Some(Keep(m, m.current + cfg.taskSize))
    case KeepCommand => Some(ClKeep(m, cfg))
    case Invoke(args, builtin, input, keepFirst, body, temps) =>
      match Enter(m, cfg, args, builtin, input, keepFirst)
      case None => None
      case Some(m1) =>
        match RunBody(m1, cfg, body)
        case None => None
        case Some(m2) => OneOf(m2.(topcs := m2.topcs - temps), cfg)
  }

  /** CALL, the steps up to EXEC, and EXEC. */
  function Enter(m: Machine, cfg: Config, args: seq<Step>, builtin: bool, input: int,
        keepFirst: bool): Option<Machine> {
    match Call(m, cfg)
    case None => None
    case Some(m1) =>
      match RunSteps(m1, cfg, args)
      case None => None
      case Some(m2) => Some(Exec(m2, cfg, builtin, input, keepFirst))
  }

  function RunBody(m: Machine, cfg: Config, b: Body): Option<Machine>
    decreases b, 1
  {
    match b
    case Done => Some(m)
    case Then(a, rest) =>
      match RunAct(m, cfg, a)
      case None => None
      case Some(m1) => RunBody(m1, cfg, rest)
  }

  // ---------------------------------------------------------------- the meaning without a stack

  /** topd and the entries in use, the input of the running task, and for its caller, its caller's caller and so on
      the mark and the input. */
  datatype Env = Env(topd: int, live: set<int>, own: int, marks: seq<int>, inputs: seq<int>)

  function StepMeans(e: Env, s: Step): (r: Env)
    ensures r.marks == e.marks && r.inputs == e.inputs && r.own == e.own
  {
    match s
    case Work(_, _, _, _) => e
    case Alloc(incr) => e.(topd := Aligned(e.topd + incr), live := if incr > 0 then e.live + {e.topd} else e.live)
  }

  function StepsMean(e: Env, ss: seq<Step>): (r: Env)
    ensures r.marks == e.marks && r.inputs == e.inputs && r.own == e.own
    decreases |ss|
  {
    if ss == [] then e else StepsMean(StepMeans(e, ss[0]), ss[1..])
  }

  /** The mark of the caller at distance k is moved up to topd. */
  function KeepAt(e: Env, k: nat): (r: Env)
    ensures r.topd == e.topd && r.live == e.live && r.own == e.own && r.inputs == e.inputs && |r.marks| == |e.marks|
  {
    if k < |e.marks| then e.(marks := e.marks[k := e.topd]) else e
  }

  function KeepUpTo(e: Env, n: nat): (r: Env)
    ensures r.topd == e.topd && r.live == e.live && r.own == e.own && r.inputs == e.inputs && |r.marks| == |e.marks|
  {
    if n == 0 then e else KeepAt(KeepUpTo(e, n - 1), n)
  }

  function RootOf(inputs: seq<int>, n: nat): nat
    requires n <= |inputs|
  {
    if n <= 1 then 0 else if inputs[n - 1] == inputs[0] then n - 1 else RootOf(inputs, n - 1)
  }

  /** keep: reading from the input of the first task, only the caller of the script keeps; otherwise all tasks from
      there on out to the caller of the outermost one reading the same input. */
  function KeepMeans(e: Env): (r: Env)
    requires |e.marks| == |e.inputs|
    ensures r.topd == e.topd && r.live == e.live && r.own == e.own && r.inputs == e.inputs && |r.marks| == |e.marks|
  {
    var n := |e.inputs|;
    if n <= 1 then e
    else if e.inputs[0] == e.inputs[n - 1] then KeepAt(e, 1)
    else KeepUpTo(e, RootOf(e.inputs, n - 1) + 1)
  }

  function EnterMeans(e: Env, args: seq<Step>, builtin: bool, input: int, keepFirst: bool): (r: Env)
    ensures |r.marks| == |e.marks| + 1 && r.inputs == [e.own] + e.inputs
  {
    var e1 := StepsMean(e, args);
    if builtin then Env(e.topd, Cut(e1.live, e.topd), e.own, [e.topd] + e.marks, [e.own] + e.inputs)
    else
      var e2 := if keepFirst then KeepAt(e1, 0) else e1;
      Env(e1.topd, e1.live, input, [e.topd] + e2.marks, [e.own] + e.inputs)
  }

  /** A task returns: topd is the mark of its caller. */
  function ReturnMeans(e: Env, own: int): Env
    requires |e.marks| > 0 && |e.inputs| > 0
  {
    Env(e.marks[0], Cut(e.live, e.marks[0]), own, e.marks[1..], e.inputs[1..])
  }

  function ActMeans(e: Env, a: Act): (r: Env)
    requires |e.marks| == |e.inputs|
    ensures |r.marks| == |e.marks| && r.inputs == e.inputs && r.own == e.own
    decreases a, 0
  {
    match a
    case Do(s) => StepMeans(e, s)
    case KeepCaller => KeepAt(e, 0)
    case KeepCommand => KeepMeans(e)
    case Invoke(args, builtin, input, keepFirst, body, temps) =>
      ReturnMeans(BodyMeans(EnterMeans(e, args, builtin, input, keepFirst), body), e.own)
  }

  function BodyMeans(e: Env, b: Body): (r: Env)
    requires |e.marks| == |e.inputs|
    ensures |r.marks| == |e.marks| && r.inputs == e.inputs && r.own == e.own
    decreases b, 1
  {
    match b
    case Done => e
    case Then(a, rest) => BodyMeans(ActMeans(e, a), rest)
  }
}
