/** Balanced calls: the frames on the control stack, the registers and the dictionary mark behave as the
    block-structured meaning says, for every nesting of calls. Source: pkg/cl/exec.c, stack.c, builtin.c. */
module TaskStackProps {
  import opened Arith
  import opened Wrappers
  import opened TaskStackSpec

  /** The address of the frame at nesting depth d; the first task has depth 1. */
  function Addr(cfg: Config, d: nat): int {
    cfg.stackSize - d * cfg.taskSize
  }

  lemma AddrNext(cfg: Config, d: nat)
    ensures Addr(cfg, d + 1) == Addr(cfg, d) - cfg.taskSize
  {
  }

  lemma {:induction false} AddrDiffers(cfg: Config, c: nat, d: nat)
    requires cfg.taskSize > 0 && c < d
    ensures Addr(cfg, d) <= Addr(cfg, c) - cfg.taskSize < Addr(cfg, c)
  {
    assert (d - c - 1) * cfg.taskSize >= 0;
    assert d * cfg.taskSize == c * cfg.taskSize + cfg.taskSize + (d - c - 1) * cfg.taskSize;
  }

  /** The frame of the caller at distance k holds its mark and its input. */
  ghost predicate FrameMeans(m: Machine, cfg: Config, e: Env, k: nat)
    requires k < |e.marks| == |e.inputs|
  {
    var a := Addr(cfg, |e.marks| - k);
    a in m.frames && m.frames[a].topd == e.marks[k] && m.frames[a].input == e.inputs[k]
  }

  /** The machine is in a state with the given meaning: nothing but frames lies on the control stack. */
  ghost predicate Means(m: Machine, cfg: Config, e: Env) {
    && cfg.taskSize > 0 && |e.marks| == |e.inputs|
    && m.topd == e.topd && m.live == e.live
    && m.current == m.topcs == m.lastFrame == Addr(cfg, |e.marks| + 1)
    && m.current in m.frames && m.frames[m.current].input == e.own
    && forall k :: 0 <= k < |e.marks| ==> FrameMeans(m, cfg, e, k)
  }

  /** What a frame holds that only calls of its own task write. */
  ghost predicate SameSaved(s: Task, t: Task) {
    s.topos == t.topos && s.basos == t.basos && s.topcs == t.topcs && s.curpack == t.curpack && s.pc == t.pc
  }

  /** The frames of the callers keep their registers. */
  ghost predicate CallersKept(m: Machine, m': Machine, cfg: Config, depth: nat) {
    forall d :: 1 <= d <= depth && Addr(cfg, d) in m.frames ==>
      Addr(cfg, d) in m'.frames && SameSaved(m.frames[Addr(cfg, d)], m'.frames[Addr(cfg, d)])
  }

  lemma {:induction false} StepsRefine(m: Machine, cfg: Config, ss: seq<Step>, e: Env)
    requires m.topd == e.topd && m.live == e.live
    ensures match RunSteps(m, cfg, ss)
            case None => true
            case Some(m') =>
              var e' := StepsMean(e, ss);
              && m'.topd == e'.topd && m'.live == e'.live && m'.frames == m.frames && m'.current == m.current
              && m'.newTask == m.newTask && m'.lastFrame == m.lastFrame && m'.topcs == m.topcs
    decreases |ss|
  {
    if ss != [] {
      match RunStep(m, cfg, ss[0])
      case None =>
      case Some(m1) => StepsRefine(m1, cfg, ss[1..], StepMeans(e, ss[0]));
    }
  }

  lemma KeepRefines(m: Machine, cfg: Config, e: Env, k: nat)
    requires Means(m, cfg, e) && k < |e.marks|
    ensures Means(Keep(m, Addr(cfg, |e.marks| - k)), cfg, KeepAt(e, k))
    ensures CallersKept(m, Keep(m, Addr(cfg, |e.marks| - k)), cfg, |e.marks|)
  {
    var a := Addr(cfg, |e.marks| - k);
    var m', e' := Keep(m, a), KeepAt(e, k);
    AddrDiffers(cfg, |e.marks| - k, |e.marks| + 1);
    assert FrameMeans(m, cfg, e, k);
    forall j | 0 <= j < |e.marks| ensures FrameMeans(m', cfg, e', j) {
      assert FrameMeans(m, cfg, e, j);
      if j < k { AddrDiffers(cfg, |e.marks| - k, |e.marks| - j); }
      if k < j { AddrDiffers(cfg, |e.marks| - j, |e.marks| - k); }
    }
  }

  lemma CallersKeptTrans(m: Machine, m1: Machine, m2: Machine, cfg: Config, depth: nat)
    requires CallersKept(m, m1, cfg, depth) && CallersKept(m1, m2, cfg, depth)
    ensures CallersKept(m, m2, cfg, depth)
  {
  }

  /** The address of the caller at distance k, counted from the frame p of the nearest caller. */
  lemma CallerAddr(cfg: Config, n: nat, k: nat)
    requires k < n
    ensures Addr(cfg, n) + k * cfg.taskSize == Addr(cfg, n - k)
  {
    assert n * cfg.taskSize == (n - k) * cfg.taskSize + k * cfg.taskSize;
  }

  lemma {:induction false} RootRefines(m: Machine, cfg: Config, e: Env, n: nat)
    requires Means(m, cfg, e) && n <= |e.marks|
    ensures Root(m, cfg, Addr(cfg, |e.marks|), n) == RootOf(e.inputs, n) && (n > 0 ==> RootOf(e.inputs, n) < n)
  {
    if n > 1 {
      CallerAddr(cfg, |e.marks|, n - 1);
      assert FrameMeans(m, cfg, e, n - 1) && FrameMeans(m, cfg, e, 0);
      RootRefines(m, cfg, e, n - 1);
    }
  }

  lemma {:induction false} KeepAllRefines(m: Machine, cfg: Config, e: Env, n: nat)
    requires Means(m, cfg, e) && n < |e.marks|
    ensures Means(KeepAll(m, cfg, Addr(cfg, |e.marks|), n), cfg, KeepUpTo(e, n))
    ensures CallersKept(m, KeepAll(m, cfg, Addr(cfg, |e.marks|), n), cfg, |e.marks|)
  {
    if n > 0 {
      KeepAllRefines(m, cfg, e, n - 1);
      CallerAddr(cfg, |e.marks|, n);
      KeepRefines(KeepAll(m, cfg, Addr(cfg, |e.marks|), n - 1), cfg, KeepUpTo(e, n - 1), n);
    }
  }

  lemma Quotient(t: int, n: nat)
    requires t > 0
    ensures (n * t) / t == n
  {
    var a := n * t;
    var q, r := a / t, a % t;
    assert a == q * t + r && 0 <= r < t;
    assert (n - q) * t == r;
    if n - q >= 1 { MulAtLeast(n - q, 1, t); }
    if q - n >= 1 { MulAtLeast(q - n, 1, t); }
  }

  lemma ClKeepRefines(m: Machine, cfg: Config, e: Env)
    requires Means(m, cfg, e)
    ensures Means(ClKeep(m, cfg), cfg, KeepMeans(e)) && CallersKept(m, ClKeep(m, cfg), cfg, |e.marks|)
  {
    var n := |e.marks|;
    AddrNext(cfg, n);
    if n > 1 {
      AddrDiffers(cfg, 1, n);
      CallerAddr(cfg, n, n - 1);
      CallerAddr(cfg, n, 1);
      assert FrameMeans(m, cfg, e, n - 1) && FrameMeans(m, cfg, e, 0);
      if e.inputs[0] == e.inputs[n - 1] {
        KeepRefines(m, cfg, e, 1);
      } else {
        Quotient(cfg.taskSize, n - 1);
        RootRefines(m, cfg, e, n - 1);
        KeepAllRefines(m, cfg, e, RootOf(e.inputs, n - 1) + 1);
      }
    }
  }

  /** The outermost of the n tasks that reads the same input as the first of them. */
  lemma {:induction false} RootIsOutermost(inputs: seq<int>, n: nat)
    requires 0 < n <= |inputs|
    ensures var r := RootOf(inputs, n);
            r < n && inputs[r] == inputs[0] && forall i :: r < i < n ==> inputs[i] != inputs[0]
  {
    if n > 1 { RootIsOutermost(inputs, n - 1); }
  }

  lemma {:induction false} KeepUpToMarks(e: Env, n: nat, j: nat)
    requires j < |e.marks|
    ensures KeepUpTo(e, n).marks[j] == if 1 <= j <= n then e.topd else e.marks[j]
  {
    if n > 0 { KeepUpToMarks(e, n - 1, j); }
  }

  /** keep, run by the script at distance 0, moves the mark of the task at distance j to topd exactly when that is its
      caller (j == 1) or, unless the script is read from the first task's input, when some task at distance j - 1 or
      more, short of the first, reads the same script. Other marks stay. */
  lemma KeepReaches(e: Env, j: nat)
    requires j < |e.marks| == |e.inputs|
    ensures var first := |e.inputs| - 1;
            KeepMeans(e).marks[j] ==
            if j > 0 && (j == 1 || (e.inputs[0] != e.inputs[first] &&
                                    exists i :: j - 1 <= i < first && e.inputs[i] == e.inputs[0]))
            then e.topd else e.marks[j]
  {
    var n := |e.inputs|;
    if n > 1 && e.inputs[0] != e.inputs[n - 1] {
      RootIsOutermost(e.inputs, n - 1);
      KeepUpToMarks(e, RootOf(e.inputs, n - 1) + 1, j);
    }
  }

  // ---------------------------------------------------------------- call and return

  /** A task starts with the mark of its caller at topd as it was at the CALL. A builtin finds the dictionary as it was
      then, what its arguments needed being given up, and reads its caller's input; another task finds it as the
      arguments left it. */
  lemma TaskStarts(e: Env, args: seq<Step>, builtin: bool, input: int, keepFirst: bool)
    requires forall x :: x in e.live ==> x < e.topd
    ensures var r, e1 := EnterMeans(e, args, builtin, input, keepFirst), StepsMean(e, args);
            && r.marks[0] == e.topd && r.inputs == [e.own] + e.inputs
            && (if builtin then r.topd == e.topd && r.live == e.live && r.own == e.own
                else r.topd == e1.topd && r.live == e1.live && r.own == input)
            && forall k :: 0 <= k < |e.marks| ==>
                 r.marks[k + 1] == if !builtin && keepFirst && k == 0 then e1.topd else e.marks[k]
  {
    StepsGrow(e, args);
  }

  /** A task that keeps for its caller just before it ends leaves it the whole dictionary. */
  lemma KeptReturns(e: Env, own: int)
    requires 0 < |e.marks| == |e.inputs| && forall x :: x in e.live ==> x < e.topd
    ensures var r := ReturnMeans(ActMeans(e, KeepCaller), own);
            r.topd == e.topd && r.live == e.live && r.marks == e.marks[1..] && r.inputs == e.inputs[1..]
  {
    assert Cut(e.live, e.topd) == e.live;
  }

  /** After the EXEC of a call the machine is in the state the call means, and the frame of the caller holds its
      registers and the pc after the EXEC. */
  lemma EnterRefines(m: Machine, cfg: Config, e: Env, args: seq<Step>, builtin: bool, input: int, keepFirst: bool)
    requires Means(m, cfg, e)
    ensures match Enter(m, cfg, args, builtin, input, keepFirst)
            case None => true
            case Some(m') =>
              && Means(m', cfg, EnterMeans(e, args, builtin, input, keepFirst)) && CallersKept(m, m', cfg, |e.marks|)
              && m.current in m'.frames
              && var t := m'.frames[m.current];
                 t.topos == m.topos && t.basos == m.basos && t.topcs == m.topcs && t.curpack == m.curpack
                     && t.pc == m'.pc
  {
    var n := |e.marks|;
    match Call(m, cfg)
    case None =>
    case Some(m1) =>
      StepsRefine(m1, cfg, args, e);
      match RunSteps(m1, cfg, args)
      case None =>
      case Some(m2) =>
        AddrNext(cfg, n);
        AddrNext(cfg, n + 1);
        AddrDiffers(cfg, 0, n + 1);
        var m' := Exec(m2, cfg, builtin, input, keepFirst);
        var e' := EnterMeans(e, args, builtin, input, keepFirst);
        forall k | 0 <= k < |e'.marks| ensures FrameMeans(m', cfg, e', k) {
          AddrDiffers(cfg, n + 1 - k, n + 2);
          if k > 0 {
            assert FrameMeans(m, cfg, e, k - 1);
            AddrDiffers(cfg, n + 1 - k, n + 1);
            if k > 1 { AddrDiffers(cfg, n + 1 - k, n); }
          }
        }
        forall d | 1 <= d <= n && Addr(cfg, d) in m.frames
          ensures Addr(cfg, d) in m'.frames && SameSaved(m.frames[Addr(cfg, d)], m'.frames[Addr(cfg, d)])
        {
          AddrDiffers(cfg, d, n + 1);
          AddrDiffers(cfg, d, n + 2);
        }
  }

  /** At the end of a task, whatever temporaries are left, poptask lands on the frame of the caller. */
  lemma ReturnRefines(m: Machine, cfg: Config, e: Env, temps: nat, own: int)
    requires Means(m, cfg, e) && |e.marks| > 0 && e.inputs[0] == own
    ensures match OneOf(m.(topcs := m.topcs - temps), cfg)
            case None => false
            case Some(m') =>
              var a := Addr(cfg, |e.marks|);
              && a in m.frames && m'.frames == m.frames && m'.current == a && m'.lastFrame == a
              && m'.topd == m.frames[a].topd && SameSaved(m.frames[a], Task(m'.topos, m'.basos, m'.topcs, 0, m'.curpack, m'.pc, 0))
              && (m.frames[a].topcs == a ==> Means(m', cfg, ReturnMeans(e, own)))
  {
    var n := |e.marks|;
    AddrNext(cfg, n);
    AddrDiffers(cfg, 1, n + 1);
    assert FrameMeans(m, cfg, e, 0);
    var m' := OneOf(m.(topcs := m.topcs - temps), cfg).value;
    var e' := ReturnMeans(e, own);
    forall k | 0 <= k < n - 1 ensures FrameMeans(m', cfg, e', k) {
      assert FrameMeans(m, cfg, e, k + 1);
    }
  }

  /** The frame poptask lands on is the caller's exactly when the caller had no temporaries on the control stack at
      its CALL. */
  lemma PopsCallerIff(m: Machine, cfg: Config, temps: nat)
    requires cfg.taskSize > 0 && Call(m, cfg).Some? && m.topcs <= cfg.stackSize - cfg.taskSize
    ensures var m1 := Call(m, cfg).value;
            var r := PopTask(m1.(topcs := m1.topcs - temps), cfg);
            r.Some? && (r.value.topcs == m.current <==> m.topcs == m.current)
  {
  }

  // ---------------------------------------------------------------- whole programs

  /** Over any nesting of calls, each task resumes with its registers and the pc after its EXEC, and topd is its mark,
      as saved at the CALL or as moved by keep. */
  lemma {:induction false} ActRefines(m: Machine, cfg: Config, e: Env, a: Act)
    requires Means(m, cfg, e)
    ensures match RunAct(m, cfg, a)
            case None => true
            case Some(m') =>
              && Means(m', cfg, ActMeans(e, a)) && CallersKept(m, m', cfg, |e.marks|)
              && (a.Invoke? ==> Resumed(m, m', Enter(m, cfg, a.args, a.builtin, a.input, a.keepFirst)))
    decreases a, 0
  {
    match a
    case Do(s) =>
      if RunStep(m, cfg, s).Some? { StepKeeps(m, RunStep(m, cfg, s).value, cfg, e, StepMeans(e, s)); }
    case KeepCaller =>
      AddrNext(cfg, |e.marks|);
      if |e.marks| > 0 { KeepRefines(m, cfg, e, 0); } else { KeepOutside(m, cfg, e); }
    case KeepCommand => ClKeepRefines(m, cfg, e);
    case Invoke(args, builtin, input, keepFirst, body, temps) =>
      EnterRefines(m, cfg, e, args, builtin, input, keepFirst);
      match Enter(m, cfg, args, builtin, input, keepFirst)
      case None =>
      case Some(m1) =>
        var e1 := EnterMeans(e, args, builtin, input, keepFirst);
        BodyRefines(m1, cfg, e1, body);
        match RunBody(m1, cfg, body)
        case None =>
        case Some(m2) =>
          InvokeReturns(m, m1, m2, cfg, e, e1, BodyMeans(e1, body), temps);
  }

  /** The end of a call: m is the machine at the CALL, m1 after the EXEC, m2 at the end of the task. */
  lemma InvokeReturns(m: Machine, m1: Machine, m2: Machine, cfg: Config, e: Env, e1: Env, e2: Env, temps: nat)
    requires Means(m, cfg, e) && Means(m2, cfg, e2) && |e2.marks| == |e.marks| + 1 && e2.inputs == [e.own] + e.inputs
    requires CallersKept(m, m1, cfg, |e.marks|) && CallersKept(m1, m2, cfg, |e.marks| + 1) && m.current in m1.frames
    requires var t := m1.frames[m.current];
             t.topos == m.topos && t.basos == m.basos && t.topcs == m.topcs && t.curpack == m.curpack && t.pc == m1.pc
    ensures var r := OneOf(m2.(topcs := m2.topcs - temps), cfg);
            && r.Some? && Means(r.value, cfg, ReturnMeans(e2, e.own)) && CallersKept(m, r.value, cfg, |e.marks|)
            && Resumed(m, r.value, Some(m1))
  {
    ReturnRefines(m2, cfg, e2, temps, e.own);
    CallersKeptLess(m1, m2, cfg, |e.marks|);
    CallersKeptTrans(m, m1, m2, cfg, |e.marks|);
    assert SameSaved(m1.frames[Addr(cfg, |e.marks| + 1)], m2.frames[Addr(cfg, |e.marks| + 1)]);
  }

  /** The registers of the caller are back, with the pc that the EXEC left. */
  ghost predicate Resumed(m: Machine, m': Machine, entered: Option<Machine>) {
    && m'.topos == m.topos && m'.basos == m.basos && m'.topcs == m.topcs && m'.curpack == m.curpack
    && m'.current == m.current && entered.Some? && m'.pc == entered.value.pc
  }

  lemma StepKeeps(m: Machine, m': Machine, cfg: Config, e: Env, e': Env)
    requires Means(m, cfg, e) && e' == e.(topd := e'.topd, live := e'.live)
    requires m' == m.(topos := m'.topos, basos := m'.basos, curpack := m'.curpack, pc := m'.pc, topd := e'.topd, live := e'.live)
    ensures Means(m', cfg, e') && CallersKept(m, m', cfg, |e.marks|)
  {
    forall k | 0 <= k < |e'.marks| ensures FrameMeans(m', cfg, e', k) {
      assert FrameMeans(m, cfg, e, k);
    }
  }

  /** The first task has no caller: keep writes outside the frames in use. */
  lemma KeepOutside(m: Machine, cfg: Config, e: Env)
    requires Means(m, cfg, e) && |e.marks| == 0
    ensures Means(Keep(m, m.current + cfg.taskSize), cfg, KeepAt(e, 0))
    ensures CallersKept(m, Keep(m, m.current + cfg.taskSize), cfg, 0)
  {
  }

  lemma CallersKeptLess(m: Machine, m': Machine, cfg: Config, depth: nat)
    requires CallersKept(m, m', cfg, depth + 1)
    ensures CallersKept(m, m', cfg, depth)
  {
  }

  lemma {:induction false} BodyRefines(m: Machine, cfg: Config, e: Env, b: Body)
    requires Means(m, cfg, e)
    ensures match RunBody(m, cfg, b)
            case None => true
            case Some(m') => Means(m', cfg, BodyMeans(e, b)) && CallersKept(m, m', cfg, |e.marks|)
    decreases b, 1
  {
    match b
    case Done =>
    case Then(a, rest) =>
      ActRefines(m, cfg, e, a);
      match RunAct(m, cfg, a)
      case None =>
      case Some(m1) =>
        BodyRefines(m1, cfg, ActMeans(e, a), rest);
        match RunBody(m1, cfg, rest)
        case None =>
        case Some(m2) => CallersKeptTrans(m, m1, m2, cfg, |e.marks|);
  }

  // ---------------------------------------------------------------- when a program runs to its end

  /** The top of the operand stack after steps. */
  function ToposAfter(topos: int, ss: seq<Step>): int {
    if ss == [] then topos
    else if ss[|ss| - 1].Work? then ss[|ss| - 1].topos
    else ToposAfter(topos, ss[..|ss| - 1])
  }

  /** There is room in the dictionary for all that the steps allocate. */
  predicate StepsFit(e: Env, cfg: Config, ss: seq<Step>)
    decreases |ss|
  {
    ss != [] ==> (ss[0].Alloc? ==> StepMeans(e, ss[0]).topd <= cfg.maxd) && StepsFit(StepMeans(e, ss[0]), cfg, ss[1..])
  }

  /** There is room in the dictionary, and at every call below the operand stack for one more frame. */
  predicate ActFits(e: Env, cfg: Config, topos: int, a: Act)
    requires |e.marks| == |e.inputs|
    decreases a, 0
  {
    match a
    case Do(s) => StepsFit(e, cfg, [s])
    case KeepCaller => true
    case KeepCommand => true
    case Invoke(args, builtin, input, keepFirst, body, temps) =>
      && topos < Addr(cfg, |e.marks| + 2) && StepsFit(e, cfg, args)
      && BodyFits(EnterMeans(e, args, builtin, input, keepFirst), cfg, ToposAfter(topos, args), body)
  }

  predicate BodyFits(e: Env, cfg: Config, topos: int, b: Body)
    requires |e.marks| == |e.inputs|
    decreases b, 1
  {
    match b
    case Done => true
    case Then(a, rest) =>
      && ActFits(e, cfg, topos, a)
      && BodyFits(ActMeans(e, a), cfg, if a.Do? then ToposAfter(topos, [a.step]) else topos, rest)
  }

  lemma {:induction false} ToposFirst(topos: int, ss: seq<Step>)
    requires ss != []
    ensures ToposAfter(topos, ss) == ToposAfter(ToposAfter(topos, ss[..1]), ss[1..])
    decreases |ss|
  {
    var n := |ss| - 1;
    if n > 0 {
      assert ss[1..][..n - 1] == ss[..n][1..] && ss[..n][..1] == ss[..1];
      ToposFirst(topos, ss[..n]);
    } else {
      assert ss[..1] == ss && ss[1..] == [];
    }
  }

  lemma {:induction false} StepsRunIff(m: Machine, cfg: Config, e: Env, ss: seq<Step>)
    requires m.topd == e.topd && m.live == e.live
    ensures RunSteps(m, cfg, ss).Some? <==> StepsFit(e, cfg, ss)
    ensures RunSteps(m, cfg, ss).Some? ==> RunSteps(m, cfg, ss).value.topos == ToposAfter(m.topos, ss)
    decreases |ss|
  {
    if ss != [] {
      StepsRefine(m, cfg, ss[..1], e);
      ToposFirst(m.topos, ss);
      assert ToposAfter(m.topos, ss[..1]) == if ss[0].Work? then ss[0].topos else m.topos by { assert ss[..1][..0] == []; }
      if RunStep(m, cfg, ss[0]).Some? { StepsRunIff(RunStep(m, cfg, ss[0]).value, cfg, StepMeans(e, ss[0]), ss[1..]); }
    }
  }

  /** A program fails only for want of room: no return ever does. */
  lemma {:induction false} ActRunsIff(m: Machine, cfg: Config, e: Env, a: Act)
    requires Means(m, cfg, e)
    ensures RunAct(m, cfg, a).Some? <==> ActFits(e, cfg, m.topos, a)
    ensures RunAct(m, cfg, a).Some? ==>
              RunAct(m, cfg, a).value.topos == if a.Do? then ToposAfter(m.topos, [a.step]) else m.topos
    decreases a, 0
  {
    ActRefines(m, cfg, e, a);
    match a
    case Do(s) =>
      StepsRunIff(m, cfg, e, [s]);
      OneStep(m, cfg, s);
    case KeepCaller =>
    case KeepCommand => ClKeepTopos(m, cfg);
    case Invoke(args, builtin, input, keepFirst, body, temps) =>
      EnterRunsIff(m, cfg, e, args, builtin, input, keepFirst);
      EnterRefines(m, cfg, e, args, builtin, input, keepFirst);
      match Enter(m, cfg, args, builtin, input, keepFirst)
      case None =>
      case Some(m1) =>
        var e1 := EnterMeans(e, args, builtin, input, keepFirst);
        BodyRunsIff(m1, cfg, e1, body);
        BodyRefines(m1, cfg, e1, body);
        if RunBody(m1, cfg, body).Some? { ReturnRefines(RunBody(m1, cfg, body).value, cfg, BodyMeans(e1, body), temps, e.own); }
  }

  lemma OneStep(m: Machine, cfg: Config, s: Step)
    ensures RunSteps(m, cfg, [s]) == RunStep(m, cfg, s)
  {
    if RunStep(m, cfg, s).Some? { assert RunSteps(RunStep(m, cfg, s).value, cfg, [s][1..]) == RunStep(m, cfg, s); }
  }

  lemma {:induction false} KeepAllTopos(m: Machine, cfg: Config, p: int, n: nat)
    ensures KeepAll(m, cfg, p, n).topos == m.topos
  {
    if n > 0 { KeepAllTopos(m, cfg, p, n - 1); }
  }

  lemma ClKeepTopos(m: Machine, cfg: Config)
    ensures ClKeep(m, cfg).topos == m.topos
  {
    var p, first := m.current + cfg.taskSize, cfg.stackSize - cfg.taskSize;
    if cfg.taskSize > 0 && p < first { KeepAllTopos(m, cfg, p, Root(m, cfg, p, (first - p) / cfg.taskSize) + 1); }
  }

  lemma EnterRunsIff(m: Machine, cfg: Config, e: Env, args: seq<Step>, builtin: bool, input: int, keepFirst: bool)
    requires Means(m, cfg, e)
    ensures var r := Enter(m, cfg, args, builtin, input, keepFirst);
            && (r.Some? <==> m.topos < Addr(cfg, |e.marks| + 2) && StepsFit(e, cfg, args))
            && (r.Some? ==> r.value.topos == ToposAfter(m.topos, args))
  {
    AddrNext(cfg, |e.marks| + 1);
    if Call(m, cfg).Some? { StepsRunIff(Call(m, cfg).value, cfg, e, args); }
  }

  lemma {:induction false} BodyRunsIff(m: Machine, cfg: Config, e: Env, b: Body)
    requires Means(m, cfg, e)
    ensures RunBody(m, cfg, b).Some? <==> BodyFits(e, cfg, m.topos, b)
    decreases b, 1
  {
    match b
    case Done =>
    case Then(a, rest) =>
      ActRunsIff(m, cfg, e, a);
      ActRefines(m, cfg, e, a);
      if RunAct(m, cfg, a).Some? { BodyRunsIff(RunAct(m, cfg, a).value, cfg, ActMeans(e, a), rest); }
  }

  // ---------------------------------------------------------------- what survives a call

  lemma {:induction false} StepsGrow(e: Env, ss: seq<Step>)
    requires forall a :: a in e.live ==> a < e.topd
    ensures StepsMean(e, ss).topd >= e.topd && e.live <= StepsMean(e, ss).live
    ensures forall a :: a in StepsMean(e, ss).live ==> a < StepsMean(e, ss).topd
    ensures Cut(StepsMean(e, ss).live, e.topd) == e.live
    decreases |ss|
  {
    if ss != [] {
      StepsGrow(StepMeans(e, ss[0]), ss[1..]);
      AddedAbove(e, ss);
    }
  }

  lemma {:induction false} AddedAbove(e: Env, ss: seq<Step>)
    ensures forall a :: a in StepsMean(e, ss).live && a < e.topd ==> a in e.live
    ensures StepsMean(e, ss).topd >= e.topd
    decreases |ss|
  {
    if ss != [] { AddedAbove(StepMeans(e, ss[0]), ss[1..]); }
  }

  /** No call loses an entry that was in the dictionary before it, moves topd back, or lowers the mark of a caller
      below its old value and topd both. */
  lemma {:induction false} ActGrows(e: Env, a: Act)
    requires |e.marks| == |e.inputs| && forall x :: x in e.live ==> x < e.topd
    ensures var r := ActMeans(e, a);
            && r.topd >= e.topd && e.live <= r.live && (forall x :: x in r.live ==> x < r.topd)
            && forall k :: 0 <= k < |e.marks| ==> r.marks[k] >= e.marks[k] || r.marks[k] >= e.topd
    decreases a, 0
  {
    match a
    case Do(s) => StepsGrow(e, [s]); assert StepsMean(e, [s]) == StepMeans(e, s);
    case KeepCaller =>
    case KeepCommand => KeepRaises(e);
    case Invoke(args, builtin, input, keepFirst, body, temps) =>
      StepsGrow(e, args);
      var e1 := EnterMeans(e, args, builtin, input, keepFirst);
      BodyGrows(e1, body);
      var e2 := BodyMeans(e1, body);
      forall k | 0 <= k < |e.marks|
        ensures ReturnMeans(e2, e.own).marks[k] >= e.marks[k] || ReturnMeans(e2, e.own).marks[k] >= e.topd
      {
        assert ReturnMeans(e2, e.own).marks[k] == e2.marks[k + 1];
        assert e1.marks[k + 1] == e.marks[k] || e1.marks[k + 1] >= e.topd;
      }
  }

  lemma {:induction false} KeepUpToRaises(e: Env, n: nat)
    ensures forall k :: 0 <= k < |e.marks| ==>
        KeepUpTo(e, n).marks[k] == e.marks[k] || KeepUpTo(e, n).marks[k] == e.topd
  {
    if n > 0 { KeepUpToRaises(e, n - 1); }
  }

  lemma KeepRaises(e: Env)
    requires |e.marks| == |e.inputs|
    ensures forall k :: 0 <= k < |e.marks| ==> KeepMeans(e).marks[k] == e.marks[k] || KeepMeans(e).marks[k] == e.topd
  {
    if |e.inputs| > 1 { KeepUpToRaises(e, RootOf(e.inputs, |e.inputs| - 1) + 1); }
  }

  lemma {:induction false} BodyGrows(e: Env, b: Body)
    requires |e.marks| == |e.inputs| && forall x :: x in e.live ==> x < e.topd
    ensures var r := BodyMeans(e, b);
            && r.topd >= e.topd && e.live <= r.live && (forall x :: x in r.live ==> x < r.topd)
            && forall k :: 0 <= k < |e.marks| ==> r.marks[k] >= e.marks[k] || r.marks[k] >= e.topd
    decreases b, 1
  {
    match b
    case Done =>
    case Then(a, rest) =>
      ActGrows(e, a);
      BodyGrows(ActMeans(e, a), rest);
  }

  /** No keep anywhere in a body, explicit or implicit. */
  predicate NoKeep(b: Body) {
    match b
    case Done => true
    case Then(a, rest) => NoKeep(rest) && NoKeepIn(a)
  }

  predicate NoKeepIn(a: Act) {
    match a
    case Do(_) => true
    case KeepCaller => false
    case KeepCommand => false
    case Invoke(_, _, _, keepFirst, body, _) => !keepFirst && NoKeep(body)
  }

  /** A call without keep leaves the dictionary, topd and every mark exactly as they were. */
  lemma {:induction false} CallWithoutKeep(e: Env, a: Act)
    requires |e.marks| == |e.inputs| && (forall x :: x in e.live ==> x < e.topd) && NoKeepIn(a) && a.Invoke?
    ensures ActMeans(e, a) == e
    decreases a, 0
  {
    StepsGrow(e, a.args);
    var e1 := EnterMeans(e, a.args, a.builtin, a.input, a.keepFirst);
    BodyWithoutKeep(e1, a.body);
    var e2 := BodyMeans(e1, a.body);
    assert e2.marks == [e.topd] + e.marks;
    AddedAbove(e, a.args);
    assert Cut(e2.live, e.topd) == e.live by {
      forall x ensures x in Cut(e2.live, e.topd) <==> x in e.live {}
    }
  }

  lemma {:induction false} BodyWithoutKeep(e: Env, b: Body)
    requires |e.marks| == |e.inputs| && (forall x :: x in e.live ==> x < e.topd) && NoKeep(b)
    ensures var r := BodyMeans(e, b);
            && r.marks == e.marks && r.topd >= e.topd && e.live <= r.live
            && (forall x :: x in r.live && x < e.topd ==> x in e.live)
    decreases b, 1
  {
    match b
    case Done =>
    case Then(a, rest) =>
      ActGrows(e, a);
      if a.Invoke? { CallWithoutKeep(e, a); } else { AddedAbove(e, [a.step]); assert StepsMean(e, [a.step]) == StepMeans(e, a.step); }
      BodyWithoutKeep(ActMeans(e, a), rest);
  }

  // ---------------------------------------------------------------- what a keep keeps

  /** For every caller, the entries that were in the dictionary when its mark was last set: at its CALL, or by the last
      keep that reached it. */
  type Snapshots = seq<set<int>>

  function Snap(e: Env, s: Snapshots, k: nat): (r: Snapshots)
    ensures |r| == |s|
  {
    if k < |s| then s[k := e.live] else s
  }

  function SnapUpTo(e: Env, s: Snapshots, n: nat): (r: Snapshots)
    ensures |r| == |s|
  {
    if n == 0 then s else Snap(e, SnapUpTo(e, s, n - 1), n)
  }

  function SnapKeep(e: Env, s: Snapshots): (r: Snapshots)
    ensures |r| == |s|
  {
    var n := |e.inputs|;
    if n <= 1 then s
    else if e.inputs[0] == e.inputs[n - 1] then Snap(e, s, 1)
    else SnapUpTo(e, s, RootOf(e.inputs, n - 1) + 1)
  }

  function SnapEnter(e: Env, s: Snapshots, args: seq<Step>, builtin: bool, keepFirst: bool): (r: Snapshots)
    ensures |r| == |s| + 1
  {
    [e.live] + if !builtin && keepFirst then Snap(StepsMean(e, args), s, 0) else s
  }

  function ActSnaps(e: Env, s: Snapshots, a: Act): (r: Snapshots)
    requires |e.marks| == |e.inputs|
    ensures |r| == |s|
    decreases a, 0
  {
    match a
    case Do(_) => s
    case KeepCaller => Snap(e, s, 0)
    case KeepCommand => SnapKeep(e, s)
    case Invoke(args, builtin, input, keepFirst, body, temps) =>
      BodySnaps(EnterMeans(e, args, builtin, input, keepFirst), SnapEnter(e, s, args, builtin, keepFirst), body)[1..]
  }

  function BodySnaps(e: Env, s: Snapshots, b: Body): (r: Snapshots)
    requires |e.marks| == |e.inputs|
    ensures |r| == |s|
    decreases b, 1
  {
    match b
    case Done => s
    case Then(a, rest) => BodySnaps(ActMeans(e, a), ActSnaps(e, s, a), rest)
  }

  /** A keep that reaches beyond the caller finds topd at the caller's mark: clkeep does as a builtin, which starts with
      topd put back, and the implicit keep does if the arguments of the call allocate nothing. */
  predicate Level(e: Env, b: Body)
    requires |e.marks| == |e.inputs|
    decreases b, 1
  {
    match b
    case Done => true
    case Then(a, rest) => LevelIn(e, a) && Level(ActMeans(e, a), rest)
  }

  predicate LevelIn(e: Env, a: Act)
    requires |e.marks| == |e.inputs|
    decreases a, 0
  {
    match a
    case Do(_) => true
    case KeepCaller => true
    case KeepCommand => e.marks != [] ==> e.topd == e.marks[0]
    case Invoke(args, builtin, input, keepFirst, body, temps) =>
      && (!builtin && keepFirst ==> StepsMean(e, args).topd == e.topd)
      && Level(EnterMeans(e, args, builtin, input, keepFirst), body)
  }

  /** The marks go down outwards, and below each are exactly the entries that were there when it was set. */
  ghost predicate Orderly(e: Env, s: Snapshots) {
    && |s| == |e.marks| == |e.inputs| && (forall x :: x in e.live ==> x < e.topd)
    && (forall k :: 0 <= k < |s| ==> e.marks[k] <= e.topd)
    && (forall j, k :: 0 <= j < k < |s| ==> e.marks[j] >= e.marks[k])
    && forall k :: 0 <= k < |s| ==> Exactly(e.live, e.marks[k], s[k])
  }

  ghost predicate Exactly(live: set<int>, mark: int, snap: set<int>) {
    (forall x :: x in snap ==> x < mark) && forall x :: x in live && x < mark ==> x in snap
  }

  lemma SnapOrderly(e: Env, s: Snapshots, k: nat)
    requires Orderly(e, s) && (k > 0 && |s| > 0 ==> e.topd == e.marks[0] && (k < |s| ==> e.marks[k - 1] == e.topd))
    ensures Orderly(KeepAt(e, k), Snap(e, s, k))
  {
    var e', s' := KeepAt(e, k), Snap(e, s, k);
    forall j | 0 <= j < |s'| ensures Exactly(e'.live, e'.marks[j], s'[j]) {
      assert Exactly(e.live, e.marks[j], s[j]);
    }
  }

  lemma {:induction false} SnapUpToOrderly(e: Env, s: Snapshots, n: nat)
    requires Orderly(e, s) && (|s| > 0 ==> e.topd == e.marks[0])
    ensures Orderly(KeepUpTo(e, n), SnapUpTo(e, s, n))
    ensures forall j :: 0 <= j <= n && j < |s| ==> KeepUpTo(e, n).marks[j] == e.topd
  {
    if n > 0 {
      SnapUpToOrderly(e, s, n - 1);
      assert Snap(KeepUpTo(e, n - 1), SnapUpTo(e, s, n - 1), n) == SnapUpTo(e, s, n);
      SnapOrderly(KeepUpTo(e, n - 1), SnapUpTo(e, s, n - 1), n);
    }
  }

  lemma {:induction false} StepsOrderly(e: Env, s: Snapshots, ss: seq<Step>)
    requires Orderly(e, s)
    ensures Orderly(StepsMean(e, ss), s)
    decreases |ss|
  {
    if ss != [] {
      var e1 := StepMeans(e, ss[0]);
      forall k | 0 <= k < |s| ensures Exactly(e1.live, e1.marks[k], s[k]) {
        assert Exactly(e.live, e.marks[k], s[k]);
      }
      StepsOrderly(e1, s, ss[1..]);
    }
  }

  lemma EnterOrderly(e: Env, s: Snapshots, args: seq<Step>, builtin: bool, input: int, keepFirst: bool)
    requires Orderly(e, s) && (!builtin && keepFirst ==> StepsMean(e, args).topd == e.topd)
    ensures Orderly(EnterMeans(e, args, builtin, input, keepFirst), SnapEnter(e, s, args, builtin, keepFirst))
  {
    var e1 := StepsMean(e, args);
    StepsOrderly(e, s, args);
    StepsGrow(e, args);
    AddedAbove(e, args);
    if !builtin && keepFirst { SnapOrderly(e1, s, 0); }
    var e', s' := EnterMeans(e, args, builtin, input, keepFirst), SnapEnter(e, s, args, builtin, keepFirst);
    var e2, s2 := if !builtin && keepFirst then KeepAt(e1, 0) else e1, if !builtin && keepFirst then Snap(e1, s, 0) else s;
    assert e'.marks == [e.topd] + e2.marks && s' == [e.live] + s2 && e'.live <= e2.live;
    forall k | 0 <= k < |s'| ensures Exactly(e'.live, e'.marks[k], s'[k]) {
      if k > 0 { assert Exactly(e2.live, e2.marks[k - 1], s2[k - 1]); }
    }
  }

  lemma {:induction false} ActOrderly(e: Env, s: Snapshots, a: Act)
    requires Orderly(e, s) && LevelIn(e, a)
    ensures Orderly(ActMeans(e, a), ActSnaps(e, s, a))
    decreases a, 0
  {
    match a
    case Do(step) =>
      StepsOrderly(e, s, [step]);
      assert StepsMean(e, [step]) == StepMeans(e, step);
    case KeepCaller => SnapOrderly(e, s, 0);
    case KeepCommand =>
      if |e.inputs| > 1 {
        SnapOrderly(e, s, 1);
        SnapUpToOrderly(e, s, RootOf(e.inputs, |e.inputs| - 1) + 1);
      }
    case Invoke(args, builtin, input, keepFirst, body, temps) =>
      EnterOrderly(e, s, args, builtin, input, keepFirst);
      var e1, s1 := EnterMeans(e, args, builtin, input, keepFirst), SnapEnter(e, s, args, builtin, keepFirst);
      BodyOrderly(e1, s1, body);
      ReturnOrderly(BodyMeans(e1, body), BodySnaps(e1, s1, body), e.own);
  }

  lemma ReturnOrderly(e: Env, s: Snapshots, own: int)
    requires Orderly(e, s) && |s| > 0
    ensures Orderly(ReturnMeans(e, own), s[1..])
  {
    var e', s' := ReturnMeans(e, own), s[1..];
    forall k | 0 <= k < |s'| ensures Exactly(e'.live, e'.marks[k], s'[k]) {
      assert Exactly(e.live, e.marks[k + 1], s[k + 1]);
    }
  }

  lemma {:induction false} BodyOrderly(e: Env, s: Snapshots, b: Body)
    requires Orderly(e, s) && Level(e, b)
    ensures Orderly(BodyMeans(e, b), BodySnaps(e, s, b))
    decreases b, 1
  {
    match b
    case Done =>
    case Then(a, rest) =>
      ActOrderly(e, s, a);
      BodyOrderly(ActMeans(e, a), ActSnaps(e, s, a), rest);
  }

  /** Of the entries in the dictionary when a task ends, exactly those survive the call that were in it at the last keep
      that reached the caller, or at the CALL if there was none. */
  lemma SurvivesIffKept(e: Env, s: Snapshots, a: Act)
    requires a.Invoke? && Orderly(e, s) && LevelIn(e, a)
    ensures var e1, s1 := EnterMeans(e, a.args, a.builtin, a.input, a.keepFirst),
                          SnapEnter(e, s, a.args, a.builtin, a.keepFirst);
            var end, kept := BodyMeans(e1, a.body), BodySnaps(e1, s1, a.body)[0];
            forall x :: x in ActMeans(e, a).live <==> x in end.live && x in kept
  {
    var e1, s1 := EnterMeans(e, a.args, a.builtin, a.input, a.keepFirst), SnapEnter(e, s, a.args, a.builtin, a.keepFirst);
    EnterOrderly(e, s, a.args, a.builtin, a.input, a.keepFirst);
    BodyOrderly(e1, s1, a.body);
    assert Exactly(BodyMeans(e1, a.body).live, BodyMeans(e1, a.body).marks[0], BodySnaps(e1, s1, a.body)[0]);
  }

  /** The implicit keep is not level when the arguments of the call allocate: with topd at 10, a call whose arguments
      take the entries 10 and 16 keeps up to 20, but leaves topd at 10; the entry added at 12 later survives the return
      of the task, though it was not there at the keep. */
  lemma UnlevelKeep()
    ensures var e := Env(10, {}, 5, [4], [5]);
            var call := Invoke([Alloc(6), Alloc(4)], false, 7, true, Done, 0);
            var body := Then(call, Then(Do(Alloc(2)), Then(Do(Alloc(2)), Done)));
            && Orderly(e, [{}]) && !LevelIn(e, call)
            && 12 in ReturnMeans(BodyMeans(e, body), 5).live && 12 !in BodySnaps(e, [{}], body)[0]
  {
    var e := Env(10, {}, 5, [4], [5]);
    var args := [Alloc(6), Alloc(4)];
    var call := Invoke(args, false, 7, true, Done, 0);
    assert args[1..] == [Alloc(4)] && args[1..][1..] == [];
    var e1 := StepsMean(e, args);
    assert StepsMean(StepMeans(e, args[0]), args[1..]) == e1;
    assert StepsMean(StepMeans(StepMeans(e, args[0]), args[1]), []) == e1;
    assert e1.topd == 20 && e1.live == {10, 16};
    var inside := EnterMeans(e, args, false, 7, true);
    assert inside.marks == [10, 20] && inside.inputs == [5, 5];
    var after := ActMeans(e, call);
    assert after.topd == 10 && after.live == {} && after.marks == [20];
    assert ActSnaps(e, [{}], call) == [{10, 16}];
    var b3 := Then(Do(Alloc(2)), Done);
    var b2 := Then(Do(Alloc(2)), b3);
    var e2 := ActMeans(after, Do(Alloc(2)));
    var e3 := ActMeans(e2, Do(Alloc(2)));
    assert e2.topd == 12 && e2.live == {10} && e3.live == {10, 12} && e3.marks == [20];
    assert BodyMeans(e3, Done) == e3 && BodyMeans(e2, b3) == e3 && BodyMeans(after, b2) == e3;
    assert BodySnaps(e3, [{10, 16}], Done) == [{10, 16}];
    assert BodySnaps(e2, [{10, 16}], b3) == [{10, 16}];
    assert BodySnaps(after, [{10, 16}], b2) == [{10, 16}];
  }

  /** A call with temporaries on the control stack: the frame at 90, one temporary at 89. The return pops a frame that
      is not the caller's. */
  lemma TemporaryAtCall()
    ensures var cfg, m := Config(100, 10, 1000), Machine(0, 0, 89, 0, 0, 0, map[90 := BLANK], 90, 90, 90, {});
            && Call(m, cfg).Some?
            && var m1 := Call(m, cfg).value;
               PopTask(m1, cfg).Some? && PopTask(m1, cfg).value.topcs == 89 != m.current
  {
  }
}
