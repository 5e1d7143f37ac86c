/** The registers and the task frames, changed in place by callnewtask, execnewtask, oneof and keep, proved to do what
    TaskStackSpec says. Source: pkg/cl/exec.c, stack.c, builtin.c, main.c. */
module TaskStack {
  import opened Arith
  import opened TaskStackProps
  import opened Wrappers
  import opened TaskStackSpec

  class ControlStack {
    const cfg: Config
    var topos: int
    var basos: int
    var topcs: int
    var topd: int
    var curpack: int
    var pc: int
    var frames: map<int, Task>
    var currentask: int
    var newtask: int
    var lastTaskFrame: int
    ghost var live: set<int>

    ghost function State(): Machine
      reads this
    {
      Machine(topos, basos, topcs, topd, curpack, pc, frames, currentask, newtask, lastTaskFrame, live)
    }

    function Frame(a: int): Task
      reads this
    {
      if a in frames then frames[a] else BLANK
    }

    /** MEMNEED; false is the error "dictionary full". */
    method MemoryNeed(incr: nat) returns (ok: bool, start: int)
      modifies this`topd, this`live
      ensures start == old(topd) && ok == MemNeed(old(State()), cfg, incr).Some?
      ensures ok ==> State() == MemNeed(old(State()), cfg, incr).value
      ensures FirstEven(start + incr, topd) && ok == (topd <= cfg.maxd)
    {
      start := topd;
      EvenIsFirst(start + incr, Aligned(start + incr));
      topd := topd + incr;
      if topd % 2 == 1 { topd := topd + 1; }
      if topd > cfg.maxd { return false, start; }
      if incr > 0 { live := live + {start}; }
      ok := true;
    }

    /** PUSHTASK; None is the error "task stack overflow". */
    method PushTask() returns (r: Option<int>)
      modifies this`topcs, this`lastTaskFrame
      ensures r == if old(topcs) - cfg.taskSize > topos then Some(old(topcs) - cfg.taskSize) else None
      ensures State() == if r.Some? then old(State()).(topcs := r.value, lastFrame := r.value) else old(State())
    {
      if topcs - cfg.taskSize > topos {
        topcs := topcs - cfg.taskSize;
        lastTaskFrame := topcs;
        return Some(topcs);
      }
      r := None;
    }

    /** The part of callnewtask that saves the registers and pushes the frame of the new task. */
    method CallNewTask() returns (ok: bool)
      modifies this`frames, this`topcs, this`lastTaskFrame, this`newtask
      ensures ok == Call(old(State()), cfg).Some?
      ensures ok ==> State() == Call(old(State()), cfg).value
      ensures ok == (topos < old(topcs) - cfg.taskSize)
    {
      frames := frames[currentask := Frame(currentask).(topos := topos, basos := basos, topcs := topcs, topd := topd,
                                                        curpack := curpack)];
      var r := PushTask();
      if r == None { return false; }
      newtask := r.value;
      ok := true;
    }

    /** KEEP */
    method KeepTask(tp: int)
      modifies this`frames
      ensures State() == Keep(old(State()), tp)
    {
      frames := frames[tp := Frame(tp).(topd := topd)];
    }

    /** The part of execnewtask that switches to the new task. */
    method ExecNewTask(builtin: bool, input: int, keepFirst: bool)
      modifies this`frames, this`topd, this`live, this`currentask
      ensures State() == Exec(old(State()), cfg, builtin, input, keepFirst)
    {
      frames := frames[currentask := Frame(currentask).(pc := pc)];
      if builtin {
        var caller := Frame(currentask);
        frames := frames[newtask := Frame(newtask).(input := caller.input)];
        topd := caller.topd;
        live := Cut(live, topd);
      } else {
        if keepFirst && topcs + 2 * cfg.taskSize <= cfg.stackSize { KeepTask(currentask + cfg.taskSize); }
        frames := frames[newtask := Frame(newtask).(input := input)];
      }
      currentask := newtask;
    }

    /** POPTASK; None is the error "Control stack underflow". */
    method PopTaskFrame() returns (r: Option<int>)
      modifies this`topcs, this`lastTaskFrame
      ensures r.Some? == PopTask(old(State()), cfg).Some?
      ensures r.Some? ==> State() == PopTask(old(State()), cfg).value && r.value == topcs
      ensures r == None ==> State() == old(State())
      ensures r == None <==> old(topcs) + cfg.taskSize > cfg.stackSize
    {
      if topcs <= cfg.stackSize - cfg.taskSize {
        if topcs < lastTaskFrame { topcs := lastTaskFrame; }
        topcs := topcs + cfg.taskSize;
        lastTaskFrame := topcs;
        return Some(topcs);
      }
      r := None;
    }

    /** The end of oneof: the task is popped and restor puts the registers back. */
    method OnEof() returns (ok: bool)
      modifies this
      ensures ok == OneOf(old(State()), cfg).Some?
      ensures ok ==> State() == OneOf(old(State()), cfg).value
    {
      var r := PopTaskFrame();
      if r == None { return false; }
      currentask := r.value;
      var tp := Frame(currentask);
      topd, pc, topos, basos, topcs, curpack := tp.topd, tp.pc, tp.topos, tp.basos, tp.topcs, tp.curpack;
      live := Cut(live, tp.topd);
      ok := true;
    }

    /** The first loop of clkeep: the outermost task below the first one that reads the input prevtask reads. */
    method RootTask(prevtask: int, firstask: int, ghost n: nat) returns (root: int)
      requires cfg.taskSize > 0 && n > 0 && firstask == prevtask + n * cfg.taskSize
      ensures root == prevtask + Root(State(), cfg, prevtask, n) * cfg.taskSize
    {
      var tp := prevtask;
      ghost var k := 0;
      root := prevtask;
      while tp != firstask
        invariant 0 <= k <= n && tp == prevtask + k * cfg.taskSize
        invariant root == prevtask + Root(State(), cfg, prevtask, k) * cfg.taskSize
        decreases n - k
      {
        if Frame(tp).input == Frame(prevtask).input { root := tp; }
        Distribute(k, cfg.taskSize);
        tp := tp + cfg.taskSize;
        k := k + 1;
      }
      if k < n { Beyond(k, n, cfg.taskSize); }
    }

    /** CLKEEP */
    method KeepCommandTask()
      requires cfg.taskSize > 0 && exists d: nat :: currentask + cfg.taskSize + d * cfg.taskSize == cfg.stackSize - cfg.taskSize
      modifies this`frames
      ensures State() == ClKeep(old(State()), cfg)
    {
      var prevtask, firstask := currentask + cfg.taskSize, cfg.stackSize - cfg.taskSize;
      ghost var n: nat :| prevtask + n * cfg.taskSize == firstask;
      if prevtask == firstask { return; }
      if Frame(prevtask).input == Frame(firstask).input {
        KeepTask(prevtask + cfg.taskSize);
        return;
      }
      Quotient(cfg.taskSize, n);
      var root := RootTask(prevtask, firstask, n);
      ghost var r := Root(State(), cfg, prevtask, n);
      ghost var m := State();
      var tp := prevtask;
      ghost var k := 0;
      while true
        invariant 0 <= k <= r && tp == prevtask + k * cfg.taskSize && root == prevtask + r * cfg.taskSize
        invariant State() == KeepAll(m, cfg, prevtask, k)
        decreases r - k
      {
        Distribute(k, cfg.taskSize);
        KeepTask(tp + cfg.taskSize);
        if tp == root {
          if k < r { Beyond(k, r, cfg.taskSize); }
          break;
        }
        tp := tp + cfg.taskSize;
        k := k + 1;
      }
    }
  }

  lemma Distribute(k: nat, t: int)
    ensures (k + 1) * t == k * t + t
  {
  }

  lemma Beyond(k: nat, n: nat, t: int)
    requires k < n && t > 0
    ensures k * t < n * t
  {
    assert (n - k) * t >= t by { MulAtLeast(n - k, 1, t); }
    assert n * t == k * t + (n - k) * t;
  }
}
