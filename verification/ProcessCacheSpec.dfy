/** The process cache as a value: the cache list from head to tail and the slots, what each operation does to them,
    and what holds over every run. Source: pkg/cl/prcache.c. */
module ProcessCacheSpec {
  import opened Chains
  import opened Wrappers

  const MAXSUBPROC := 10

  /** One slot; pid 0 marks it empty. The flags P_ACTIVE and P_LOCKED are separate fields. */
  datatype Slot = Slot(pid: int, time: int, active: bool, locked: bool, pno: int, name: string)

  predicate Busy(s: Slot) {
    s.active || s.locked
  }

  predicate Live(s: Slot) {
    s.pid != 0
  }

  /** The cache. order lists the slots from pr_head to pr_tail; spawned and closed record, in order, the processes
      obtained from c_propen and handed to c_prclose. */
  datatype Cache = Cache(order: seq<nat>, slots: seq<Slot>, nextPno: int, spawned: seq<int>, closed: seq<int>)

  /** The list holds exactly the slots 0..n-1, each once. */
  ghost predicate IsOrder(order: seq<nat>, n: nat) {
    && |order| == n && Distinct(order)
    && (forall k :: 0 <= k < n ==> order[k] < n)
    && (forall i :: 0 <= i < n ==> i in order)
  }

  ghost predicate WellFormed(c: Cache) {
    && 2 <= |c.slots| <= MAXSUBPROC && IsOrder(c.order, |c.slots|)
    && forall i :: 0 <= i < |c.slots| && Busy(c.slots[i]) ==> Live(c.slots[i])
  }

  // ---------------------------------------------------------------- the list

  /** Where slot i is in the list. */
  ghost function IndexOf(order: seq<nat>, i: nat): (k: nat)
    requires i in order
    ensures k < |order| && order[k] == i
  {
    var k: nat :| k < |order| && order[k] == i;
    k
  }

  /** The list with slot i taken out. */
  ghost function WithoutSlot(order: seq<nat>, i: nat): seq<nat> {
    if i !in order then order
    else
      var k := IndexOf(order, i);
      order[..k] + order[k + 1..]
  }

  ghost function ToFront(order: seq<nat>, i: nat): seq<nat> {
    [i] + WithoutSlot(order, i)
  }

  ghost function ToBack(order: seq<nat>, i: nat): seq<nat> {
    WithoutSlot(order, i) + [i]
  }

  lemma WithoutAt(order: seq<nat>, i: nat, j: nat)
    requires i in order && j < |order| - 1
    ensures |WithoutSlot(order, i)| == |order| - 1
    ensures WithoutSlot(order, i)[j] == order[if j < IndexOf(order, i) then j else j + 1]
  {
  }

  lemma WithoutHolds(order: seq<nat>, i: nat, x: nat)
    requires i in order && x in order && x != i
    ensures x in WithoutSlot(order, i)
  {
    var k, j := IndexOf(order, i), IndexOf(order, x);
    if j < k {
      WithoutAt(order, i, j);
      assert WithoutSlot(order, i)[j] == x;
    } else {
      WithoutAt(order, i, j - 1);
      assert WithoutSlot(order, i)[j - 1] == x;
    }
  }

  lemma WithoutKeeps(order: seq<nat>, i: nat, n: nat)
    requires IsOrder(order, n) && i < n
    ensures var w := WithoutSlot(order, i);
            |w| == n - 1 && Distinct(w) && i !in w && (forall k :: 0 <= k < n - 1 ==> w[k] < n)
    ensures forall x :: 0 <= x < n && x != i ==> x in WithoutSlot(order, i)
  {
    forall j | 0 <= j < n - 1
      ensures |WithoutSlot(order, i)| == n - 1 && WithoutSlot(order, i)[j] == order[if j < IndexOf(order, i) then j else j + 1]
    {
      WithoutAt(order, i, j);
    }
    forall x | 0 <= x < n && x != i ensures x in WithoutSlot(order, i) {
      WithoutHolds(order, i, x);
    }
  }

  lemma MovesKeepOrder(order: seq<nat>, i: nat, n: nat)
    requires IsOrder(order, n) && i < n
    ensures IsOrder(ToFront(order, i), n) && IsOrder(ToBack(order, i), n)
  {
    WithoutKeeps(order, i, n);
    var w := WithoutSlot(order, i);
    forall x | 0 <= x < n ensures x in [i] + w && x in w + [i] {
      if x != i { assert x in w; }
    }
  }

  // ---------------------------------------------------------------- the operations

  /** pr_pdisconnect: busy and empty slots are left alone. */
  ghost function Close(c: Cache, i: nat): Cache
    requires i < |c.slots|
  {
    var s := c.slots[i];
    if !Live(s) || Busy(s) then c
    else c.(order := ToBack(c.order, i), slots := c.slots[i := s.(pid := 0)], closed := c.closed + [s.pid])
  }

  /** The three loops over the slots: pr_checkup, pr_dumpcache and pr_prunecache. */
  datatype Sweep = Dead(pids: set<int>) | Dump(pid: int, breakLocks: bool) | Prune(pno: int)

  function Emptied(s: Slot): Slot {
    if !Live(s) || Busy(s) then s else s.(pid := 0)
  }

  /** One slot after a sweep: dead processes go, busy or not; a dump takes idle ones, and locked ones if locks are
      broken; a prune takes unbusy ones connected after pno. */
  function SlotAfter(s: Slot, k: Sweep): Slot {
    match k
    case Dead(pids) => if Live(s) && s.pid in pids then s.(pid := 0, active := false, locked := false) else s
    case Dump(pid, breakLocks) =>
      if !((pid == 0 && Live(s)) || pid == s.pid) then s
      else Emptied(if breakLocks && !s.active then s.(locked := false) else s)
    case Prune(pno) => if s.pno > pno then Emptied(s) else s
  }

  ghost function SweepOne(c: Cache, i: nat, k: Sweep): Cache
    requires i < |c.slots|
  {
    var s, s' := c.slots[i], SlotAfter(c.slots[i], k);
    if Live(s) && !Live(s') then
      c.(order := ToBack(c.order, i), slots := c.slots[i := s'], closed := c.closed + [s.pid])
    else c.(slots := c.slots[i := s'])
  }

  ghost function SweepAll(c: Cache, n: nat, k: Sweep): (r: Cache)
    requires n <= |c.slots|
    ensures |r.slots| == |c.slots|
    decreases n, 1
  {
    if n == 0 then c else SweepLast(c, n, k)
  }

  ghost function SweepLast(c: Cache, n: nat, k: Sweep): (r: Cache)
    requires 0 < n <= |c.slots|
    ensures |r.slots| == |c.slots|
    decreases n, 0
  {
    SweepOne(SweepAll(c, n - 1, k), n - 1, k)
  }

  lemma SweepLastIs(c: Cache, n: nat, k: Sweep, before: Cache)
    requires 0 < n <= |c.slots| && before == SweepAll(c, n - 1, k)
    ensures SweepLast(c, n, k) == SweepOne(before, n - 1, k)
  {
  }

  lemma SweepNext(c: Cache, n: nat, k: Sweep, m: Cache)
    requires n < |c.slots| && m == SweepAll(c, n, k)
    ensures SweepAll(c, n + 1, k) == SweepOne(m, n, k)
  {
    SweepLastIs(c, n + 1, k, m);
  }

  /** pr_checkup, with the pids that c_prstati reports dead. */
  ghost function Checkup(c: Cache, dead: set<int>): (r: Cache)
    ensures |r.slots| == |c.slots|
  {
    SweepAll(c, |c.slots|, Dead(dead))
  }

  /** pr_findproc, from position k of the list. */
  function FindProc(c: Cache, name: string, k: nat): (r: Option<nat>)
    requires forall j :: 0 <= j < |c.order| ==> c.order[j] < |c.slots|
    ensures r.Some? ==> r.value < |c.slots|
    decreases |c.order| - k
  {
    if k >= |c.order| then None
    else
      var s := c.slots[c.order[k]];
      if Live(s) && !s.active && s.name == name then Some(c.order[k]) else FindProc(c, name, k + 1)
  }

  /** The slot search of pr_pconnect: from position k - 1 towards the head, the first slot that is not busy. */
  function FreeSlot(c: Cache, k: nat): (r: Option<nat>)
    requires k <= |c.order| && forall j :: 0 <= j < |c.order| ==> c.order[j] < |c.slots|
    ensures r.Some? ==> r.value < |c.slots| && !Busy(c.slots[r.value])
  {
    if k == 0 then None
    else if !Busy(c.slots[c.order[k - 1]]) then Some(c.order[k - 1])
    else FreeSlot(c, k - 1)
  }

  /** What the environment answers during a pr_pconnect: the dead processes, the modification time of the
      executable (None: c_finfo fails) when first asked and when asked after the spawn, and the new pid (0: the
      spawn fails). */
  datatype Env = Env(dead: set<int>, mtime: Option<int>, mtimeLater: Option<int>, newPid: int)

  datatype Outcome = Connected(slot: nat) | SpawnFailed | Deadlock

  predicate Stale(s: Slot, mtime: Option<int>) {
    mtime == None || mtime.value > s.time
  }

  ghost function MoveToFront(c: Cache, i: nat): Cache {
    c.(order := ToFront(c.order, i))
  }

  ghost function Activate(c: Cache, i: nat): Cache
    requires i < |c.slots|
  {
    MoveToFront(c, i).(slots := c.slots[i := c.slots[i].(active := true)])
  }

  /** The part of pr_pconnect that finds a slot and spawns; t is the modification time, 0 if not yet known. */
  ghost function SpawnInto(c: Cache, name: string, t: int, env: Env): (r: (Cache, Outcome))
    requires forall j :: 0 <= j < |c.order| ==> c.order[j] < |c.slots|
    ensures |r.0.slots| == |c.slots|
  {
    match FreeSlot(c, |c.order|)
    case None => (c, Deadlock)
    case Some(i) =>
      var c' := MoveToFront(Close(c, i), i);
      if env.newPid == 0 then (c', SpawnFailed)
      else
        var time := if t != 0 then t else if env.mtimeLater == None then 0 else env.mtimeLater.value;
        (Filled(c', i, name, time, env.newPid), Connected(i))
  }

  /** A new process in slot i, active, with the next process number. */
  function Filled(c: Cache, i: nat, name: string, time: int, pid: int): Cache
    requires i < |c.slots|
  {
    c.(slots := c.slots[i := Slot(pid, time, true, false, c.nextPno, name)],
       nextPno := c.nextPno + 1, spawned := c.spawned + [pid])
  }

  /** pr_pconnect after its pr_checkup. */
  ghost function ConnectChecked(c: Cache, name: string, env: Env): (r: (Cache, Outcome))
    requires WellFormed(c)
    ensures |r.0.slots| == |c.slots|
  {
    match FindProc(c, name, 0)
    case None => SpawnInto(c, name, 0, env)
    case Some(i) =>
      if Busy(c.slots[i]) || !Stale(c.slots[i], env.mtime) then (Activate(c, i), Connected(i))
      else
        CloseKeeps(c, i);
        SpawnInto(Close(c, i), name, if env.mtime == None then 0 else env.mtime.value, env)
  }

  /** pr_pconnect. */
  ghost function Connect(c: Cache, name: string, env: Env): (Cache, Outcome)
    requires WellFormed(c)
  {
    SweepKeeps(c, |c.slots|, Dead(env.dead));
    ConnectChecked(Checkup(c, env.dead), name, env)
  }

  /** The first slot in list order with the given pid. */
  function FindPid(c: Cache, pid: int, k: nat): (r: Option<nat>)
    requires forall j :: 0 <= j < |c.order| ==> c.order[j] < |c.slots|
    ensures r.Some? ==> r.value < |c.slots| && c.slots[r.value].pid == pid
    decreases |c.order| - k
  {
    if k >= |c.order| then None
    else if c.slots[c.order[k]].pid == pid then Some(c.order[k])
    else FindPid(c, pid, k + 1)
  }

  /** pr_pnametopid, from position k of the list, after its pr_checkup: empty slots are not skipped. */
  function NameToPid(c: Cache, name: string, k: nat): int
    requires forall j :: 0 <= j < |c.order| ==> c.order[j] < |c.slots|
    decreases |c.order| - k
  {
    if k >= |c.order| then 0
    else if c.slots[c.order[k]].name == name then c.slots[c.order[k]].pid
    else NameToPid(c, name, k + 1)
  }

  datatype Op = Connects(name: string, env: Env)
              | Disconnects(pid: int, dead: set<int>)
              | Locks(pid: int)
              | Unlocks(pid: int)
              | Dumps(pid: int, breakLocks: bool, dead: set<int>)
              | Prunes(pno: int, dead: set<int>)

  /** The processes found dead during an operation. */
  function DeadIn(op: Op): set<int> {
    match op
    case Connects(_, env) => env.dead
    case Disconnects(_, dead) => dead
    case Locks(_) => {}
    case Unlocks(_) => {}
    case Dumps(_, _, dead) => dead
    case Prunes(_, dead) => dead
  }

  ghost function Disconnect(c: Cache, pid: int, dead: set<int>): Cache
    requires WellFormed(c)
  {
    SweepKeeps(c, |c.slots|, Dead(dead));
    var c1 := Checkup(c, dead);
    match FindPid(c1, pid, 0)
    case None => c1
    case Some(i) => c1.(slots := c1.slots[i := c1.slots[i].(active := false)])
  }

  function SetLock(c: Cache, pid: int, locked: bool): Cache
    requires WellFormed(c)
  {
    if pid == 0 then c
    else
      match FindPid(c, pid, 0)
      case None => c
      case Some(i) => c.(slots := c.slots[i := c.slots[i].(locked := locked)])
  }

  ghost function DumpCache(c: Cache, pid: int, breakLocks: bool, dead: set<int>): Cache {
    var c1 := SweepAll(Checkup(c, dead), |c.slots|, Dump(pid, breakLocks));
    if breakLocks then c1.(nextPno := 1) else c1
  }

  ghost function PruneCache(c: Cache, pno: int, dead: set<int>): Cache {
    SweepAll(Checkup(c, dead), |c.slots|, Prune(pno))
  }

  ghost function Step(c: Cache, op: Op): Cache
    requires WellFormed(c)
  {
    match op
    case Connects(name, env) => Connect(c, name, env).0
    case Disconnects(pid, dead) => Disconnect(c, pid, dead)
    case Locks(pid) => SetLock(c, pid, true)
    case Unlocks(pid) => SetLock(c, pid, false)
    case Dumps(pid, breakLocks, dead) => DumpCache(c, pid, breakLocks, dead)
    case Prunes(pno, dead) => PruneCache(c, pno, dead)
  }

  // ---------------------------------------------------------------- what every operation keeps

  lemma CloseKeeps(c: Cache, i: nat)
    requires WellFormed(c) && i < |c.slots|
    ensures WellFormed(Close(c, i))
  {
    MovesKeepOrder(c.order, i, |c.slots|);
  }

  lemma SweepOneKeeps(c: Cache, i: nat, k: Sweep)
    requires WellFormed(c) && i < |c.slots|
    ensures WellFormed(SweepOne(c, i, k))
  {
    MovesKeepOrder(c.order, i, |c.slots|);
  }

  lemma {:induction false} SweepKeeps(c: Cache, n: nat, k: Sweep)
    requires WellFormed(c) && n <= |c.slots|
    ensures WellFormed(SweepAll(c, n, k))
  {
    if n > 0 {
      SweepKeeps(c, n - 1, k);
      SweepOneKeeps(SweepAll(c, n - 1, k), n - 1, k);
      assert SweepLast(c, n, k) == SweepOne(SweepAll(c, n - 1, k), n - 1, k);
    }
  }

  lemma SpawnKeeps(c: Cache, name: string, t: int, env: Env)
    requires WellFormed(c)
    ensures WellFormed(SpawnInto(c, name, t, env).0)
  {
    var r := FreeSlot(c, |c.order|);
    if r.Some? {
      CloseKeeps(c, r.value);
      MovesKeepOrder(Close(c, r.value).order, r.value, |c.slots|);
    }
  }

  lemma FindProcFound(c: Cache, name: string, k: nat)
    requires WellFormed(c)
    ensures var r := FindProc(c, name, k);
            match r
            case Some(i) => Live(c.slots[i]) && !c.slots[i].active && c.slots[i].name == name
            case None => forall j :: k <= j < |c.order| ==>
                           var s := c.slots[c.order[j]]; !(Live(s) && !s.active && s.name == name)
    decreases |c.order| - k
  {
  }

  lemma ConnectCheckedKeeps(c: Cache, name: string, env: Env)
    requires WellFormed(c)
    ensures WellFormed(ConnectChecked(c, name, env).0)
  {
    FindProcFound(c, name, 0);
    match FindProc(c, name, 0)
    case None => SpawnKeeps(c, name, 0, env);
    case Some(i) =>
      MovesKeepOrder(c.order, i, |c.slots|);
      CloseKeeps(c, i);
      SpawnKeeps(Close(c, i), name, if env.mtime == None then 0 else env.mtime.value, env);
  }

  /** Every operation keeps the list a list of exactly the cache's slots, and empty slots idle. */
  lemma StepKeeps(c: Cache, op: Op)
    requires WellFormed(c)
    ensures WellFormed(Step(c, op)) && |Step(c, op).slots| == |c.slots|
  {
    SweepKeeps(c, |c.slots|, Dead(DeadIn(op)));
    match op
    case Connects(name, env) => ConnectCheckedKeeps(Checkup(c, env.dead), name, env);
    case Dumps(pid, breakLocks, dead) => SweepKeeps(Checkup(c, dead), |c.slots|, Dump(pid, breakLocks));
    case Prunes(pno, dead) => SweepKeeps(Checkup(c, dead), |c.slots|, Prune(pno));
    case _ =>
  }
}
