/** What the process cache guarantees over its runs: the list is in order of last use, a process in use is never
    closed, every process spawned is either still cached or was closed once. Source: pkg/cl/prcache.c. */
module ProcessCacheProps {
  import opened Arith
  import opened Chains
  import opened Wrappers
  import opened ProcessCacheSpec

  // ---------------------------------------------------------------- what the sweeps do to a slot

  lemma {:induction false} SweepSlots(c: Cache, n: nat, k: Sweep, i: nat)
    requires n <= |c.slots| && i < |c.slots|
    ensures SweepAll(c, n, k).slots[i] == if i < n then SlotAfter(c.slots[i], k) else c.slots[i]
  {
    if n > 0 {
      SweepSlots(c, n - 1, k, i);
      assert SweepLast(c, n, k).slots[i] == SweepOne(SweepAll(c, n - 1, k), n - 1, k).slots[i];
    }
  }

  // ---------------------------------------------------------------- order of last use

  /** stamp[i] is the time of the last pr_pconnect that gave slot i: live processes come first in the list, the one
      connected last at the head. */
  ghost predicate Lru(c: Cache, stamp: seq<int>)
    requires WellFormed(c)
  {
    && |stamp| == |c.slots|
    && forall j, k :: 0 <= j < k < |c.order| && Live(c.slots[c.order[k]]) ==>
         Live(c.slots[c.order[j]]) && stamp[c.order[j]] > stamp[c.order[k]]
  }

  lemma LruBack(c: Cache, c': Cache, i: nat, stamp: seq<int>)
    requires WellFormed(c) && WellFormed(c') && Lru(c, stamp) && i < |c.slots| == |c'.slots|
    requires c'.order == ToBack(c.order, i) && c'.slots == c.slots[i := c'.slots[i]] && !Live(c'.slots[i])
    ensures Lru(c', stamp)
  {
    WithoutKeeps(c.order, i, |c.slots|);
    forall j | 0 <= j < |c.order| - 1
      ensures WithoutSlot(c.order, i)[j] == c.order[if j < IndexOf(c.order, i) then j else j + 1]
    {
      WithoutAt(c.order, i, j);
    }
  }

  lemma LruFront(c: Cache, c': Cache, i: nat, stamp: seq<int>, now: int)
    requires WellFormed(c) && WellFormed(c') && Lru(c, stamp) && i < |c.slots| == |c'.slots|
    requires c'.order == ToFront(c.order, i) && c'.slots == c.slots[i := c'.slots[i]] && Live(c'.slots[i])
    requires forall j :: 0 <= j < |stamp| ==> stamp[j] < now
    ensures Lru(c', stamp[i := now])
  {
    WithoutKeeps(c.order, i, |c.slots|);
    forall j | 0 <= j < |c.order| - 1
      ensures WithoutSlot(c.order, i)[j] == c.order[if j < IndexOf(c.order, i) then j else j + 1]
    {
      WithoutAt(c.order, i, j);
    }
  }

  /** A sweep leaves a slot where it is, keeping its process, or empties it and moves it to the tail. */
  lemma SweepOneShape(c: Cache, i: nat, k: Sweep)
    requires i < |c.slots|
    ensures var c' := SweepOne(c, i, k);
            && |c'.slots| == |c.slots| && c'.slots == c.slots[i := c'.slots[i]]
            && (|| (c'.order == c.order && c'.slots[i].pid == c.slots[i].pid)
                || (c'.order == ToBack(c.order, i) && !Live(c'.slots[i])))
  {
  }

  lemma LruKept(c: Cache, c': Cache, i: nat, stamp: seq<int>)
    requires WellFormed(c) && WellFormed(c') && Lru(c, stamp) && i < |c.slots| == |c'.slots|
    requires c'.slots == c.slots[i := c'.slots[i]]
    requires || (c'.order == c.order && c'.slots[i].pid == c.slots[i].pid)
             || (c'.order == ToBack(c.order, i) && !Live(c'.slots[i]))
    ensures Lru(c', stamp)
  {
    if c'.order == ToBack(c.order, i) && !Live(c'.slots[i]) {
      LruBack(c, c', i, stamp);
    } else {
      forall x | 0 <= x < |c.slots| ensures c'.slots[x].pid == c.slots[x].pid {}
    }
  }

  lemma SweepOneLru(c: Cache, c': Cache, i: nat, k: Sweep, stamp: seq<int>)
    requires WellFormed(c) && Lru(c, stamp) && i < |c.slots| && c' == SweepOne(c, i, k)
    ensures WellFormed(c') && Lru(c', stamp)
  {
    SweepOneKeeps(c, i, k);
    SweepOneShape(c, i, k);
    LruKept(c, c', i, stamp);
  }

  lemma {:induction false} SweepLru(c: Cache, n: nat, k: Sweep, stamp: seq<int>)
    requires WellFormed(c) && Lru(c, stamp) && n <= |c.slots|
    ensures WellFormed(SweepAll(c, n, k)) && Lru(SweepAll(c, n, k), stamp)
  {
    if n > 0 {
      SweepLru(c, n - 1, k, stamp);
      SweepStepLru(c, n, k, stamp);
    }
  }

  lemma SweepStepLru(c: Cache, n: nat, k: Sweep, stamp: seq<int>)
    requires 0 < n <= |c.slots| && WellFormed(SweepAll(c, n - 1, k)) && Lru(SweepAll(c, n - 1, k), stamp)
    ensures WellFormed(SweepLast(c, n, k)) && Lru(SweepLast(c, n, k), stamp)
  {
    var b, c' := SweepAll(c, n - 1, k), SweepLast(c, n, k);
    SweepLastIs(c, n, k, b);
    SweepOneLru(b, c', n - 1, k, stamp);
  }

  // ---------------------------------------------------------------- finding a slot

  /** The slot search ends at the last unbusy slot of the list, and fails exactly when there is none. */
  lemma {:induction false} FreeSlotIsLast(c: Cache, k: nat)
    requires WellFormed(c) && k <= |c.order|
    ensures match FreeSlot(c, k)
            case None => forall j :: 0 <= j < k ==> Busy(c.slots[c.order[j]])
            case Some(i) => exists j :: (0 <= j < k && c.order[j] == i && !Busy(c.slots[i])
                            && forall j' :: j < j' < k ==> Busy(c.slots[c.order[j']]))
  {
    if k > 0 && Busy(c.slots[c.order[k - 1]]) {
      FreeSlotIsLast(c, k - 1);
    }
  }

  lemma AllBusy(c: Cache)
    requires WellFormed(c)
    ensures FreeSlot(c, |c.order|) == None <==> forall i :: 0 <= i < |c.slots| ==> Busy(c.slots[i])
  {
    FreeSlotIsLast(c, |c.order|);
    if FreeSlot(c, |c.order|) == None {
      forall i | 0 <= i < |c.slots| ensures Busy(c.slots[i]) {
        assert c.order[IndexOf(c.order, i)] == i;
      }
    }
  }

  /** A process evicted for space: there was no empty slot, and of the processes neither active nor locked it is
      the one connected longest ago. */
  lemma EvictsLongestAgo(c: Cache, stamp: seq<int>, i: nat)
    requires WellFormed(c) && Lru(c, stamp) && FreeSlot(c, |c.order|) == Some(i) && Live(c.slots[i])
    ensures forall j :: 0 <= j < |c.slots| ==> Live(c.slots[j])
    ensures forall j :: 0 <= j < |c.slots| && j != i && !Busy(c.slots[j]) ==> stamp[i] < stamp[j]
  {
    FreeSlotIsLast(c, |c.order|);
    var k :| 0 <= k < |c.order| && c.order[k] == i && forall k' :: k < k' < |c.order| ==> Busy(c.slots[c.order[k']]);
    forall j | 0 <= j < |c.slots| && j != i
      ensures Live(c.slots[j]) && (!Busy(c.slots[j]) ==> stamp[i] < stamp[j])
    {
      var p := IndexOf(c.order, j);
      assert c.order[p] == j;
    }
  }

  /** A process whose executable has changed is replaced in its own slot. */
  lemma StaleReplaced(c: Cache, i: nat)
    requires WellFormed(c) && i < |c.slots| && Live(c.slots[i]) && !Busy(c.slots[i])
    ensures WellFormed(Close(c, i)) && FreeSlot(Close(c, i), |c.order|) == Some(i)
  {
    CloseKeeps(c, i);
    WithoutKeeps(c.order, i, |c.slots|);
    assert Close(c, i).order[|c.order| - 1] == i;
  }

  // ---------------------------------------------------------------- connecting

  predicate Offers(s: Slot, name: string) {
    Live(s) && !s.active && s.name == name
  }

  lemma NoneOffers(c: Cache, name: string)
    requires WellFormed(c)
    ensures FindProc(c, name, 0) == None <==> forall i :: 0 <= i < |c.slots| ==> !Offers(c.slots[i], name)
  {
    FindProcFound(c, name, 0);
    if FindProc(c, name, 0) == None {
      forall i | 0 <= i < |c.slots| ensures !Offers(c.slots[i], name) {
        assert c.order[IndexOf(c.order, i)] == i;
      }
    }
  }

  lemma SpawnDeadlock(c: Cache, name: string, t: int, env: Env)
    requires WellFormed(c)
    ensures SpawnInto(c, name, t, env).1 == Deadlock <==> FreeSlot(c, |c.order|) == None
  {
  }

  /** Exactly when a deadlock is reported: every slot is busy and none holds the program, idle. */
  lemma DeadlockIff(c: Cache, name: string, env: Env)
    requires WellFormed(c)
    ensures ConnectChecked(c, name, env).1 == Deadlock <==>
            forall i :: 0 <= i < |c.slots| ==> Busy(c.slots[i]) && !Offers(c.slots[i], name)
  {
    NoneOffers(c, name);
    AllBusy(c);
    match FindProc(c, name, 0)
    case None => SpawnDeadlock(c, name, 0, env);
    case Some(i) =>
      FindProcFound(c, name, 0);
      assert Offers(c.slots[i], name);
      if !Busy(c.slots[i]) && Stale(c.slots[i], env.mtime) {
        StaleReplaced(c, i);
        SpawnDeadlock(Close(c, i), name, if env.mtime == None then 0 else env.mtime.value, env);
      }
  }

  /** The slot a connect uses: reused, or emptied and filled. */
  ghost predicate Uses(c: Cache, c': Cache, i: nat, name: string, env: Env)
    requires |c.slots| == |c'.slots|
  {
    && i < |c.slots| && !c.slots[i].active && c'.slots == c.slots[i := c'.slots[i]]
    && c'.slots[i].active && c'.slots[i].name == name && Live(c'.slots[i])
    && |c'.order| > 0 && c'.order[0] == i
    && (|| (Live(c.slots[i]) && c'.slots[i] == c.slots[i].(active := true) && c'.closed == c.closed && c'.spawned == c.spawned)
        || (&& !Busy(c.slots[i]) && c'.slots[i].pid == env.newPid && !c'.slots[i].locked
            && c'.spawned == c.spawned + [env.newPid]
            && c'.closed == if Live(c.slots[i]) then c.closed + [c.slots[i].pid] else c.closed))
  }

  lemma SpawnUses(c: Cache, name: string, t: int, env: Env)
    requires WellFormed(c)
    ensures var (c', r) := SpawnInto(c, name, t, env);
            match r
            case Connected(i) => FreeSlot(c, |c.order|) == Some(i) && Uses(c, c', i, name, env)
            case _ => true
  {
  }

  /** A connect that succeeds gives an idle process running the program, at the head of the list, now active, and
      touches no other slot; it closes at most the process whose slot it takes. */
  lemma ConnectUses(c: Cache, name: string, env: Env)
    requires WellFormed(c)
    ensures var (c', r) := ConnectChecked(c, name, env);
            match r
            case Connected(i) => Uses(c, c', i, name, env)
            case _ => true
  {
    FindProcFound(c, name, 0);
    match FindProc(c, name, 0)
    case None => SpawnUses(c, name, 0, env);
    case Some(i) =>
      if !Busy(c.slots[i]) && Stale(c.slots[i], env.mtime) {
        StaleReplaced(c, i);
        SpawnUses(Close(c, i), name, if env.mtime == None then 0 else env.mtime.value, env);
      }
  }

  /** The same, in terms of the cache before the dead processes are cleared away. */
  lemma DeadlockBefore(c: Cache, name: string, env: Env)
    requires WellFormed(c)
    ensures Connect(c, name, env).1 == Deadlock <==>
            forall i :: 0 <= i < |c.slots| ==>
              Busy(c.slots[i]) && !Offers(c.slots[i], name) && c.slots[i].pid !in env.dead
  {
    SweepKeeps(c, |c.slots|, Dead(env.dead));
    var c1 := Checkup(c, env.dead);
    DeadlockIff(c1, name, env);
    forall i | 0 <= i < |c.slots| ensures c1.slots[i] == SlotAfter(c.slots[i], Dead(env.dead)) {
      SweepSlots(c, |c.slots|, Dead(env.dead), i);
    }
  }

  lemma SpawnLru(c: Cache, name: string, t: int, env: Env, stamp: seq<int>, now: int)
    requires WellFormed(c) && Lru(c, stamp) && forall j :: 0 <= j < |stamp| ==> stamp[j] < now
    ensures var (c', r) := SpawnInto(c, name, t, env);
            WellFormed(c') &&
            match r
            case Connected(i) => i < |stamp| && Lru(c', stamp[i := now])
            case SpawnFailed => Lru(c', stamp) <==> forall i :: 0 <= i < |c'.slots| ==> !Live(c'.slots[i])
            case Deadlock => c' == c
  {
    SpawnKeeps(c, name, t, env);
    var (c', r) := SpawnInto(c, name, t, env);
    match FreeSlot(c, |c.order|)
    case None =>
    case Some(i) =>
      var e := Close(c, i);
      CloseKeeps(c, i);
      LruKept(c, e, i, stamp);
      MovesKeepOrder(e.order, i, |e.slots|);
      if env.newPid != 0 {
        LruFront(e, c', i, stamp, now);
      } else {
        EmptyHead(c', stamp, i);
      }
  }

  /** With an empty slot at the head the list is in order only if every slot is empty. */
  lemma EmptyHead(c: Cache, stamp: seq<int>, i: nat)
    requires WellFormed(c) && |stamp| == |c.slots| && c.order[0] == i && !Live(c.slots[i])
    ensures Lru(c, stamp) <==> forall j :: 0 <= j < |c.slots| ==> !Live(c.slots[j])
  {
    if Lru(c, stamp) {
      forall j | 0 <= j < |c.slots| ensures !Live(c.slots[j]) {
        assert c.order[IndexOf(c.order, j)] == j;
      }
    }
  }

  /** Some process that is alive is in another slot than the one found. */
  predicate AnotherLives(c: Cache, dead: set<int>, found: Option<nat>) {
    exists j :: 0 <= j < |c.slots| && Live(c.slots[j]) && c.slots[j].pid !in dead && found != Some(j)
  }

  /** A connect keeps the list in order of last use. A spawn that fails breaks the order exactly when some process is
      alive other than the stale one the connect itself closes: the slot at the head is empty then. */
  lemma ConnectLru(c: Cache, name: string, env: Env, stamp: seq<int>, now: int)
    requires WellFormed(c) && Lru(c, stamp) && forall j :: 0 <= j < |stamp| ==> stamp[j] < now
    ensures var (c', r) := Connect(c, name, env);
            WellFormed(c') && WellFormed(Checkup(c, env.dead)) &&
            match r
            case Connected(i) => i < |stamp| && Lru(c', stamp[i := now])
            case SpawnFailed =>
              Lru(c', stamp) <==> !AnotherLives(c, env.dead, FindProc(Checkup(c, env.dead), name, 0))
            case Deadlock => Lru(c', stamp)
  {
    SweepKeeps(c, |c.slots|, Dead(env.dead));
    SweepLru(c, |c.slots|, Dead(env.dead), stamp);
    var c1 := Checkup(c, env.dead);
    LiveAfterCheckup(c, env.dead, FindProc(c1, name, 0));
    ConnectCheckedLru(c1, name, env, stamp, now);
  }

  lemma ConnectCheckedLru(c: Cache, name: string, env: Env, stamp: seq<int>, now: int)
    requires WellFormed(c) && Lru(c, stamp) && forall j :: 0 <= j < |stamp| ==> stamp[j] < now
    ensures var (c', r) := ConnectChecked(c, name, env);
            WellFormed(c') &&
            match r
            case Connected(i) => i < |stamp| && Lru(c', stamp[i := now])
            case SpawnFailed => Lru(c', stamp) <==> !AnotherLives(c, {}, FindProc(c, name, 0))
            case Deadlock => Lru(c', stamp)
  {
    FindProcFound(c, name, 0);
    match FindProc(c, name, 0)
    case None =>
      SpawnLru(c, name, 0, env, stamp, now);
      if SpawnInto(c, name, 0, env).1 == SpawnFailed { FailedLeaves(c, name, 0, env, stamp); }
    case Some(i) =>
      if Busy(c.slots[i]) || !Stale(c.slots[i], env.mtime) {
        MovesKeepOrder(c.order, i, |c.slots|);
        LruFront(c, Activate(c, i), i, stamp, now);
      } else {
        StaleLru(c, i, name, if env.mtime == None then 0 else env.mtime.value, env, stamp, now);
      }
  }

  lemma StaleLru(c: Cache, i: nat, name: string, t: int, env: Env, stamp: seq<int>, now: int)
    requires WellFormed(c) && Lru(c, stamp) && forall j :: 0 <= j < |stamp| ==> stamp[j] < now
    requires i < |c.slots| && Live(c.slots[i]) && !Busy(c.slots[i])
    ensures WellFormed(Close(c, i))
    ensures var (c', r) := SpawnInto(Close(c, i), name, t, env);
            WellFormed(c') &&
            match r
            case Connected(i) => i < |stamp| && Lru(c', stamp[i := now])
            case SpawnFailed => Lru(c', stamp) <==> !AnotherLives(c, {}, Some(i))
            case Deadlock => Lru(c', stamp)
  {
    CloseKeeps(c, i);
    LruKept(c, Close(c, i), i, stamp);
    StaleReplaced(c, i);
    SpawnLru(Close(c, i), name, t, env, stamp, now);
    StaleLeaves(c, i, name, t, env);
  }

  lemma StaleLeaves(c: Cache, i: nat, name: string, t: int, env: Env)
    requires WellFormed(c) && i < |c.slots| && Live(c.slots[i]) && !Busy(c.slots[i])
    requires WellFormed(Close(c, i)) && FreeSlot(Close(c, i), |c.order|) == Some(i)
    ensures var (c', r) := SpawnInto(Close(c, i), name, t, env);
            r == SpawnFailed ==> ((exists j :: 0 <= j < |c'.slots| && Live(c'.slots[j])) <==> AnotherLives(c, {}, Some(i)))
  {
    var (c', r) := SpawnInto(Close(c, i), name, t, env);
    if r == SpawnFailed {
      assert c'.slots == c.slots[i := c.slots[i].(pid := 0)];
      OthersLive(c, c', i);
    }
  }

  lemma OthersLive(c: Cache, c': Cache, i: nat)
    requires i < |c.slots| && c'.slots == c.slots[i := c.slots[i].(pid := 0)]
    ensures (exists j :: 0 <= j < |c'.slots| && Live(c'.slots[j])) <==> AnotherLives(c, {}, Some(i))
  {
    assert forall j :: 0 <= j < |c.slots| ==> (Live(c'.slots[j]) <==> Live(c.slots[j]) && j != i);
  }

  lemma LiveAfterCheckup(c: Cache, dead: set<int>, found: Option<nat>)
    ensures AnotherLives(c, dead, found) <==> AnotherLives(Checkup(c, dead), {}, found)
  {
    forall j | 0 <= j < |c.slots| ensures Checkup(c, dead).slots[j] == SlotAfter(c.slots[j], Dead(dead)) {
      SweepSlots(c, |c.slots|, Dead(dead), j);
    }
  }

  /** When the spawn fails for a slot taken for space: a process is left unless there was none. */
  lemma FailedLeaves(c: Cache, name: string, t: int, env: Env, stamp: seq<int>)
    requires WellFormed(c) && Lru(c, stamp) && SpawnInto(c, name, t, env).1 == SpawnFailed
    ensures var c' := SpawnInto(c, name, t, env).0;
            (exists j :: 0 <= j < |c'.slots| && Live(c'.slots[j])) <==> AnotherLives(c, {}, None)
  {
    var i := FreeSlot(c, |c.order|).value;
    var c' := SpawnInto(c, name, t, env).0;
    if Live(c.slots[i]) {
      EvictsLongestAgo(c, stamp, i);
      assert Live(c'.slots[if i == 0 then 1 else 0]);
      assert Live(c.slots[i]);
    } else {
      assert c'.slots == c.slots;
    }
  }

  /** Exactly when a spawn fails: none is obtained, and one is asked for, a slot that is free or can be freed being
      there. */
  lemma SpawnFailedIff(c: Cache, name: string, env: Env)
    requires WellFormed(c)
    ensures WellFormed(Checkup(c, env.dead)) &&
            (Connect(c, name, env).1 == SpawnFailed <==>
             env.newPid == 0 &&
             match FindProc(Checkup(c, env.dead), name, 0)
             case None => exists i :: 0 <= i < |c.slots| && (!Busy(c.slots[i]) || c.slots[i].pid in env.dead)
             case Some(i) => !Busy(c.slots[i]) && Stale(c.slots[i], env.mtime))
  {
    SweepKeeps(c, |c.slots|, Dead(env.dead));
    var c1 := Checkup(c, env.dead);
    forall i | 0 <= i < |c.slots| ensures c1.slots[i] == SlotAfter(c.slots[i], Dead(env.dead)) {
      SweepSlots(c, |c.slots|, Dead(env.dead), i);
    }
    AllBusy(c1);
    FindProcFound(c1, name, 0);
    match FindProc(c1, name, 0)
    case None =>
    case Some(i) =>
      if !Busy(c1.slots[i]) && Stale(c1.slots[i], env.mtime) { StaleReplaced(c1, i); }
  }

  /** A process in slot 0, slot 1 empty. */
  function OneProcess(): Cache {
    Cache([0, 1], [Slot(7, 5, false, false, 1, "x_system.e"), Slot(0, 0, false, false, 0, "")], 2, [7], [])
  }

  lemma OneProcessOk()
    ensures var c := OneProcess();
            WellFormed(c) && Lru(c, [1, 0]) && Live(c.slots[0]) && !Busy(c.slots[0]) && |c.slots| == 2
            && c.slots[0].name == "x_system.e" && !Live(c.slots[1])
  {
    var c := OneProcess();
    assert c.order[0] == 0 && c.order[1] == 1;
  }

  /** A failed spawn after which the list is out of order: another program cannot be started. */
  lemma FailedSpawnBreaksOrder()
    ensures var (c, env) := (OneProcess(), Env({}, Some(5), Some(5), 0));
            && WellFormed(c) && Lru(c, [1, 0]) && WellFormed(Connect(c, "x_images.e", env).0)
            && Connect(c, "x_images.e", env).1 == SpawnFailed && !Lru(Connect(c, "x_images.e", env).0, [1, 0])
  {
    OneProcessOk();
    FailsOutOfOrder(OneProcess(), "x_images.e", Env({}, Some(5), Some(5), 0), [1, 0]);
  }

  /** Two slots, one process, of another name, not in use. */
  lemma FailsOutOfOrder(c: Cache, name: string, env: Env, stamp: seq<int>)
    requires WellFormed(c) && Lru(c, stamp) && |c.slots| == 2 && env.dead == {} && env.newPid == 0
    requires Live(c.slots[0]) && !Busy(c.slots[0]) && c.slots[0].name != name && !Live(c.slots[1])
    ensures WellFormed(Connect(c, name, env).0) && Connect(c, name, env).1 == SpawnFailed
    ensures !Lru(Connect(c, name, env).0, stamp)
  {
    SweepKeeps(c, 2, Dead({}));
    SweepSlots(c, 2, Dead({}), 0);
    SweepSlots(c, 2, Dead({}), 1);
    FindProcFound(Checkup(c, {}), name, 0);
    SpawnFailedIff(c, name, env);
    ConnectLru(c, name, env, stamp, Max(stamp[0], stamp[1]) + 1);
  }

  // ---------------------------------------------------------------- runs

  /** A run of the cache, with the time of the last connect of every slot. */
  datatype Run = Run(c: Cache, stamp: seq<int>, now: int)

  ghost function Next(r: Run, op: Op): Run
    requires WellFormed(r.c)
  {
    var c' := Step(r.c, op);
    match op
    case Connects(name, env) =>
      (match Connect(r.c, name, env).1
       case Connected(i) => if i < |r.stamp| then Run(c', r.stamp[i := r.now], r.now + 1) else Run(c', r.stamp, r.now)
       case _ => Run(c', r.stamp, r.now))
    case _ => Run(c', r.stamp, r.now)
  }

  /** pr_initcache: all slots empty, the last one at the head. */
  predicate Fresh(r: Run) {
    && 2 <= |r.c.slots| <= MAXSUBPROC
        && r.c.order == seq(|r.c.slots|, k requires 0 <= k < |r.c.slots| => |r.c.slots| - 1 - k)
    && r.stamp == seq(|r.c.slots|, k => 0) && r.now == 1 && r.c.nextPno == 1 && r.c.spawned == [] && r.c.closed == []
    && forall i :: 0 <= i < |r.c.slots| ==> !Live(r.c.slots[i]) && !Busy(r.c.slots[i])
  }

  lemma FreshWellFormed(r: Run)
    requires Fresh(r)
    ensures WellFormed(r.c) && Lru(r.c, r.stamp)
  {
    var n := |r.c.slots|;
    forall i | 0 <= i < n ensures i in r.c.order {
      assert r.c.order[n - 1 - i] == i;
    }
  }

  /** The run after the operations ops. */
  ghost function After(r: Run, ops: seq<Op>): (r': Run)
    requires WellFormed(r.c)
    ensures WellFormed(r'.c) && |r'.c.slots| == |r.c.slots|
  {
    if ops == [] then r
    else
      var before := After(r, ops[..|ops| - 1]);
      StepKeeps(before.c, ops[|ops| - 1]);
      Next(before, ops[|ops| - 1])
  }

  ghost predicate InOrder(r: Run) {
    && WellFormed(r.c) && Lru(r.c, r.stamp)
    && forall i :: 0 <= i < |r.stamp| ==> r.stamp[i] < r.now
  }

  lemma NextInOrder(r: Run, op: Op)
    requires InOrder(r) && (op.Connects? ==> op.env.newPid != 0)
    ensures InOrder(Next(r, op))
  {
    StepKeeps(r.c, op);
    SweepKeeps(r.c, |r.c.slots|, Dead(DeadIn(op)));
    SweepLru(r.c, |r.c.slots|, Dead(DeadIn(op)), r.stamp);
    var c1 := Checkup(r.c, DeadIn(op));
    match op
    case Connects(name, env) => ConnectInOrder(r, name, env);
    case Disconnects(pid, dead) =>
      if FindPid(c1, pid, 0).Some? { LruKept(c1, Disconnect(r.c, pid, dead), FindPid(c1, pid, 0).value, r.stamp); }
    case Locks(pid) =>
      if FindPid(r.c, pid, 0).Some? { LruKept(r.c, SetLock(r.c, pid, true), FindPid(r.c, pid, 0).value, r.stamp); }
    case Unlocks(pid) =>
      if FindPid(r.c, pid, 0).Some? { LruKept(r.c, SetLock(r.c, pid, false), FindPid(r.c, pid, 0).value, r.stamp); }
    case Dumps(pid, breakLocks, dead) => SweepLru(c1, |r.c.slots|, Dump(pid, breakLocks), r.stamp);
    case Prunes(pno, dead) => SweepLru(c1, |r.c.slots|, Prune(pno), r.stamp);
  }

  lemma ConnectInOrder(r: Run, name: string, env: Env)
    requires InOrder(r) && env.newPid != 0
    ensures InOrder(Next(r, Connects(name, env)))
  {
    ConnectLru(r.c, name, env, r.stamp, r.now);
    SpawnSucceeds(r.c, name, env);
  }

  lemma SpawnSucceeds(c: Cache, name: string, env: Env)
    requires WellFormed(c) && env.newPid != 0
    ensures Connect(c, name, env).1 != SpawnFailed
  {
  }

  /** Over every run without a failed spawn the list is in order of last use, empty slots last. */
  lemma {:induction false} AlwaysInOrder(r: Run, ops: seq<Op>)
    requires Fresh(r) && forall k :: 0 <= k < |ops| && ops[k].Connects? ==> ops[k].env.newPid != 0
    ensures WellFormed(r.c) && InOrder(After(r, ops))
    decreases |ops|
  {
    FreshWellFormed(r);
    if ops != [] {
      AlwaysInOrder(r, ops[..|ops| - 1]);
      NextInOrder(After(r, ops[..|ops| - 1]), ops[|ops| - 1]);
    }
  }

  /** When a connect evicts a process for space, no slot was empty and the process was, of those neither active nor
      locked, the one connected longest ago. */
  lemma EvictionIsLru(r: Run, name: string, env: Env)
    requires InOrder(r)
    ensures var c1 := Checkup(r.c, env.dead);
            WellFormed(c1) && |r.stamp| == |c1.slots| &&
            match Connect(r.c, name, env).1
            case Connected(i) =>
              i < |c1.slots| &&
              (FindProc(c1, name, 0) == None && Live(c1.slots[i]) ==>
                 && (forall j :: 0 <= j < |c1.slots| ==> Live(c1.slots[j]))
                 && (forall j :: 0 <= j < |c1.slots| && j != i && !Busy(c1.slots[j]) ==> r.stamp[i] < r.stamp[j]))
            case _ => true
  {
    SweepKeeps(r.c, |r.c.slots|, Dead(env.dead));
    SweepLru(r.c, |r.c.slots|, Dead(env.dead), r.stamp);
    var c1 := Checkup(r.c, env.dead);
    ConnectUses(c1, name, env);
    if FindProc(c1, name, 0) == None {
      SpawnUses(c1, name, 0, env);
      match FreeSlot(c1, |c1.order|)
      case Some(i) => if Live(c1.slots[i]) { EvictsLongestAgo(c1, r.stamp, i); }
      case None =>
    }
  }

  /** An empty slot at position i of the list still carries the name. */
  predicate StaleName(c: Cache, name: string, i: nat)
    requires i < |c.order| && forall j :: 0 <= j < |c.order| ==> c.order[j] < |c.slots|
  {
    c.slots[c.order[i]].name == name && !Live(c.slots[c.order[i]])
  }

  /** Looking a program up by name finds a process exactly when there is one that no empty slot before it in the list
      hides by the name it still carries. */
  lemma {:induction false} NameFinds(c: Cache, name: string, k: nat)
    requires WellFormed(c)
    ensures NameToPid(c, name, k) != 0 ==>
              exists j :: k <= j < |c.order| && c.slots[c.order[j]].pid == NameToPid(c, name, k)
                          && c.slots[c.order[j]].name == name
                          && forall i :: k <= i < j ==> c.slots[c.order[i]].name != name
    ensures NameToPid(c, name, k) != 0 <==>
            exists j :: k <= j < |c.order| && Live(c.slots[c.order[j]]) && c.slots[c.order[j]].name == name
                        && forall i :: k <= i < j ==> !StaleName(c, name, i)
    decreases |c.order| - k
  {
    if k < |c.order| {
      if c.slots[c.order[k]].name != name {
        NameFinds(c, name, k + 1);
      } else {
        assert StaleName(c, name, k) || Live(c.slots[c.order[k]]);
      }
    }
  }

  /** With the list in order nothing is hidden. */
  lemma NameFindsInOrder(c: Cache, stamp: seq<int>, name: string)
    requires WellFormed(c) && Lru(c, stamp)
    ensures NameToPid(c, name, 0) != 0 <==> exists i :: 0 <= i < |c.slots| && Live(c.slots[i]) && c.slots[i].name == name
  {
    NameFinds(c, name, 0);
    if i :| 0 <= i < |c.slots| && Live(c.slots[i]) && c.slots[i].name == name {
      assert c.order[IndexOf(c.order, i)] == i;
    }
  }

  // ---------------------------------------------------------------- processes in use

  /** The process stays in its slot. */
  predicate SameProcess(s: Slot, s': Slot) {
    s'.pid == s.pid && s'.time == s.time && s'.pno == s.pno && s'.name == s.name
  }

  /** What one operation may do to a live process that is not reported dead: an active one stays, and stays active
      unless it is the one disconnected; a locked one stays, and stays locked unless it is the one unlocked or an
      idle one whose lock a dump breaks. */
  ghost predicate Protected(s: Slot, s': Slot, op: Op) {
    && (s.active ==> SameProcess(s, s') && (s'.active || (op.Disconnects? && op.pid == s.pid)))
    && (s.locked && !(op.Dumps? && op.breakLocks && !s.active) ==>
          SameProcess(s, s') && (s'.locked || (op.Unlocks? && op.pid == s.pid)))
  }

  lemma CheckupSpares(c: Cache, dead: set<int>, i: nat)
    requires i < |c.slots| && c.slots[i].pid !in dead
    ensures Checkup(c, dead).slots[i] == c.slots[i]
  {
    SweepSlots(c, |c.slots|, Dead(dead), i);
  }

  lemma ConnectProtects(c: Cache, name: string, env: Env, i: nat)
    requires WellFormed(c) && i < |c.slots| && Busy(c.slots[i])
    ensures var c' := ConnectChecked(c, name, env).0;
            && SameProcess(c.slots[i], c'.slots[i]) && c'.slots[i].locked == c.slots[i].locked
            && (c.slots[i].active ==> c'.slots[i].active)
  {
    FindProcFound(c, name, 0);
    match FindProc(c, name, 0)
    case None => SpawnProtects(c, name, 0, env, i);
    case Some(k) =>
      if !Busy(c.slots[k]) && Stale(c.slots[k], env.mtime) {
        CloseKeeps(c, k);
        SpawnProtects(Close(c, k), name, if env.mtime == None then 0 else env.mtime.value, env, i);
      }
  }

  lemma SpawnProtects(c: Cache, name: string, t: int, env: Env, i: nat)
    requires WellFormed(c) && i < |c.slots| && Busy(c.slots[i])
    ensures SpawnInto(c, name, t, env).0.slots[i] == c.slots[i]
  {
  }

  lemma StepProtects(c: Cache, op: Op, i: nat)
    requires WellFormed(c) && i < |c.slots| && Live(c.slots[i]) && c.slots[i].pid !in DeadIn(op)
    ensures |Step(c, op).slots| == |c.slots| && Protected(c.slots[i], Step(c, op).slots[i], op)
  {
    StepKeeps(c, op);
    SweepKeeps(c, |c.slots|, Dead(DeadIn(op)));
    CheckupSpares(c, DeadIn(op), i);
    var c1 := Checkup(c, DeadIn(op));
    match op
    case Connects(name, env) => if Busy(c.slots[i]) { ConnectProtects(c1, name, env, i); }
    case Dumps(pid, breakLocks, dead) => SweepSlots(c1, |c.slots|, Dump(pid, breakLocks), i);
    case Prunes(pno, dead) => SweepSlots(c1, |c.slots|, Prune(pno), i);
    case _ =>
  }

  /** No sequence of operations closes a process whose task is active: as long as the process is not disconnected
      and not reported dead, its slot keeps it, active. */
  lemma {:induction false} ActiveStays(r: Run, ops: seq<Op>, i: nat)
    requires WellFormed(r.c) && i < |r.c.slots| && Live(r.c.slots[i]) && r.c.slots[i].active
    requires forall k :: 0 <= k < |ops| ==>
               r.c.slots[i].pid !in DeadIn(ops[k]) && !(ops[k].Disconnects? && ops[k].pid == r.c.slots[i].pid)
    ensures SameProcess(r.c.slots[i], After(r, ops).c.slots[i]) && After(r, ops).c.slots[i].active
    decreases |ops|
  {
    if ops != [] {
      ActiveStays(r, ops[..|ops| - 1], i);
      StepProtects(After(r, ops[..|ops| - 1]).c, ops[|ops| - 1], i);
    }
  }

  /** A locked process is closed only by a dump that breaks locks, as long as it is not unlocked and not reported
      dead. */
  lemma {:induction false} LockedStays(r: Run, ops: seq<Op>, i: nat)
    requires WellFormed(r.c) && i < |r.c.slots| && Live(r.c.slots[i]) && r.c.slots[i].locked
    requires forall k :: 0 <= k < |ops| ==>
               && r.c.slots[i].pid !in DeadIn(ops[k]) && !(ops[k].Unlocks? && ops[k].pid == r.c.slots[i].pid)
               && !(ops[k].Dumps? && ops[k].breakLocks)
    ensures SameProcess(r.c.slots[i], After(r, ops).c.slots[i]) && After(r, ops).c.slots[i].locked
    decreases |ops|
  {
    if ops != [] {
      LockedStays(r, ops[..|ops| - 1], i);
      StepProtects(After(r, ops[..|ops| - 1]).c, ops[|ops| - 1], i);
    }
  }

  /** Which processes a dump or a prune closes, exactly. */
  lemma ClosedBySweep(c: Cache, dead: set<int>, i: nat)
    requires WellFormed(c) && i < |c.slots| && Live(c.slots[i])
    ensures forall pid, breakLocks ::
              |Step(c, Dumps(pid, breakLocks, dead)).slots| == |c.slots| &&
              (!Live(Step(c, Dumps(pid, breakLocks, dead)).slots[i]) <==>
               || c.slots[i].pid in dead
               || (!c.slots[i].active && (c.slots[i].locked ==> breakLocks) && (pid == 0 || pid == c.slots[i].pid)))
    ensures forall pno ::
              |Step(c, Prunes(pno, dead)).slots| == |c.slots| &&
              (!Live(Step(c, Prunes(pno, dead)).slots[i]) <==>
               c.slots[i].pid in dead || (!Busy(c.slots[i]) && c.slots[i].pno > pno))
  {
    var c1 := Checkup(c, dead);
    SweepSlots(c, |c.slots|, Dead(dead), i);
    forall pid, breakLocks
      ensures DumpCache(c, pid, breakLocks, dead).slots[i] == SlotAfter(SlotAfter(c.slots[i], Dead(dead)), Dump(pid, breakLocks))
    {
      SweepSlots(c1, |c.slots|, Dump(pid, breakLocks), i);
    }
    forall pno ensures PruneCache(c, pno, dead).slots[i] == SlotAfter(SlotAfter(c.slots[i], Dead(dead)), Prune(pno)) {
      SweepSlots(c1, |c.slots|, Prune(pno), i);
    }
  }

  lemma {:induction false} FindPidFound(c: Cache, pid: int, k: nat)
    requires WellFormed(c)
    ensures FindPid(c, pid, k) == None ==> forall j :: k <= j < |c.order| ==> c.slots[c.order[j]].pid != pid
    decreases |c.order| - k
  {
    if k < |c.order| { FindPidFound(c, pid, k + 1); }
  }

  lemma NoPidAnywhere(c: Cache, pid: int)
    requires WellFormed(c) && FindPid(c, pid, 0) == None
    ensures forall i :: 0 <= i < |c.slots| ==> c.slots[i].pid != pid
  {
    FindPidFound(c, pid, 0);
    forall i | 0 <= i < |c.slots| ensures c.slots[i].pid != pid { assert c.order[IndexOf(c.order, i)] == i; }
  }

  /** No two processes in the cache have the same pid. */
  ghost predicate DistinctPids(c: Cache) {
    forall i, j :: 0 <= i < |c.slots| && 0 <= j < |c.slots| && i != j && Live(c.slots[i]) ==>
        c.slots[i].pid != c.slots[j].pid
  }

  /** pr_disconnect makes exactly the process named idle, besides clearing away the dead ones; pr_lock and pr_unlock set
      and clear exactly its lock. */
  lemma FlagsExact(c: Cache, pid: int, dead: set<int>)
    requires WellFormed(c) && DistinctPids(c) && pid != 0
    ensures forall i :: 0 <= i < |c.slots| && c.slots[i].pid !in dead ==>
              |Step(c, Disconnects(pid, dead)).slots| == |c.slots| &&
              Step(c, Disconnects(pid, dead)).slots[i]
                == if c.slots[i].pid == pid then c.slots[i].(active := false) else c.slots[i]
    ensures forall i :: 0 <= i < |c.slots| ==>
              |Step(c, Locks(pid)).slots| == |c.slots| &&
              Step(c, Locks(pid)).slots[i] == if c.slots[i].pid == pid then c.slots[i].(locked := true) else c.slots[i]
    ensures forall i :: 0 <= i < |c.slots| ==>
              |Step(c, Unlocks(pid)).slots| == |c.slots| &&
              Step(c, Unlocks(pid)).slots[i] == if c.slots[i].pid == pid then c.slots[i].(locked := false) else c.slots[i]
  {
    SweepKeeps(c, |c.slots|, Dead(dead));
    var c1 := Checkup(c, dead);
    forall i | 0 <= i < |c.slots| ensures c1.slots[i] == SlotAfter(c.slots[i], Dead(dead)) {
      SweepSlots(c, |c.slots|, Dead(dead), i);
    }
    if FindPid(c1, pid, 0) == None { NoPidAnywhere(c1, pid); }
    if FindPid(c, pid, 0) == None { NoPidAnywhere(c, pid); }
  }

  /** A process just spawned has a pid that no other living process of the cache has. */
  predicate FreshPid(c: Cache, op: Op) {
    op.Connects? && op.env.newPid != 0 ==>
      forall j :: 0 <= j < |c.slots| && c.slots[j].pid !in op.env.dead ==> c.slots[j].pid != op.env.newPid
  }

  /** Slot by slot a connect leaves the pid, or clears it, or, in one slot, sets the new one. */
  lemma ConnectPids(c: Cache, name: string, env: Env, j: nat)
    requires WellFormed(c) && j < |c.slots|
    ensures var (c', r) := ConnectChecked(c, name, env);
            || c'.slots[j].pid in {0, c.slots[j].pid}
            || (r == Connected(j) && c'.slots[j].pid == env.newPid != 0)
  {
    FindProcFound(c, name, 0);
    match FindProc(c, name, 0)
    case None => SpawnPids(c, name, 0, env, j);
    case Some(i) =>
      if !Busy(c.slots[i]) && Stale(c.slots[i], env.mtime) {
        CloseKeeps(c, i);
        SpawnPids(Close(c, i), name, if env.mtime == None then 0 else env.mtime.value, env, j);
      }
  }

  lemma SpawnPids(c: Cache, name: string, t: int, env: Env, j: nat)
    requires WellFormed(c) && j < |c.slots|
    ensures var (c', r) := SpawnInto(c, name, t, env);
            || c'.slots[j].pid in {0, c.slots[j].pid}
            || (r == Connected(j) && c'.slots[j].pid == env.newPid != 0)
  {
  }

  lemma DistinctAfter(c: Cache, c': Cache, w: int, p: int)
    requires DistinctPids(c) && |c'.slots| == |c.slots| && forall j :: 0 <= j < |c.slots| ==> c.slots[j].pid != p
    requires forall j :: 0 <= j < |c.slots| ==> c'.slots[j].pid in {0, c.slots[j].pid} || (j == w && c'.slots[j].pid == p)
    ensures DistinctPids(c')
  {
  }

  lemma ConnectDistinct(c: Cache, name: string, env: Env)
    requires WellFormed(c) && DistinctPids(c)
    requires env.newPid != 0 ==> forall j :: 0 <= j < |c.slots| ==> c.slots[j].pid != env.newPid
    ensures DistinctPids(ConnectChecked(c, name, env).0)
  {
    var (c', r) := ConnectChecked(c, name, env);
    var w: int := if r.Connected? then r.slot else -1;
    forall j | 0 <= j < |c.slots|
      ensures c'.slots[j].pid in {0, c.slots[j].pid} || (j == w && c'.slots[j].pid == env.newPid != 0)
    {
      ConnectPids(c, name, env, j);
    }
    if env.newPid != 0 { DistinctAfter(c, c', w, env.newPid); }
  }

  lemma SweepDistinct(c: Cache, n: nat, k: Sweep)
    requires n <= |c.slots| && DistinctPids(c)
    ensures DistinctPids(SweepAll(c, n, k))
  {
    forall i | 0 <= i < |c.slots| ensures SweepAll(c, n, k).slots[i].pid in {0, c.slots[i].pid} {
      SweepSlots(c, n, k, i);
    }
  }

  lemma StepDistinct(c: Cache, op: Op)
    requires WellFormed(c) && DistinctPids(c) && FreshPid(c, op)
    ensures DistinctPids(Step(c, op))
  {
    SweepKeeps(c, |c.slots|, Dead(DeadIn(op)));
    SweepDistinct(c, |c.slots|, Dead(DeadIn(op)));
    var c1 := Checkup(c, DeadIn(op));
    match op
    case Connects(name, env) =>
      forall j | 0 <= j < |c.slots| ensures env.newPid != 0 ==> c1.slots[j].pid != env.newPid {
        SweepSlots(c, |c.slots|, Dead(env.dead), j);
      }
      ConnectDistinct(c1, name, env);
    case Dumps(pid, breakLocks, dead) => SweepDistinct(c1, |c.slots|, Dump(pid, breakLocks));
    case Prunes(pno, dead) => SweepDistinct(c1, |c.slots|, Prune(pno));
    case _ =>
  }

  ghost predicate FreshPids(r: Run, ops: seq<Op>)
    requires WellFormed(r.c)
  {
    ops == [] || (FreshPids(r, ops[..|ops| - 1]) && FreshPid(After(r, ops[..|ops| - 1]).c, ops[|ops| - 1]))
  }

  /** Over every run in which the pids of new processes are fresh, the pids in the cache are distinct, as FlagsExact
      supposes. */
  lemma {:induction false} AlwaysDistinct(r: Run, ops: seq<Op>)
    requires Fresh(r) && WellFormed(r.c) && FreshPids(r, ops)
    ensures DistinctPids(After(r, ops).c)
    decreases |ops|
  {
    if ops != [] {
      AlwaysDistinct(r, ops[..|ops| - 1]);
      StepDistinct(After(r, ops[..|ops| - 1]).c, ops[|ops| - 1]);
    }
  }

  // ---------------------------------------------------------------- modification times

  /** The time kept for a new process: that of its executable when first asked, else when asked after the spawn. */
  function TimeOf(first: Option<int>, later: Option<int>): int {
    if first.Some? && first.value != 0 then first.value else if later == None then 0 else later.value
  }

  /** An idle process, not locked, that runs the program is reused exactly when its executable is there and no newer
      than it was; otherwise it is closed and one is spawned, with the time the executable has now. */
  lemma ReusedIff(c: Cache, name: string, env: Env, i: nat)
    requires WellFormed(c) && FindProc(c, name, 0) == Some(i) && !Busy(c.slots[i]) && env.newPid != 0
    ensures var (c', r) := ConnectChecked(c, name, env);
            && r == Connected(i)
            && (c'.spawned == c.spawned <==> env.mtime.Some? && env.mtime.value <= c.slots[i].time)
            && (c'.spawned == c.spawned ==> c'.closed == c.closed && SameProcess(c.slots[i], c'.slots[i]))
            && (c'.spawned != c.spawned ==>
                  c'.closed == c.closed + [c.slots[i].pid] && c'.slots[i].time == TimeOf(env.mtime, env.mtimeLater))
  {
    FindProcFound(c, name, 0);
    ConnectUses(c, name, env);
    if Stale(c.slots[i], env.mtime) {
      StaleReplaced(c, i);
      CloseKeeps(c, i);
    }
  }

  /** The process looked up is, of those that offer the program, the first in the list. */
  lemma {:induction false} FindProcIsFirst(c: Cache, name: string, k: nat)
    requires WellFormed(c) && k <= |c.order|
    ensures match FindProc(c, name, k)
            case None => forall j :: k <= j < |c.order| ==> !Offers(c.slots[c.order[j]], name)
            case Some(i) => exists j :: (k <= j < |c.order| && c.order[j] == i && Offers(c.slots[i], name)
                            && forall j' :: k <= j' < j ==> !Offers(c.slots[c.order[j']], name))
    decreases |c.order| - k
  {
    if k < |c.order| && !Offers(c.slots[c.order[k]], name) { FindProcIsFirst(c, name, k + 1); }
  }

  /** A new process: its pid, its program, the next number, and the time the environment gave for its executable, asked
      first only if an older process of the program was found. */
  lemma NewProcess(c: Cache, name: string, env: Env)
    requires WellFormed(c)
    ensures var (c', r) := ConnectChecked(c, name, env);
            r.Connected? && c'.spawned != c.spawned ==>
              && r.slot < |c'.slots| && c'.nextPno == c.nextPno + 1
              && var time := TimeOf(if FindProc(c, name, 0) == None then None else env.mtime, env.mtimeLater);
                 c'.slots[r.slot] == Slot(env.newPid, time, true, false, c.nextPno, name)
  {
    FindProcFound(c, name, 0);
    match FindProc(c, name, 0)
    case None => SpawnNew(c, name, 0, env);
    case Some(i) =>
      if !Busy(c.slots[i]) && Stale(c.slots[i], env.mtime) {
        CloseKeeps(c, i);
        SpawnNew(Close(c, i), name, if env.mtime == None then 0 else env.mtime.value, env);
      }
  }

  lemma SpawnNew(c: Cache, name: string, t: int, env: Env)
    requires WellFormed(c)
    ensures var (c', r) := SpawnInto(c, name, t, env);
            r.Connected? ==>
              && r.slot < |c'.slots| && c'.nextPno == c.nextPno + 1
              && c'.slots[r.slot] == Slot(env.newPid, if t != 0 then t else TimeOf(None, env.mtimeLater), true, false,
                                          c.nextPno, name)
  {
  }

  /** Clearing away other processes leaves a process at the head of the list there. */
  lemma {:induction false} HeadStays(c: Cache, n: nat, k: Sweep, i: nat)
    requires WellFormed(c) && n <= |c.slots| && i < |c.slots| && c.order[0] == i && Live(c.slots[i])
    requires Live(SlotAfter(c.slots[i], k))
    ensures SweepAll(c, n, k).order != [] && SweepAll(c, n, k).order[0] == i
  {
    if n > 0 {
      var b := SweepAll(c, n - 1, k);
      SweepKeeps(c, n - 1, k);
      HeadStays(c, n - 1, k, i);
      SweepSlots(c, n - 1, k, n - 1);
      SweepLastIs(c, n, k, b);
      if n - 1 != i { BackKeepsHead(b.order, n - 1); }
    }
  }

  lemma BackKeepsHead(order: seq<nat>, i: nat)
    requires IsOrder(order, |order|) && i < |order| && order[0] != i
    ensures ToBack(order, i) != [] && ToBack(order, i)[0] == order[0]
  {
    WithoutAt(order, i, 0);
  }

  /** A process spawned when the time of the executable was t, and disconnected since, is reused by the next connect
      exactly when the time answered then is at most t. */
  lemma ReconnectReuses(c: Cache, name: string, env: Env, t: int, dead: set<int>, env2: Env)
    requires WellFormed(c) && Connect(c, name, env).1.Connected? && Connect(c, name, env).0.spawned != c.spawned
    requires env.mtimeLater == Some(t) && env.mtime in {None, Some(t)}
    requires env.newPid !in dead && env.newPid !in env2.dead
    ensures var (c1, r) := Connect(c, name, env);
            WellFormed(c1) && WellFormed(Disconnect(c1, env.newPid, dead)) &&
            var c2 := Disconnect(c1, env.newPid, dead);
            var (c3, r3) := Connect(c2, name, env2);
            r3 == r && c3.spawned == c2.spawned <==> env2.mtime.Some? && env2.mtime.value <= t
  {
    var (c1, r) := Connect(c, name, env);
    StepKeeps(c, Connects(name, env));
    StepKeeps(c1, Disconnects(env.newPid, dead));
    SpawnedAtHead(c, name, env, t);
    IdleAtHead(c1, r.slot, env.newPid, dead);
    var c2 := Disconnect(c1, env.newPid, dead);
    OfferedFirst(c2, r.slot, name, env2);
  }

  lemma {:induction false} SweepSpawned(c: Cache, n: nat, k: Sweep)
    requires n <= |c.slots|
    ensures SweepAll(c, n, k).spawned == c.spawned
  {
    if n > 0 { SweepSpawned(c, n - 1, k); }
  }

  lemma SpawnedAtHead(c: Cache, name: string, env: Env, t: int)
    requires WellFormed(c) && Connect(c, name, env).1.Connected? && Connect(c, name, env).0.spawned != c.spawned
    requires env.mtimeLater == Some(t) && env.mtime in {None, Some(t)}
    ensures var (c1, r) := Connect(c, name, env);
            WellFormed(c1) && r.slot < |c1.slots| && c1.order[0] == r.slot && Live(c1.slots[r.slot])
            && c1.slots[r.slot] == Slot(env.newPid, t, true, false, c.nextPno, name)
  {
    StepKeeps(c, Connects(name, env));
    SweepKeeps(c, |c.slots|, Dead(env.dead));
    SweepSpawned(c, |c.slots|, Dead(env.dead));
    SweepNextPno(c, |c.slots|, Dead(env.dead));
    ConnectUses(Checkup(c, env.dead), name, env);
    NewProcess(Checkup(c, env.dead), name, env);
  }

  lemma IdleAtHead(c: Cache, i: nat, pid: int, dead: set<int>)
    requires WellFormed(c) && i < |c.slots| && c.order[0] == i && c.slots[i].pid == pid != 0 && pid !in dead
    ensures var c' := Disconnect(c, pid, dead);
            |c'.slots| == |c.slots| && c'.order != [] && c'.order[0] == i && c'.slots[i] == c.slots[i].(active := false)
  {
    SweepKeeps(c, |c.slots|, Dead(dead));
    HeadStays(c, |c.slots|, Dead(dead), i);
    SweepSlots(c, |c.slots|, Dead(dead), i);
    assert FindPid(Checkup(c, dead), pid, 0) == Some(i);
  }

  lemma OfferedFirst(c: Cache, i: nat, name: string, env: Env)
    requires WellFormed(c) && i < |c.slots| && c.order[0] == i && Offers(c.slots[i], name) && !c.slots[i].locked
    requires c.slots[i].pid !in env.dead
    ensures var (c', r) := Connect(c, name, env);
            r == Connected(i) && c'.spawned == c.spawned <==> env.mtime.Some? && env.mtime.value <= c.slots[i].time
  {
    var c1 := Checkup(c, env.dead);
    SweepKeeps(c, |c.slots|, Dead(env.dead));
    HeadStays(c, |c.slots|, Dead(env.dead), i);
    SweepSlots(c, |c.slots|, Dead(env.dead), i);
    SweepSpawned(c, |c.slots|, Dead(env.dead));
    assert FindProc(c1, name, 0) == Some(i);
    if Stale(c1.slots[i], env.mtime) { StaleSpawns(c1, i, name, env); }
  }

  lemma StaleSpawns(c: Cache, i: nat, name: string, env: Env)
    requires WellFormed(c) && FindProc(c, name, 0) == Some(i) && !Busy(c.slots[i]) && Stale(c.slots[i], env.mtime)
    ensures var (c', r) := ConnectChecked(c, name, env);
            r.Connected? ==> c'.spawned != c.spawned
  {
    FindProcFound(c, name, 0);
    CloseKeeps(c, i);
  }

  // ---------------------------------------------------------------- process numbers

  /** What a sweep leaves of a slot: all, or all but the process and its flags. */
  lemma OnlyEmptied(s: Slot, k: Sweep)
    requires Busy(s) ==> Live(s)
    ensures SlotAfter(s, k) in {s, s.(pid := 0, active := false, locked := false)}
  {
  }

  /** A dump that breaks locks starts the numbers again, any other leaves them. */
  lemma NumbersAfterDump(c: Cache, pid: int, dead: set<int>, name: string, env: Env)
    requires WellFormed(c)
    ensures DumpCache(c, pid, false, dead).nextPno == c.nextPno
    ensures var c1 := DumpCache(c, pid, true, dead);
            WellFormed(c1) &&
            var (c', r) := Connect(c1, name, env);
            r.Connected? && c'.spawned != c1.spawned ==> r.slot < |c'.slots| && c'.slots[r.slot].pno == 1
  {
    var c1 := DumpCache(c, pid, true, dead);
    StepKeeps(c, Dumps(pid, true, dead));
    SweepNextPno(c, |c.slots|, Dead(dead));
    SweepNextPno(Checkup(c, dead), |c.slots|, Dump(pid, false));
    SweepKeeps(c1, |c1.slots|, Dead(env.dead));
    SweepSpawned(c1, |c1.slots|, Dead(env.dead));
    SweepNextPno(c1, |c1.slots|, Dead(env.dead));
    NewProcess(Checkup(c1, env.dead), name, env);
  }

  ghost predicate Numbered(c: Cache) {
    forall i :: 0 <= i < |c.slots| && Live(c.slots[i]) ==> c.slots[i].pno < c.nextPno
  }

  /** A slot holds the process it held, or one numbered since. */
  predicate OldOrNewer(s: Slot, s': Slot, pno: int) {
    Live(s') ==> (Live(s) && SameProcess(s, s')) || s'.pno >= pno
  }

  lemma SweepNumbers(c: Cache, n: nat, k: Sweep)
    requires n <= |c.slots|
    ensures SweepAll(c, n, k).nextPno == c.nextPno
    ensures forall i :: 0 <= i < |c.slots| ==> OldOrNewer(c.slots[i], SweepAll(c, n, k).slots[i], c.nextPno)
    ensures forall i :: 0 <= i < |c.slots| && Live(SweepAll(c, n, k).slots[i]) ==>
              Live(c.slots[i]) && SweepAll(c, n, k).slots[i].pno == c.slots[i].pno
  {
    SweepNextPno(c, n, k);
    forall i | 0 <= i < |c.slots|
      ensures SweepAll(c, n, k).slots[i] == if i < n then SlotAfter(c.slots[i], k) else c.slots[i]
    {
      SweepSlots(c, n, k, i);
    }
  }

  lemma {:induction false} SweepNextPno(c: Cache, n: nat, k: Sweep)
    requires n <= |c.slots|
    ensures SweepAll(c, n, k).nextPno == c.nextPno
  {
    if n > 0 { SweepNextPno(c, n - 1, k); }
  }

  ghost predicate Renumbered(c: Cache, c': Cache) {
    && |c'.slots| == |c.slots| && c'.nextPno >= c.nextPno
    && forall i :: 0 <= i < |c.slots| ==>
         || (Live(c'.slots[i]) ==> Live(c.slots[i]) && SameProcess(c.slots[i], c'.slots[i]))
         || (c'.slots[i].pno == c.nextPno && c'.nextPno == c.nextPno + 1)
  }

  lemma SpawnNumbers(c: Cache, name: string, t: int, env: Env)
    requires WellFormed(c)
    ensures Renumbered(c, SpawnInto(c, name, t, env).0)
  {
  }

  lemma ClosedNumbers(c: Cache, i: nat, c': Cache)
    requires i < |c.slots| && Renumbered(Close(c, i), c')
    ensures Renumbered(c, c')
  {
  }

  lemma ConnectNumbers(c: Cache, name: string, env: Env)
    requires WellFormed(c)
    ensures Renumbered(c, ConnectChecked(c, name, env).0)
  {
    FindProcFound(c, name, 0);
    match FindProc(c, name, 0)
    case None => SpawnNumbers(c, name, 0, env);
    case Some(i) =>
      if !Busy(c.slots[i]) && Stale(c.slots[i], env.mtime) {
        CloseKeeps(c, i);
        SpawnNumbers(Close(c, i), name, if env.mtime == None then 0 else env.mtime.value, env);
        ClosedNumbers(c, i, ConnectChecked(c, name, env).0);
      }
  }

  /** Numbers are given in order of time, until a dump that breaks locks starts them again. */
  lemma StepNumbers(c: Cache, op: Op)
    requires WellFormed(c) && Numbered(c) && !(op.Dumps? && op.breakLocks)
    ensures var c' := Step(c, op);
            && |c'.slots| == |c.slots| && Numbered(c') && c'.nextPno >= c.nextPno
            && forall i :: 0 <= i < |c.slots| ==> OldOrNewer(c.slots[i], c'.slots[i], c.nextPno)
  {
    StepKeeps(c, op);
    SweepKeeps(c, |c.slots|, Dead(DeadIn(op)));
    SweepNumbers(c, |c.slots|, Dead(DeadIn(op)));
    var c1 := Checkup(c, DeadIn(op));
    match op
    case Connects(name, env) => ConnectNumbers(c1, name, env);
    case Dumps(pid, breakLocks, dead) => SweepNumbers(c1, |c.slots|, Dump(pid, breakLocks));
    case Prunes(pno, dead) => SweepNumbers(c1, |c.slots|, Prune(pno));
    case _ =>
  }

  lemma {:induction false} RunNumbers(r: Run, ops: seq<Op>)
    requires WellFormed(r.c) && Numbered(r.c) && forall k :: 0 <= k < |ops| ==> !(ops[k].Dumps? && ops[k].breakLocks)
    ensures var c' := After(r, ops).c;
            && Numbered(c') && c'.nextPno >= r.c.nextPno
            && forall i :: 0 <= i < |r.c.slots| ==> OldOrNewer(r.c.slots[i], c'.slots[i], r.c.nextPno)
    decreases |ops|
  {
    if ops != [] {
      RunNumbers(r, ops[..|ops| - 1]);
      StepNumbers(After(r, ops[..|ops| - 1]).c, ops[|ops| - 1]);
    }
  }

  /** Pruning back to a number: of the processes that are neither busy nor dead it closes exactly those connected
      since that number was the last one given. */
  lemma PruneClosesNewer(r: Run, ops: seq<Op>, i: nat)
    requires WellFormed(r.c) && Numbered(r.c) && forall k :: 0 <= k < |ops| ==> !(ops[k].Dumps? && ops[k].breakLocks)
    requires i < |r.c.slots| && Live(After(r, ops).c.slots[i]) && !Busy(After(r, ops).c.slots[i])
    ensures var c' := After(r, ops).c;
            |Step(c', Prunes(r.c.nextPno - 1, {})).slots| == |r.c.slots| &&
            (!Live(Step(c', Prunes(r.c.nextPno - 1, {})).slots[i]) <==>
             !(Live(r.c.slots[i]) && SameProcess(r.c.slots[i], c'.slots[i])))
  {
    RunNumbers(r, ops);
    ClosedBySweep(After(r, ops).c, {}, i);
  }

  // ---------------------------------------------------------------- conservation

  /** The processes in the slots. */
  function Pids(slots: seq<Slot>): multiset<int> {
    if slots == [] then multiset{} else Pids(slots[..|slots| - 1]) + PidOf(slots[|slots| - 1])
  }

  function PidOf(s: Slot): multiset<int> {
    if Live(s) then multiset{s.pid} else multiset{}
  }

  lemma Swap(a: multiset<int>, b: multiset<int>, c: multiset<int>)
    ensures a + b + c == a + c + b
  {
  }

  lemma {:induction false} PidsUpdate(slots: seq<Slot>, i: nat, s: Slot)
    requires i < |slots|
    ensures Pids(slots[i := s]) + PidOf(slots[i]) == Pids(slots) + PidOf(s)
  {
    var n := |slots| - 1;
    var t := slots[i := s];
    if i < n {
      PidsUpdate(slots[..n], i, s);
      assert t[..n] == slots[..n][i := s] && t[n] == slots[n];
      Swap(Pids(t[..n]), PidOf(slots[n]), PidOf(slots[i]));
      Swap(Pids(slots[..n]), PidOf(slots[n]), PidOf(s));
    } else {
      assert t[..n] == slots[..n] && t[n] == s;
      Swap(Pids(slots[..n]), PidOf(s), PidOf(slots[n]));
    }
  }

  /** Every process spawned is either in the cache or was closed, once. */
  ghost predicate Conserved(c: Cache) {
    multiset(c.spawned) == Cached(c) + multiset(c.closed)
  }

  /** The processes in the cache. */
  function Cached(c: Cache): multiset<int> {
    Pids(c.slots)
  }

  /** The same, across an operation that changes slot i. */
  lemma ConservedBy(c: Cache, c': Cache, i: nat)
    requires i < |c.slots| == |c'.slots| && Conserved(c) && c'.slots == c.slots[i := c'.slots[i]]
    requires multiset(c'.spawned) + PidOf(c.slots[i]) + multiset(c.closed)
             == multiset(c.spawned) + PidOf(c'.slots[i]) + multiset(c'.closed)
    ensures Conserved(c')
  {
    PidsUpdate(c.slots, i, c'.slots[i]);
    Balance(multiset(c.spawned), multiset(c'.spawned), Pids(c.slots), Pids(c'.slots), multiset(c.closed), multiset(c'.closed),
            PidOf(c.slots[i]), PidOf(c'.slots[i]));
  }

  lemma Balance(s: multiset<int>, s': multiset<int>, p: multiset<int>, p': multiset<int>, c: multiset<int>,
                c': multiset<int>, o: multiset<int>, n: multiset<int>)
    requires p' + o == p + n && s == p + c && s' + o + c == s + n + c'
    ensures s' == p' + c'
  {
    forall x: int ensures s'[x] == (p' + c')[x] {
      assert (p' + o)[x] == (p + n)[x] && s[x] == (p + c)[x] && (s' + o + c)[x] == (s + n + c')[x];
    }
  }

  lemma CloseConserves(c: Cache, i: nat)
    requires i < |c.slots| && Conserved(c)
    ensures Conserved(Close(c, i))
  {
    if Live(c.slots[i]) && !Busy(c.slots[i]) {
      ConservedBy(c, Close(c, i), i);
    }
  }

  lemma FlagsConserve(c: Cache, i: nat, active: bool, locked: bool)
    requires i < |c.slots| && Conserved(c)
    ensures Conserved(c.(slots := c.slots[i := c.slots[i].(active := active, locked := locked)]))
  {
    ConservedBy(c, c.(slots := c.slots[i := c.slots[i].(active := active, locked := locked)]), i);
  }

  lemma {:induction false} SweepConserves(c: Cache, n: nat, k: Sweep)
    requires n <= |c.slots| && Conserved(c)
    ensures Conserved(SweepAll(c, n, k))
  {
    if n > 0 {
      SweepConserves(c, n - 1, k);
      SweepStepConserves(c, n, k);
    }
  }

  lemma SweepStepConserves(c: Cache, n: nat, k: Sweep)
    requires 0 < n <= |c.slots| && Conserved(SweepAll(c, n - 1, k))
    ensures Conserved(SweepLast(c, n, k))
  {
    var b, c' := SweepAll(c, n - 1, k), SweepLast(c, n, k);
    SweepLastIs(c, n, k, b);
    SweepOneConserves(b, c', n - 1, k);
  }

  lemma SweepOneConserves(c: Cache, c': Cache, i: nat, k: Sweep)
    requires i < |c.slots| && Conserved(c) && c' == SweepOne(c, i, k)
    ensures Conserved(c')
  {
    ConservedBy(c, c', i);
  }

  lemma FilledConserves(c: Cache, c': Cache, i: nat, name: string, time: int, pid: int)
    requires i < |c.slots| && Conserved(c) && !Live(c.slots[i]) && pid != 0 && c' == Filled(c, i, name, time, pid)
    ensures Conserved(c')
  {
    ConservedBy(c, c', i);
  }

  lemma SpawnConserves(c: Cache, name: string, t: int, env: Env)
    requires WellFormed(c) && Conserved(c)
    ensures Conserved(SpawnInto(c, name, t, env).0)
  {
    match FreeSlot(c, |c.order|)
    case None =>
    case Some(i) =>
      CloseConserves(c, i);
      var e := MoveToFront(Close(c, i), i);
      assert Cached(e) == Cached(Close(c, i));
      if env.newPid != 0 {
        var c' := SpawnInto(c, name, t, env).0;
        FilledConserves(e, c', i, name, c'.slots[i].time, env.newPid);
      }
  }

  lemma ConnectConserves(c: Cache, name: string, env: Env)
    requires WellFormed(c) && Conserved(c)
    ensures Conserved(ConnectChecked(c, name, env).0)
  {
    match FindProc(c, name, 0)
    case None => SpawnConserves(c, name, 0, env);
    case Some(i) =>
      FlagsConserve(c, i, true, c.slots[i].locked);
      CloseConserves(c, i);
      CloseKeeps(c, i);
      SpawnConserves(Close(c, i), name, if env.mtime == None then 0 else env.mtime.value, env);
  }

  lemma LockConserves(c: Cache, pid: int, locked: bool)
    requires WellFormed(c) && Conserved(c)
    ensures Conserved(SetLock(c, pid, locked))
  {
    if FindPid(c, pid, 0).Some? {
      var i := FindPid(c, pid, 0).value;
      FlagsConserve(c, i, c.slots[i].active, locked);
    }
  }

  lemma StepConserves(c: Cache, op: Op)
    requires WellFormed(c) && Conserved(c)
    ensures Conserved(Step(c, op))
  {
    SweepKeeps(c, |c.slots|, Dead(DeadIn(op)));
    SweepConserves(c, |c.slots|, Dead(DeadIn(op)));
    var c1 := Checkup(c, DeadIn(op));
    match op
    case Connects(name, env) => ConnectConserves(c1, name, env);
    case Disconnects(pid, dead) =>
      if FindPid(c1, pid, 0).Some? {
        var i := FindPid(c1, pid, 0).value;
        FlagsConserve(c1, i, false, c1.slots[i].locked);
      }
    case Locks(pid) => LockConserves(c, pid, true);
    case Unlocks(pid) => LockConserves(c, pid, false);
    case Dumps(pid, breakLocks, dead) => SweepConserves(c1, |c.slots|, Dump(pid, breakLocks));
    case Prunes(pno, dead) => SweepConserves(c1, |c.slots|, Prune(pno));
  }

  lemma {:induction false} NoPids(slots: seq<Slot>)
    requires forall i :: 0 <= i < |slots| ==> !Live(slots[i])
    ensures Pids(slots) == multiset{}
  {
    if slots != [] { NoPids(slots[..|slots| - 1]); }
  }

  /** Over every run: no process is lost, and none is closed twice. */
  lemma {:induction false} AlwaysConserved(r: Run, ops: seq<Op>)
    requires Fresh(r)
    ensures WellFormed(r.c) && Conserved(After(r, ops).c)
    decreases |ops|
  {
    FreshWellFormed(r);
    if ops == [] {
      NoPids(r.c.slots);
    } else {
      AlwaysConserved(r, ops[..|ops| - 1]);
      StepConserves(After(r, ops[..|ops| - 1]).c, ops[|ops| - 1]);
    }
  }
}
