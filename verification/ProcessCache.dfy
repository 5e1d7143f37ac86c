/** The process cache: a doubly linked list threaded through a fixed array of slots, proved to do to the list and the
    slots what ProcessCacheSpec says. Source: pkg/cl/prcache.c. */
module ProcessCache {
  import opened Chains
  import opened Wrappers
  import opened ProcessCacheSpec


  // ---------------------------------------------------------------- the links

  predicate LinksAt(up: seq<int>, dn: seq<int>, order: seq<nat>, k: nat)
    requires k < |order| && order[k] < |up| == |dn|
  {
    && up[order[k]] == (if k == 0 then NULL else order[k - 1])
    && dn[order[k]] == (if k == |order| - 1 then NULL else order[k + 1])
  }

  /** The links make the list order, from head to tail, in both directions. */
  ghost predicate Linked(up: seq<int>, dn: seq<int>, head: int, tail: int, order: seq<nat>) {
    && |up| == |dn| == MAXSUBPROC && order != [] && Distinct(order)
    && (forall k :: 0 <= k < |order| ==> order[k] < MAXSUBPROC)
    && head == order[0] && tail == order[|order| - 1]
    && forall k {:trigger LinksAt(up, dn, order, k)} :: 0 <= k < |order| ==> LinksAt(up, dn, order, k)
  }

  function UpWithout(up: seq<int>, dn: seq<int>, pr: nat): (r: seq<int>)
    requires pr < |up| == |dn| && -1 <= dn[pr] < |up|
    ensures |r| == |up|
  {
    if dn[pr] == NULL then up else up[dn[pr] := up[pr]]
  }

  function DnWithout(up: seq<int>, dn: seq<int>, pr: nat): (r: seq<int>)
    requires pr < |up| == |dn| && -1 <= up[pr] < |up|
    ensures |r| == |dn|
  {
    if up[pr] == NULL then dn else dn[up[pr] := dn[pr]]
  }

  lemma LinkBounds(up: seq<int>, dn: seq<int>, head: int, tail: int, order: seq<nat>, pr: nat)
    requires Linked(up, dn, head, tail, order) && pr in order
    ensures pr < MAXSUBPROC && -1 <= up[pr] < MAXSUBPROC && -1 <= dn[pr] < MAXSUBPROC
    ensures up[pr] == NULL <==> pr == head
    ensures dn[pr] == NULL <==> pr == tail
    ensures up[pr] != pr && dn[pr] != pr && (up[pr] == NULL || up[pr] in order) && (dn[pr] == NULL || dn[pr] in order)
  {
    assert LinksAt(up, dn, order, IndexOf(order, pr));
  }

  /** Taking out the node at position p leaves the node at position k of the shorter list with the right links. */
  lemma UnlinkAt(up: seq<int>, dn: seq<int>, order: seq<nat>, w: seq<nat>, p: nat, k: nat)
    requires |up| == |dn| == MAXSUBPROC && Distinct(order) && p < |order| && k < |w| == |order| - 1
    requires forall j :: 0 <= j < |order| ==> order[j] < MAXSUBPROC
    requires LinksAt(up, dn, order, p) && LinksAt(up, dn, order, if k < p then k else k + 1)
    requires forall j :: 0 <= j < |w| ==> w[j] == order[if j < p then j else j + 1]
    ensures LinksAt(UpWithout(up, dn, order[p]), DnWithout(up, dn, order[p]), w, k)
  {
    var q := if k < p then k else k + 1;
    assert w[k] == order[q] != order[p];
  }

  lemma WithoutShape(order: seq<nat>, pr: nat)
    requires pr in order
    ensures |WithoutSlot(order, pr)| == |order| - 1
    ensures forall k :: 0 <= k < |order| - 1 ==>
        WithoutSlot(order, pr)[k] == order[if k < IndexOf(order, pr) then k else k + 1]
  {
  }

  lemma UnlinkAll(up: seq<int>, dn: seq<int>, order: seq<nat>, p: nat, w: seq<nat>, up': seq<int>, dn': seq<int>)
    requires |up| == |dn| == MAXSUBPROC && Distinct(order) && p < |order| && |w| == |order| - 1
    requires forall k :: 0 <= k < |order| ==> order[k] < MAXSUBPROC
    requires forall k {:trigger LinksAt(up, dn, order, k)} :: 0 <= k < |order| ==> LinksAt(up, dn, order, k)
    requires forall k :: 0 <= k < |w| ==> w[k] == order[if k < p then k else k + 1]
    requires -1 <= up[order[p]] < MAXSUBPROC && -1 <= dn[order[p]] < MAXSUBPROC
    requires up' == UpWithout(up, dn, order[p]) && dn' == DnWithout(up, dn, order[p])
    ensures forall k :: 0 <= k < |w| ==> w[k] < MAXSUBPROC
    ensures forall k {:trigger LinksAt(up', dn', w, k)} :: 0 <= k < |w| ==> LinksAt(up', dn', w, k)
  {
    forall k | 0 <= k < |w| ensures w[k] < MAXSUBPROC && LinksAt(up', dn', w, k) {
      assert LinksAt(up, dn, order, p) && LinksAt(up, dn, order, if k < p then k else k + 1);
      UnlinkAt(up, dn, order, w, p, k);
    }
  }

  lemma UnlinkEnds(up: seq<int>, dn: seq<int>, head: int, tail: int, order: seq<nat>, pr: nat, w: seq<nat>)
    requires Linked(up, dn, head, tail, order) && pr in order && |order| >= 2 && |w| == |order| - 1
    requires pr < MAXSUBPROC
    requires forall k :: 0 <= k < |w| ==> w[k] == order[if k < IndexOf(order, pr) then k else k + 1]
    ensures Distinct(w) && pr !in w && forall x :: x in w ==> x in order
    ensures (if pr == head then dn[pr] else head) == w[0]
    ensures (if pr == tail then up[pr] else tail) == w[|w| - 1]
  {
    assert LinksAt(up, dn, order, IndexOf(order, pr));
  }

  lemma UnlinkLinked(up: seq<int>, dn: seq<int>, head: int, tail: int, order: seq<nat>, pr: nat)
    requires Linked(up, dn, head, tail, order) && pr in order && |order| >= 2
    ensures pr < MAXSUBPROC && -1 <= up[pr] < MAXSUBPROC && -1 <= dn[pr] < MAXSUBPROC
    ensures Linked(UpWithout(up, dn, pr), DnWithout(up, dn, pr), if pr == head then dn[pr] else head,
                   if pr == tail then up[pr] else tail, WithoutSlot(order, pr))
    ensures pr !in WithoutSlot(order, pr) && forall x :: x in WithoutSlot(order, pr) ==> x in order
  {
    LinkBounds(up, dn, head, tail, order, pr);
    var w := WithoutSlot(order, pr);
    WithoutShape(order, pr);
    UnlinkAll(up, dn, order, IndexOf(order, pr), w, UpWithout(up, dn, pr), DnWithout(up, dn, pr));
    UnlinkEnds(up, dn, head, tail, order, pr, w);
  }

  lemma FrontLinked(up: seq<int>, dn: seq<int>, head: int, tail: int, order: seq<nat>, pr: nat)
    requires Linked(up, dn, head, tail, order) && pr < MAXSUBPROC && pr !in order
    ensures Linked(up[pr := NULL][head := pr], dn[pr := head], pr, tail, [pr] + order)
  {
    var o, up', dn' := [pr] + order, up[pr := NULL][head := pr], dn[pr := head];
    forall k | 0 <= k < |o| ensures LinksAt(up', dn', o, k) {
      if k > 0 { assert LinksAt(up, dn, order, k - 1); }
    }
  }

  lemma BackLinked(up: seq<int>, dn: seq<int>, head: int, tail: int, order: seq<nat>, pr: nat)
    requires Linked(up, dn, head, tail, order) && pr < MAXSUBPROC && pr !in order
    ensures Linked(up[pr := tail], dn[pr := NULL][tail := pr], head, pr, order + [pr])
  {
    var o, up', dn' := order + [pr], up[pr := tail], dn[pr := NULL][tail := pr];
    forall k | 0 <= k < |o| ensures LinksAt(up', dn', o, k) {
      if k < |order| { assert LinksAt(up, dn, order, k); }
    }
  }

  lemma AtHeadAlready(order: seq<nat>, pr: nat)
    requires Distinct(order) && order != [] && order[0] == pr
    ensures ToFront(order, pr) == order
  {
    assert IndexOf(order, pr) == 0;
    assert [pr] + (order[..0] + order[1..]) == order;
  }

  lemma AtTailAlready(order: seq<nat>, pr: nat)
    requires Distinct(order) && order != [] && order[|order| - 1] == pr
    ensures ToBack(order, pr) == order
  {
    var k := |order| - 1;
    assert IndexOf(order, pr) == k;
    assert (order[..k] + order[k + 1..]) + [pr] == order;
  }

  // ---------------------------------------------------------------- the cache

  class ProcessCache {
    // pr_cache: the links and the other fields of each slot; NULL is -1.
    const up: array<int>
    const dn: array<int>
    const slots: array<Slot>
    var head: int
    var tail: int
    var size: nat
    var nextPno: int
    ghost var order: seq<nat>
    ghost var spawned: seq<int>
    ghost var closed: seq<int>

    ghost predicate ListOk()
      reads this, up, dn
    {
      up != dn && Linked(up[..], dn[..], head, tail, order)
    }

    ghost predicate Valid()
      reads this, up, dn, slots
    {
      ListOk() && size <= slots.Length == MAXSUBPROC && WellFormed(Model())
    }

    ghost function Model(): Cache
      reads this, slots
    {
      Cache(order, if size <= slots.Length then slots[..size] else [], nextPno, spawned, closed)
    }

    /** PR_UNLINK: the neighbours of the slot are linked to each other. */
    method Relink(pr: nat)
      requires up != dn && up.Length == dn.Length && pr < up.Length
      requires -1 <= up[pr] < up.Length && -1 <= dn[pr] < up.Length && up[pr] != pr && dn[pr] != pr
      modifies this`head, this`tail, up, dn
      ensures up[..] == old(UpWithout(up[..], dn[..], pr)) && dn[..] == old(DnWithout(up[..], dn[..], pr))
      ensures head == old(if dn[pr] != NULL && pr == head then dn[pr] else head)
      ensures tail == old(if up[pr] != NULL && pr == tail then up[pr] else tail)
    {
      if up[pr] != NULL {
        dn[up[pr]] := dn[pr];
        if pr == tail { tail := up[pr]; }
      }
      if dn[pr] != NULL {
        up[dn[pr]] := up[pr];
        if pr == head { head := dn[pr]; }
      }
    }

    /** PR_UNLINK: a slot that is in the list is taken out of it; one with no links is left alone. */
    method Unlink(pr: nat)
      requires ListOk() && pr < MAXSUBPROC
      requires if pr in order then |order| >= 2 else up[pr] == NULL && dn[pr] == NULL
      modifies this`head, this`tail, this`order, up, dn
      ensures ListOk() && order == WithoutSlot(old(order), pr) && pr !in order && forall x :: x in order ==> x in old(order)
      ensures forall i :: 0 <= i < MAXSUBPROC && i !in old(order) ==> up[i] == old(up[i]) && dn[i] == old(dn[i])
    {
      if pr in order {
        LinkBounds(up[..], dn[..], head, tail, order, pr);
        UnlinkLinked(up[..], dn[..], head, tail, order, pr);
      }
      Relink(pr);
      order := WithoutSlot(order, pr);
      assert Linked(up[..], dn[..], head, tail, order);
    }

    /** PR_TOHEAD: the slot moves, or is added, to the head of the list; the others keep their order. */
    method ToHead(pr: nat)
      requires ListOk() && pr < MAXSUBPROC
      requires pr in order || (up[pr] == NULL && dn[pr] == NULL)
      modifies this`head, this`tail, this`order, up, dn
      ensures ListOk() && order == ToFront(old(order), pr)
      ensures forall i :: 0 <= i < MAXSUBPROC && i !in old(order) && i != pr ==>
          up[i] == old(up[i]) && dn[i] == old(dn[i])
    {
      if head != pr {
        Unlink(pr);
        PushFront(pr);
      } else {
        AtHeadAlready(order, pr);
      }
    }

    method PushFront(pr: nat)
      requires ListOk() && pr < MAXSUBPROC && pr !in order
      modifies this`head, this`order, up, dn
      ensures ListOk() && order == [pr] + old(order)
      ensures forall i :: 0 <= i < MAXSUBPROC && i !in old(order) && i != pr ==>
          up[i] == old(up[i]) && dn[i] == old(dn[i])
    {
      FrontLinked(up[..], dn[..], head, tail, order, pr);
      dn[pr] := head;
      up[pr] := NULL;
      up[head] := pr;
      assert up[..] == old(up[..][pr := NULL][head := pr]) && dn[..] == old(dn[..][pr := head]);
      head := pr;
      order := [pr] + order;
    }

    /** PR_TOTAIL: the slot moves to the tail of the list; the others keep their order. */
    method ToTail(pr: nat)
      requires ListOk() && pr in order
      modifies this`head, this`tail, this`order, up, dn
      ensures ListOk() && order == ToBack(old(order), pr)
    {
      if tail != pr {
        Unlink(pr);
        PushBack(pr);
      } else {
        AtTailAlready(order, pr);
      }
    }

    method PushBack(pr: nat)
      requires ListOk() && pr < MAXSUBPROC && pr !in order
      modifies this`tail, this`order, up, dn
      ensures ListOk() && order == old(order) + [pr]
    {
      BackLinked(up[..], dn[..], head, tail, order, pr);
      up[pr] := tail;
      dn[pr] := NULL;
      dn[tail] := pr;
      assert up[..] == old(up[..][pr := tail]) && dn[..] == old(dn[..][pr := NULL][tail := pr]);
      tail := pr;
      order := order + [pr];
    }

    /** PR_INITCACHE, for a cache of the given size. */
    constructor (sz: nat)
      requires 2 <= sz <= MAXSUBPROC
      ensures Valid() && size == sz && fresh(up) && fresh(dn) && fresh(slots)
      ensures Model() == Cache(Descending(sz), seq(sz, i => Slot(0, 0, false, false, 0, "")), 1, [], [])
    {
      up := new int[MAXSUBPROC](i => NULL);
      dn := new int[MAXSUBPROC](i => NULL);
      slots := new Slot[MAXSUBPROC](i => Slot(0, 0, false, false, 0, ""));
      head, tail, size, nextPno := 0, 0, sz, 1;
      order, spawned, closed := [0], [], [];
      new;
      assert LinksAt(up[..], dn[..], order, 0);
      var n := 1;
      while n < size
        invariant 1 <= n <= size == sz && ListOk() && order == Descending(n)
        invariant forall i :: n <= i < MAXSUBPROC ==> up[i] == dn[i] == NULL
        invariant spawned == [] && closed == [] && nextPno == 1
        invariant forall i :: 0 <= i < MAXSUBPROC ==> slots[i] == Slot(0, 0, false, false, 0, "")
      {
        ToHead(n);
        DescendingStep(n);
        n := n + 1;
      }
      DescendingIsOrder(sz);
      assert slots[..size] == seq(sz, i => Slot(0, 0, false, false, 0, ""));
    }

    /** PR_PDISCONNECT */
    method PDisconnect(pr: nat)
      requires Valid() && pr < size
      modifies this`head, this`tail, this`order, this`closed, up, dn, slots
      ensures Valid() && Model() == Close(old(Model()), pr)
    {
      if slots[pr].pid == 0 || slots[pr].active || slots[pr].locked { return; }
      ghost var c := Model();
      CloseKeeps(c, pr);
      closed := closed + [slots[pr].pid];
      slots[pr] := slots[pr].(pid := 0);
      ToTail(pr);
      assert slots[..size] == c.slots[pr := c.slots[pr].(pid := 0)];
    }

    /** One turn of the loop of pr_checkup. */
    method CheckSlot(n: nat, dead: set<int>)
      requires Valid() && n < size
      modifies this`head, this`tail, this`order, this`closed, up, dn, slots
      ensures Valid() && Model() == SweepOne(old(Model()), n, Dead(dead))
    {
      if slots[n].pid != 0 && slots[n].pid in dead {
        SetSlot(n, slots[n].(active := false, locked := false));
        PDisconnect(n);
      }
    }

    /** PR_CHECKUP: dead is the set of processes c_prstati reports dead. */
    method CheckUp(dead: set<int>)
      requires Valid()
      modifies this`head, this`tail, this`order, this`closed, up, dn, slots
      ensures Valid() && Model() == Checkup(old(Model()), dead)
    {
      ghost var c := Model();
      for n := 0 to size
        invariant Valid() && |c.slots| == size && Model() == SweepAll(c, n, Dead(dead))
      {
        SweepNext(c, n, Dead(dead), Model());
        CheckSlot(n, dead);
      }
    }

    /** PR_FINDPROC */
    method FindProcess(name: string) returns (r: Option<nat>)
      requires Valid()
      ensures r == FindProc(Model(), name, 0)
    {
      var pr := head;
      ghost var k := 0;
      while pr != NULL
        invariant 0 <= k <= |order| && pr == (if k < |order| then order[k] else NULL)
        invariant FindProc(Model(), name, 0) == FindProc(Model(), name, k)
        decreases |order| - k
      {
        assert Model().slots[order[k]] == slots[pr];
        if slots[pr].pid != 0 && !slots[pr].active && slots[pr].name == name { return Some(pr); }
        assert LinksAt(up[..], dn[..], order, k);
        pr := dn[pr];
        k := k + 1;
      }
      r := None;
    }

    /** The loop of pr_pconnect that gets a process slot. */
    method FindSlot() returns (r: Option<nat>)
      requires Valid()
      ensures r == FreeSlot(Model(), |order|)
    {
      var pr := tail;
      ghost var k := |order|;
      while pr != NULL
        invariant 0 <= k <= |order| && pr == (if k > 0 then order[k - 1] else NULL)
        invariant FreeSlot(Model(), |order|) == FreeSlot(Model(), k)
        decreases k
      {
        assert Model().slots[order[k - 1]] == slots[pr];
        if !slots[pr].active && !slots[pr].locked { return Some(pr); }
        assert LinksAt(up[..], dn[..], order, k - 1);
        pr := up[pr];
        k := k - 1;
      }
      r := None;
    }

    /** The loops of pr_disconnect, pr_lock and pr_unlock: the slot of a process. */
    method FindByPid(pid: int) returns (r: Option<nat>)
      requires Valid()
      ensures r == FindPid(Model(), pid, 0)
    {
      var pr := head;
      ghost var k := 0;
      while pr != NULL
        invariant 0 <= k <= |order| && pr == (if k < |order| then order[k] else NULL)
        invariant FindPid(Model(), pid, 0) == FindPid(Model(), pid, k)
        decreases |order| - k
      {
        assert Model().slots[order[k]] == slots[pr];
        if slots[pr].pid == pid { return Some(pr); }
        assert LinksAt(up[..], dn[..], order, k);
        pr := dn[pr];
        k := k + 1;
      }
      r := None;
    }

    /** PR_PNAMETOPID */
    method PNameToPid(name: string, dead: set<int>) returns (pid: int)
      requires Valid()
      modifies this`head, this`tail, this`order, this`closed, up, dn, slots
      ensures Valid() && Model() == Checkup(old(Model()), dead) && pid == NameToPid(Model(), name, 0)
    {
      CheckUp(dead);
      pid := LookUp(name);
    }

    method LookUp(name: string) returns (pid: int)
      requires Valid()
      ensures pid == NameToPid(Model(), name, 0)
    {
      var pr := head;
      ghost var k := 0;
      while pr != NULL
        invariant 0 <= k <= |order| && pr == (if k < |order| then order[k] else NULL)
        invariant NameToPid(Model(), name, 0) == NameToPid(Model(), name, k)
        decreases |order| - k
      {
        assert Model().slots[order[k]] == slots[pr];
        if slots[pr].name == name { return slots[pr].pid; }
        assert LinksAt(up[..], dn[..], order, k);
        pr := dn[pr];
        k := k + 1;
      }
      pid := 0;
    }

    /** pr_tohead, for a slot of the cache. */
    method Front(pr: nat)
      requires Valid() && pr < size
      modifies this`head, this`tail, this`order, up, dn
      ensures Valid() && Model() == MoveToFront(old(Model()), pr)
    {
      MovesKeepOrder(order, pr, size);
      ToHead(pr);
    }

    method SetSlot(pr: nat, s: Slot)
      requires Valid() && pr < size && (Busy(s) ==> Live(s))
      modifies slots
      ensures Valid() && Model() == old(Model().(slots := Model().slots[pr := s]))
    {
      ghost var c := Model();
      slots[pr] := s;
      assert slots[..size] == c.slots[pr := s];
    }

    /** A new process in a slot, active. */
    method Fill(pr: nat, process: string, time: int, pid: int)
      requires Valid() && pr < size && pid != 0
      modifies this`spawned, this`nextPno, slots
      ensures Valid() && Model() == Filled(old(Model()), pr, process, time, pid)
    {
      ghost var c := Model();
      slots[pr] := Slot(pid, time, true, false, nextPno, process);
      assert slots[..size] == c.slots[pr := Slot(pid, time, true, false, nextPno, process)];
      spawned, nextPno := spawned + [pid], nextPno + 1;
    }

    /** A slot that is not busy is emptied and moved to the head. */
    method TakeSlot(pr: nat)
      requires Valid() && pr < size && !Busy(slots[pr])
      modifies this`head, this`tail, this`order, this`closed, up, dn, slots
      ensures Valid() && Model() == MoveToFront(Close(old(Model()), pr), pr)
    {
      if slots[pr].pid != 0 { PDisconnect(pr); }
      Front(pr);
    }

    /** The last part of pr_pconnect: get a process slot and spawn the subprocess in it. */
    method Spawn(process: string, t: int, env: Env) returns (outcome: Outcome)
      requires Valid()
      modifies this`head, this`tail, this`order, this`closed, this`spawned, this`nextPno, up, dn, slots
      ensures Valid() && (Model(), outcome) == SpawnInto(old(Model()), process, t, env)
    {
      var r := FindSlot();
      if r == None { return Deadlock; }
      var pr := r.value;
      TakeSlot(pr);
      if env.newPid == 0 { return SpawnFailed; }
      var time := if t != 0 then t else if env.mtimeLater == None then 0 else env.mtimeLater.value;
      Fill(pr, process, time, env.newPid);
      outcome := Connected(pr);
    }

    method Reuse(pr: nat)
      requires Valid() && pr < size && slots[pr].pid != 0
      modifies this`head, this`tail, this`order, up, dn, slots
      ensures Valid() && Model() == Activate(old(Model()), pr)
    {
      Front(pr);
      SetSlot(pr, slots[pr].(active := true));
    }

    /** PR_PCONNECT */
    method PConnect(process: string, env: Env) returns (outcome: Outcome)
      requires Valid()
      modifies this`head, this`tail, this`order, this`closed, this`spawned, this`nextPno, up, dn, slots
      ensures Valid() && (Model(), outcome) == Connect(old(Model()), process, env)
    {
      CheckUp(env.dead);
      var t := 0;
      var r := FindProcess(process);
      FindProcFound(Model(), process, 0);
      if r.Some? && !slots[r.value].active && !slots[r.value].locked {
        if env.mtime.Some? { t := env.mtime.value; }
        if env.mtime == None || t > slots[r.value].time {
          PDisconnect(r.value);
          r := None;
        }
      }
      if r.Some? {
        Reuse(r.value);
        outcome := Connected(r.value);
      } else {
        outcome := Spawn(process, t, env);
      }
    }

    /** PR_DISCONNECT */
    method PrDisconnect(pid: int, dead: set<int>)
      requires Valid()
      modifies this`head, this`tail, this`order, this`closed, up, dn, slots
      ensures Valid() && Model() == Disconnect(old(Model()), pid, dead)
    {
      CheckUp(dead);
      var r := FindByPid(pid);
      if r.Some? { SetSlot(r.value, slots[r.value].(active := false)); }
    }

    /** PR_LOCK */
    method Lock(pid: int)
      requires Valid()
      modifies slots
      ensures Valid() && Model() == SetLock(old(Model()), pid, true)
    {
      if pid != 0 {
        var r := FindByPid(pid);
        if r.Some? { SetSlot(r.value, slots[r.value].(locked := true)); }
      }
    }

    /** PR_UNLOCK */
    method Unlock(pid: int)
      requires Valid()
      modifies slots
      ensures Valid() && Model() == SetLock(old(Model()), pid, false)
    {
      if pid != 0 {
        var r := FindByPid(pid);
        if r.Some? { SetSlot(r.value, slots[r.value].(locked := false)); }
      }
    }

    /** One turn of the loop of pr_dumpcache. */
    method DumpSlot(n: nat, pid: int, breakLocks: bool)
      requires Valid() && n < size
      modifies this`head, this`tail, this`order, this`closed, up, dn, slots
      ensures Valid() && Model() == SweepOne(old(Model()), n, Dump(pid, breakLocks))
    {
      if (pid == 0 && slots[n].pid != 0) || pid == slots[n].pid {
        if breakLocks && !slots[n].active { SetSlot(n, slots[n].(locked := false)); }
        PDisconnect(n);
      }
    }

    /** PR_DUMPCACHE */
    method PrDumpCache(pid: int, breakLocks: bool, dead: set<int>)
      requires Valid()
      modifies this`head, this`tail, this`order, this`closed, this`nextPno, up, dn, slots
      ensures Valid() && Model() == DumpCache(old(Model()), pid, breakLocks, dead)
    {
      CheckUp(dead);
      ghost var c := Model();
      for n := 0 to size
        invariant Valid() && |c.slots| == size && Model() == SweepAll(c, n, Dump(pid, breakLocks))
      {
        SweepNext(c, n, Dump(pid, breakLocks), Model());
        DumpSlot(n, pid, breakLocks);
      }
      if breakLocks { nextPno := 1; }
    }

    /** One turn of the loop of pr_prunecache. */
    method PruneSlot(n: nat, pno: int)
      requires Valid() && n < size
      modifies this`head, this`tail, this`order, this`closed, up, dn, slots
      ensures Valid() && Model() == SweepOne(old(Model()), n, Prune(pno))
    {
      if slots[n].pid != 0 && slots[n].pno > pno { PDisconnect(n); }
    }

    /** PR_PRUNECACHE */
    method PrPruneCache(pno: int, dead: set<int>)
      requires Valid()
      modifies this`head, this`tail, this`order, this`closed, up, dn, slots
      ensures Valid() && Model() == PruneCache(old(Model()), pno, dead)
    {
      CheckUp(dead);
      ghost var c := Model();
      for n := 0 to size
        invariant Valid() && |c.slots| == size && Model() == SweepAll(c, n, Prune(pno))
      {
        SweepNext(c, n, Prune(pno), Model());
        PruneSlot(n, pno);
      }
    }
  }

  function Descending(n: nat): (r: seq<nat>) {
    seq(n, k requires 0 <= k < n => n - 1 - k)
  }

  lemma DescendingStep(n: nat)
    ensures ToFront(Descending(n), n) == Descending(n + 1)
  {
  }

  lemma DescendingIsOrder(n: nat)
    ensures IsOrder(Descending(n), n)
  {
    forall i | 0 <= i < n ensures i in Descending(n) {
      assert Descending(n)[n - 1 - i] == i;
    }
  }
}
