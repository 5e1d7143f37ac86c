/** Background jobs: the table of job slots, and the circular search for a free one. Source: pkg/cl/bkg.c. */
module BkgJobs {
  import opened Wrappers

  const NBKG := 32

  /** One slot: the number the system gave the job, its flags and its exit code. */
  datatype Job = Job(jobno: int, running: bool, service: bool, killed: bool, exitcode: int)

  predicate Busy(jobs: seq<Job>, job: int)
    requires 1 <= job <= |jobs|
  {
    jobs[job - 1].running
  }

  /** How many steps round it is from slot last, or from before the first slot, to a slot. */
  function Steps(last: int, job: int): (n: int)
    requires 0 <= last <= NBKG && 1 <= job <= NBKG
    ensures 1 <= n <= NBKG
  {
    if job > last then job - last else job - last + NBKG
  }

  /** The slot is the first free one after lastjobno, going round and not counting lastjobno itself. */
  ghost predicate FirstFree(jobs: seq<Job>, last: int, job: int)
    requires |jobs| == NBKG && 0 <= last <= NBKG
  {
    && 1 <= job <= NBKG && job != last && !Busy(jobs, job)
    && forall j :: 1 <= j <= NBKG && j != last && Steps(last, j) < Steps(last, job) ==> Busy(jobs, j)
  }

  /** Every slot other than lastjobno is busy. */
  ghost predicate Full(jobs: seq<Job>, last: int)
    requires |jobs| == NBKG
  {
    forall j :: 1 <= j <= NBKG && j != last ==> Busy(jobs, j)
  }

  /** There is one such slot, or none is free. */
  lemma FirstFreeUnique(jobs: seq<Job>, last: int, a: int, b: int)
    requires |jobs| == NBKG && 0 <= last <= NBKG && FirstFree(jobs, last, a)
    ensures FirstFree(jobs, last, b) ==> a == b
    ensures !Full(jobs, last)
  {
  }

  /** A slot after bkg_update: done gives the exit codes of the jobs c_prdone reports finished, waiting the slots whose
      jobs wait for service. */
  function Updated(b: Job, j: int, done: map<int, int>, waiting: set<int>): Job {
    if !b.running then b
    else if b.jobno in done then b.(exitcode := done[b.jobno], running := false, service := false)
    else b.(service := j in waiting)
  }

  /** The table with the first n slots updated. */
  function UpdatedTo(jobs: seq<Job>, n: nat, done: map<int, int>, waiting: set<int>): (r: seq<Job>)
    ensures |r| == |jobs|
  {
    seq(|jobs|, i requires 0 <= i < |jobs| => if i < n then Updated(jobs[i], i + 1, done, waiting) else jobs[i])
  }

  lemma UpdateStep(jobs: seq<Job>, n: nat, done: map<int, int>, waiting: set<int>)
    requires n < |jobs|
    ensures UpdatedTo(jobs, n, done, waiting)[n] == jobs[n]
    ensures UpdatedTo(jobs, n, done, waiting)[n := Updated(jobs[n], n + 1, done, waiting)] == UpdatedTo(jobs, n + 1, done, waiting)
  {
  }

  /** bkg_update ends exactly the running jobs that are finished, and these get their exit code; of those still running
      it notes which wait for service; slots without a running job stay as they are, and no number changes. */
  lemma UpdateSlot(jobs: seq<Job>, done: map<int, int>, waiting: set<int>, j: int)
    requires |jobs| == NBKG && 1 <= j <= NBKG
    ensures var (b, b') := (jobs[j - 1], UpdatedTo(jobs, NBKG, done, waiting)[j - 1]);
            && (Busy(UpdatedTo(jobs, NBKG, done, waiting), j) <==> Busy(jobs, j) && b.jobno !in done)
            && (b'.running ==> b'.exitcode == b.exitcode && (b'.service <==> j in waiting))
            && (b.running && !b'.running ==> done[b.jobno] == b'.exitcode && !b'.service)
            && (!b.running ==> b' == b) && b'.jobno == b.jobno && b'.killed == b.killed
  {
  }

  /** Slot j after bkg_kill of a job, or of all (0). */
  function Killed(b: Job, j: int, job: int, killable: set<int>, codes: int -> int): Job {
    if !b.running || job !in {0, j} then b
    else b.(running := false, service := false, exitcode := codes(b.jobno),
            killed := b.killed || b.jobno in killable)
  }

  /** The first n slots after it. */
  function KilledTo(jobs: seq<Job>, n: nat, job: int, killable: set<int>, codes: int -> int): (r: seq<Job>)
    ensures |r| == |jobs|
  {
    seq(|jobs|, i requires 0 <= i < |jobs| => if i < n then Killed(jobs[i], i + 1, job, killable, codes) else jobs[i])
  }

  lemma KillStep(jobs: seq<Job>, n: nat, job: int, killable: set<int>, codes: int -> int)
    requires n < |jobs|
    ensures KilledTo(jobs, n, job, killable, codes)[n] == jobs[n]
    ensures KilledTo(jobs, n, job, killable, codes)[n := Killed(jobs[n], n + 1, job, killable, codes)]
            == KilledTo(jobs, n + 1, job, killable, codes)
  {
  }

  /** bkg_kill ends exactly the running job named, or with 0 every running job; these get their exit code and do not
      wait any more, and are marked as killed if the system could kill them. All other slots stay as they are. */
  lemma KillSlot(jobs: seq<Job>, job: int, killable: set<int>, codes: int -> int, j: int)
    requires |jobs| == NBKG && 1 <= j <= NBKG
    ensures var (b, b') := (jobs[j - 1], KilledTo(jobs, NBKG, job, killable, codes)[j - 1]);
            && (b.running && !b'.running <==> b.running && (job == 0 || job == j))
            && (b.running && !b'.running ==>
                  && !b'.service && b'.exitcode == codes(b.jobno) && b'.jobno == b.jobno
                  && (b'.killed <==> b.killed || b.jobno in killable))
            && (b.running == b'.running ==> b' == b)
  {
  }

  ghost predicate NoneBusy(jobs: seq<Job>) {
    forall j :: 1 <= j <= |jobs| ==> !Busy(jobs, j)
  }

  lemma NoneStarted(jobs: seq<Job>, i: nat, b: Job)
    requires i < |jobs| && (b.running ==> jobs[i].running) && NoneBusy(jobs)
    ensures NoneBusy(jobs[i := b])
  {
    var jobs' := jobs[i := b];
    forall j | 1 <= j <= |jobs'| ensures !Busy(jobs', j) { assert !Busy(jobs, j) && !Busy(jobs, i + 1); }
  }

  class JobTable {
    const jobtable: array<Job>
    var lastjobno: int

    ghost predicate Valid()
      reads this, jobtable
    {
      jobtable.Length == NBKG && 0 <= lastjobno <= NBKG && (lastjobno == 0 ==> NoneBusy(jobtable[..]))
    }

    constructor ()
      ensures Valid() && lastjobno == 0 && fresh(jobtable)
      ensures forall i :: 0 <= i < NBKG ==> jobtable[i] == Job(0, false, false, false, 0)
    {
      jobtable := new Job[NBKG](i => Job(0, false, false, false, 0));
      lastjobno := 0;
    }

    /** A slot gets a new value that does not set it running. */
    method SetSlot(job: int, b: Job)
      requires Valid() && 1 <= job <= NBKG && (b.running ==> jobtable[job - 1].running)
      modifies jobtable
      ensures Valid() && jobtable[..] == old(jobtable[..])[job - 1 := b]
    {
      if lastjobno == 0 { NoneStarted(jobtable[..], job - 1, b); }
      ghost var before := jobtable[..];
      jobtable[job - 1] := b;
      assert jobtable[..] == before[job - 1 := b];
    }

    /** BKG_CLOSE; exitcode is what c_prcldpr returns. */
    method Close(job: int, exitcode: int)
      requires Valid() && 1 <= job <= NBKG
      modifies jobtable
      ensures Valid()
      ensures jobtable[..] == old(jobtable[..])[job - 1 :=
                old(jobtable[..])[job - 1].(exitcode := exitcode, running := false, service := false)]
    {
      SetSlot(job, jobtable[job - 1].(exitcode := exitcode, running := false, service := false));
    }

    /** BKG_UPDATE */
    method Update(done: map<int, int>, waiting: set<int>)
      requires Valid()
      modifies jobtable
      ensures Valid() && jobtable[..] == UpdatedTo(old(jobtable[..]), NBKG, done, waiting)
    {
      ghost var before := jobtable[..];
      var j := 1;
      assert jobtable[..] == UpdatedTo(before, 0, done, waiting);
      while j <= NBKG
        invariant 1 <= j <= NBKG + 1 && Valid() && jobtable[..] == UpdatedTo(before, j - 1, done, waiting)
      {
        UpdateStep(before, j - 1, done, waiting);
        assert jobtable[j - 1] == jobtable[..][j - 1];
        if jobtable[j - 1].running {
          if jobtable[j - 1].jobno in done {
            Close(j, done[jobtable[j - 1].jobno]);
          } else {
            SetSlot(j, jobtable[j - 1].(service := j in waiting));
          }
        }
        j := j + 1;
      }
    }

    /** BKG_KILL: a job number, or 0 for all. The table is updated first; killable holds the jobs c_prkill succeeds on,
        codes what c_prcldpr returns for each job. A number that is none kills nothing, and no slot not in use is
        touched. */
    method Kill(job: int, done: map<int, int>, waiting: set<int>, killable: set<int>, codes: int -> int)
      requires Valid()
      modifies jobtable
      ensures Valid()
      ensures var now := UpdatedTo(old(jobtable[..]), NBKG, done, waiting);
              jobtable[..] == KilledTo(now, NBKG, job, killable, codes)
    {
      Update(done, waiting);
      ghost var now := jobtable[..];
      var j := 1;
      assert jobtable[..] == KilledTo(now, 0, job, killable, codes);
      if 0 <= job <= NBKG {
        while j <= NBKG
          invariant 1 <= j <= NBKG + 1 && Valid() && jobtable[..] == KilledTo(now, j - 1, job, killable, codes)
        {
          KillStep(now, j - 1, job, killable, codes);
          assert jobtable[j - 1] == jobtable[..][j - 1];
          var b := jobtable[j - 1];
          if ((job == 0 && b.running) || job == j) && b.running {
            KillOne(j, killable, codes);
          }
          j := j + 1;
        }
      } else {
        assert KilledTo(now, NBKG, job, killable, codes) == now;
      }
    }

    /** One running job killed. */
    method KillOne(j: int, killable: set<int>, codes: int -> int)
      requires Valid() && 1 <= j <= NBKG
      modifies jobtable
      ensures Valid()
      ensures var b := old(jobtable[j - 1]);
              jobtable[..] == old(jobtable[..])[j - 1 := b.(running := false, service := false,
                                                exitcode := codes(b.jobno), killed := b.killed || b.jobno in killable)]
    {
      var b := jobtable[j - 1];
      if b.jobno in killable { SetSlot(j, b.(killed := true)); }
      Close(j, codes(b.jobno));
    }

    /** The circular search of bkg_spawn; None is the error "no more background job slots". */
    method FindSlot() returns (r: Option<int>)
      requires Valid()
      ensures match r
              case Some(job) => FirstFree(jobtable[..], lastjobno, job)
              case None => Full(jobtable[..], lastjobno)
    {
      ghost var jobs := jobtable[..];
      if lastjobno == 0 { assert !Busy(jobs, 1); }
      var jobno := if lastjobno == NBKG then 1 else lastjobno + 1;
      ghost var n := 1;
      while jobno != lastjobno
        invariant 1 <= jobno <= NBKG && (lastjobno == 0 ==> jobno == 1)
        invariant if jobno == lastjobno then n == NBKG else Steps(lastjobno, jobno) == n
        invariant 1 <= n <= NBKG
        invariant forall j :: 1 <= j <= NBKG && j != lastjobno && Steps(lastjobno, j) < n ==> Busy(jobs, j)
        decreases NBKG - n
      {
        assert jobtable[jobno - 1] == jobs[jobno - 1];
        if !jobtable[jobno - 1].running { break; }
        assert Busy(jobs, jobno);
        jobno := jobno + 1;
        if jobno > NBKG { jobno := 1; }
        n := n + 1;
      }
      r := if jobno == lastjobno then None else Some(jobno);
    }

    /** BKG_SPAWN in the parent: stat is what c_prfodpr returns, negative if no process could be started. The table is
        updated first; then the job goes to the first free slot, whose number is given, or None for the errors. */
    method Spawn(stat: int, done: map<int, int>, waiting: set<int>) returns (r: Option<int>)
      requires Valid() && stat != 0
      modifies this`lastjobno, jobtable
      ensures Valid()
      ensures var now := UpdatedTo(old(jobtable[..]), NBKG, done, waiting);
              match r
              case Some(job) =>
                && stat > 0 && FirstFree(now, old(lastjobno), job) && lastjobno == job
                && jobtable[..] == now[job - 1 := now[job - 1].(jobno := stat, running := true, service := false, killed := false)]
              case None =>
                && lastjobno == old(lastjobno) && (stat < 0 || Full(now, old(lastjobno)))
                && (Full(now, old(lastjobno)) ==> jobtable[..] == now)
                && forall j :: 1 <= j <= NBKG ==> Busy(jobtable[..], j) == Busy(now, j)
    {
      Update(done, waiting);
      ghost var now := jobtable[..];
      var slot := FindSlot();
      if slot == None { return None; }
      var jobno := slot.value;
      FirstFreeUnique(now, lastjobno, jobno, jobno);
      SetSlot(jobno, jobtable[jobno - 1].(jobno := stat));
      if stat < 0 { return None; }
      jobtable[jobno - 1] := jobtable[jobno - 1].(running := true, service := false, killed := false);
      lastjobno := jobno;
      r := Some(jobno);
    }
  }

  // ---------------------------------------------------------------- a job refused although a slot is free

  /** Jobs numbered as their slots in the slots below n, none waiting; the others free. */
  ghost predicate JobsTo(jobs: seq<Job>, n: int) {
    && |jobs| == NBKG
    && forall i :: 0 <= i < NBKG ==> jobs[i].running == (i < n) && !jobs[i].service && (i < n ==> jobs[i].jobno == i + 1)
  }

  /** Nothing is finished or waiting. */
  lemma NothingNew(jobs: seq<Job>, n: int)
    requires JobsTo(jobs, n)
    ensures UpdatedTo(jobs, NBKG, map[], {}) == jobs
  {
  }

  /** A table on which the search fails although a slot is free, and how it comes about: all slots are filled, job 1
      ends, its slot is used again and is then the one used last, and that job ends too. */
  method RefusedThoughFree() returns (t: JobTable, r: Option<int>)
    ensures fresh(t) && t.Valid() && r == None && t.lastjobno >= 1 && !Busy(t.jobtable[..], t.lastjobno)
  {
    t := new JobTable();
    for i := 0 to NBKG
      invariant fresh(t) && fresh(t.jobtable) && t.Valid() && t.lastjobno == i && JobsTo(t.jobtable[..], i)
    {
      NothingNew(t.jobtable[..], i);
      ghost var jobs := t.jobtable[..];
      assert FirstFree(jobs, i, i + 1);
      r := t.Spawn(i + 1, map[], {});
      FirstFreeUnique(jobs, i, i + 1, r.value);
    }
    assert JobsTo(t.jobtable[..], NBKG);
    r := Respawn(t);
    LastEnds(t.jobtable[..]);
    r := t.Spawn(34, map[33 := 0], {});
  }

  /** Job 1 ends, and another takes its slot. */
  method Respawn(t: JobTable) returns (r: Option<int>)
    requires t.Valid() && t.lastjobno == NBKG && JobsTo(t.jobtable[..], NBKG)
    modifies t`lastjobno, t.jobtable
    ensures t.Valid() && t.lastjobno == 1 && t.jobtable[0].running && t.jobtable[0].jobno == 33
    ensures forall i :: 1 <= i < NBKG ==> t.jobtable[i].running && t.jobtable[i].jobno == i + 1
  {
    ghost var now := UpdatedTo(t.jobtable[..], NBKG, map[1 := 0], {});
    assert FirstFree(now, NBKG, 1);
    r := t.Spawn(33, map[1 := 0], {});
    FirstFreeUnique(now, NBKG, 1, r.value);
  }

  lemma LastEnds(jobs: seq<Job>)
    requires |jobs| == NBKG && jobs[0].running && jobs[0].jobno == 33
    requires forall i :: 1 <= i < NBKG ==> jobs[i].running && jobs[i].jobno == i + 1
    ensures var now := UpdatedTo(jobs, NBKG, map[33 := 0], {});
            Full(now, 1) && !Busy(now, 1)
  {
  }
}
