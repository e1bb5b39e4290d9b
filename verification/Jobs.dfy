/** The shell's job table: 16 slots, searched from the front. */
module Jobs {

  const MAXJOBS := 16

  datatype State = UNDEF | FG | BG | ST

  /** A slot; pid 0 marks it free. */
  datatype Job = Job(pid: int, jid: int, state: State)

  const CLEAR := Job(0, 0, UNDEF)

  /** First slot from i on that belongs to pid; the table's length if there is none. */
  function FindPid(jobs: seq<Job>, pid: int, i: nat): (k: nat)
    requires i <= |jobs|
    ensures i <= k <= |jobs|
    ensures k < |jobs| ==> jobs[k].pid == pid
    ensures forall j {:trigger jobs[j]} :: i <= j < k ==> jobs[j].pid != pid
    decreases |jobs| - i
  {
    if i == |jobs| || jobs[i].pid == pid then i else FindPid(jobs, pid, i + 1)
  }

  function FindFg(jobs: seq<Job>, i: nat): (k: nat)
    requires i <= |jobs|
    ensures i <= k <= |jobs|
    ensures k < |jobs| ==> jobs[k].state == FG
    ensures forall j {:trigger jobs[j]} :: i <= j < k ==> jobs[j].state != FG
    decreases |jobs| - i
  {
    if i == |jobs| || jobs[i].state == FG then i else FindFg(jobs, i + 1)
  }

  /** fgpid: the pid in the first foreground slot, or 0. */
  function FgPid(jobs: seq<Job>): int {
    var k := FindFg(jobs, 0);
    if k < |jobs| then jobs[k].pid else 0
  }

  function MaxJid(jobs: seq<Job>, i: nat): (m: int)
    requires i <= |jobs|
    ensures m >= 0
    ensures forall j {:trigger jobs[j]} :: 0 <= j < i ==> jobs[j].jid <= m
    ensures m == 0 || exists j {:trigger jobs[j]} :: 0 <= j < i && jobs[j].jid == m
  {
    if i == 0 then 0
    else if jobs[i - 1].jid > MaxJid(jobs, i - 1) then jobs[i - 1].jid else MaxJid(jobs, i - 1)
  }

  datatype Table = Table(jobs: seq<Job>, nextjid: int)

  /** addjob. */
  function Added(t: Table, pid: int, state: State): Table {
    var k := FindPid(t.jobs, 0, 0);
    if pid < 1 || k == |t.jobs| then t
    else Table(t.jobs[k := Job(pid, t.nextjid, state)], if t.nextjid + 1 > MAXJOBS then 1 else t.nextjid + 1)
  }

  /** deletejob. */
  function Deleted(t: Table, pid: int): Table {
    var k := FindPid(t.jobs, pid, 0);
    if pid < 1 || k == |t.jobs| then t
    else
      var jobs := t.jobs[k := CLEAR];
      Table(jobs, MaxJid(jobs, |jobs|) + 1)
  }

  /** The first slot of pid is k, and jobs' differs from jobs there alone. */
  ghost predicate Takes(jobs: seq<Job>, jobs': seq<Job>, pid: int, k: int, job: Job) {
    && 0 <= k < |jobs| && jobs[k].pid == pid && jobs' == jobs[k := job]
    && forall j {:trigger jobs[j]} :: 0 <= j < k ==> jobs[j].pid != pid
  }

  ghost predicate FirstFg(jobs: seq<Job>, k: int) {
    && 0 <= k < |jobs| && jobs[k].state == FG
    && forall j {:trigger jobs[j]} :: 0 <= j < k ==> jobs[j].state != FG
  }

  /** No two jobs have the same id. */
  ghost predicate JidsDistinct(jobs: seq<Job>) {
    forall i, j {:trigger jobs[i], jobs[j]} ::
      0 <= i < j < |jobs| && jobs[i].pid != 0 && jobs[j].pid != 0 ==> jobs[i].jid != jobs[j].jid
  }

  /** The next id exceeds all ids in the table. */
  ghost predicate Ahead(t: Table) {
    t.nextjid >= 1 && forall j {:trigger t.jobs[j]} :: 0 <= j < |t.jobs| ==> t.jobs[j].jid < t.nextjid
  }

  /** Deleting a job keeps ids distinct, and sets the next id ahead of those left, whatever it was. */
  lemma DeletedAhead(t: Table, pid: int)
    requires JidsDistinct(t.jobs)
    ensures JidsDistinct(Deleted(t, pid).jobs)
    ensures pid >= 1 && FindPid(t.jobs, pid, 0) < |t.jobs| ==> Ahead(Deleted(t, pid))
  {
  }

  /**
   * Adding a job keeps ids distinct exactly if no job has the next id. That is so while the next
   * id is ahead, and adding leaves it ahead exactly if it does not wrap.
   */
  lemma AddedDistinct(t: Table, pid: int, state: State)
    requires JidsDistinct(t.jobs) && pid >= 1 && FindPid(t.jobs, 0, 0) < |t.jobs|
    ensures JidsDistinct(Added(t, pid, state).jobs) <==>
      forall j {:trigger t.jobs[j]} :: 0 <= j < |t.jobs| && t.jobs[j].pid != 0 ==> t.jobs[j].jid != t.nextjid
    ensures Ahead(t) ==> (Ahead(Added(t, pid, state)) <==> t.nextjid < MAXJOBS)
  {
    var k := FindPid(t.jobs, 0, 0);
    var t' := Added(t, pid, state);
    assert t'.jobs[k].jid == t.nextjid && t.jobs[k].pid == 0;
    forall j | 0 <= j < |t.jobs| && j != k ensures t'.jobs[j] == t.jobs[j] {}
    if JidsDistinct(t'.jobs) {
      forall j | 0 <= j < |t.jobs| && t.jobs[j].pid != 0 ensures t.jobs[j].jid != t.nextjid {
        assert t'.jobs[j] == t.jobs[j];
      }
    }
  }

  /** The table after the jobs of pids 1 to n have been added to an empty one. */
  function Filled(n: nat): Table
    requires n <= MAXJOBS
  {
    Table(seq(MAXJOBS, i requires 0 <= i < MAXJOBS => if i < n then Job(i + 1, i + 1, BG) else CLEAR),
          if n < MAXJOBS then n + 1 else 1)
  }

  lemma FilledAdds(n: nat)
    requires n < MAXJOBS
    ensures Added(Filled(n), n + 1, BG) == Filled(n + 1)
  {
    assert Filled(n).jobs[n].pid == 0;
    assert Added(Filled(n), n + 1, BG).jobs == Filled(n + 1).jobs;
  }

  /**
   * Ids can repeat: once the counter has wrapped, a new job gets the id of one that is still
   * there. Sixteen jobs are added, those of pids 5 and 6 end, and two more are added.
   */
  lemma JidsCanRepeat()
    ensures
      var t := Added(Added(Deleted(Deleted(Filled(MAXJOBS), 5), 6), 17, BG), 18, BG);
      && t.jobs[0] == Job(1, 1, BG) && t.jobs[5] == Job(18, 1, BG) && !JidsDistinct(t.jobs)
  {
    var t0 := Filled(MAXJOBS);
    assert forall i :: 0 <= i < MAXJOBS ==> t0.jobs[i] == Job(i + 1, i + 1, BG);
    var t1 := Deleted(t0, 5);
    assert FindPid(t0.jobs, 5, 0) == 4 by { assert t0.jobs[4].pid == 5; }
    var t2 := Deleted(t1, 6);
    assert FindPid(t1.jobs, 6, 0) == 5 by { assert t1.jobs[5].pid == 6; }
    assert t2.jobs[15].jid == 16 && t2.nextjid == 17;
    var t3 := Added(t2, 17, BG);
    assert FindPid(t2.jobs, 0, 0) == 4 by { assert t2.jobs[4].pid == 0; }
    assert t3.nextjid == 1;
    assert FindPid(t3.jobs, 0, 0) == 5 by { assert t3.jobs[5].pid == 0; }
    var t := Added(t3, 18, BG);
    assert t.jobs[0].jid == t.jobs[5].jid;
  }

  class JobTable {
    const jobs: array<Job>
    var nextjid: int

    ghost predicate Valid() { jobs.Length == MAXJOBS }

    ghost function Contents(): Table
      reads this, jobs
    {
      Table(jobs[..], nextjid)
    }

    /** initjobs. */
    constructor ()
      ensures Valid() && fresh(jobs) && Contents() == Table(seq(MAXJOBS, _ => CLEAR), 1)
    {
      jobs := new Job[MAXJOBS](_ => CLEAR);
      nextjid := 1;
      new;
      assert jobs[..] == seq(MAXJOBS, _ => CLEAR);
    }

    /** The slot of pid, as getjobpid finds it; jobs.Length stands for NULL. */
    method GetJobPid(pid: int) returns (k: int)
      requires Valid()
      ensures k == if pid < 1 then jobs.Length else FindPid(jobs[..], pid, 0)
    {
      if pid < 1 { return jobs.Length; }
      k := 0;
      while k < jobs.Length
        invariant 0 <= k <= jobs.Length && FindPid(jobs[..], pid, 0) == FindPid(jobs[..], pid, k)
      {
        if jobs[k].pid == pid { return; }
        k := k + 1;
      }
    }

    method AddJob(pid: int, state: State) returns (ok: bool)
      requires Valid()
      modifies this`nextjid, jobs
      ensures Contents() == Added(old(Contents()), pid, state)
      ensures ok ==> exists k :: Takes(old(jobs[..]), jobs[..], 0, k, Job(pid, old(nextjid), state))
      ensures ok ==> nextjid == if old(nextjid) >= MAXJOBS then 1 else old(nextjid) + 1
      ensures !ok ==> Contents() == old(Contents())
      ensures ok <==> pid >= 1 && exists i {:trigger old(jobs[..])[i]} :: 0 <= i < MAXJOBS && old(jobs[..])[i].pid == 0
    {
      if pid < 1 { return false; }
      var i := 0;
      while i < jobs.Length
        invariant 0 <= i <= jobs.Length && FindPid(jobs[..], 0, 0) == FindPid(jobs[..], 0, i)
        invariant jobs[..] == old(jobs[..]) && nextjid == old(nextjid)
        invariant forall j {:trigger old(jobs[..])[j]} :: 0 <= j < i ==> old(jobs[..])[j].pid != 0
      {
        if jobs[i].pid == 0 {
          assert old(jobs[..])[i].pid == 0;
          jobs[i] := Job(pid, nextjid, state);
          nextjid := nextjid + 1;
          if nextjid > MAXJOBS { nextjid := 1; }
          assert Takes(old(jobs[..]), jobs[..], 0, i, Job(pid, old(nextjid), state));
          return true;
        }
        i := i + 1;
      }
      return false;
    }

    method LargestJid() returns (max: int)
      requires Valid()
      ensures max == MaxJid(jobs[..], |jobs[..]|)
      ensures max >= 0 && forall j :: 0 <= j < jobs.Length ==> jobs[j].jid <= max
      ensures max == 0 || exists j :: 0 <= j < jobs.Length && jobs[j].jid == max
    {
      max := 0;
      var i := 0;
      while i < jobs.Length
        invariant 0 <= i <= jobs.Length && max == MaxJid(jobs[..], i)
      {
        if jobs[i].jid > max { max := jobs[i].jid; }
        i := i + 1;
      }
    }

    method DeleteJob(pid: int) returns (ok: bool)
      requires Valid()
      modifies this`nextjid, jobs
      ensures Contents() == Deleted(old(Contents()), pid)
      ensures ok ==> exists k :: Takes(old(jobs[..]), jobs[..], pid, k, CLEAR)
      ensures ok ==> nextjid >= 1 && forall j {:trigger jobs[j]} :: 0 <= j < jobs.Length ==> jobs[j].jid < nextjid
      ensures ok ==> nextjid == 1 || exists j {:trigger jobs[j]} :: 0 <= j < jobs.Length && jobs[j].jid == nextjid - 1
      ensures !ok ==> Contents() == old(Contents())
      ensures ok <==>
        pid >= 1 && exists i {:trigger old(jobs[..])[i]} :: 0 <= i < MAXJOBS && old(jobs[..])[i].pid == pid
    {
      if pid < 1 { return false; }
      var i := 0;
      while i < jobs.Length
        invariant 0 <= i <= jobs.Length && FindPid(jobs[..], pid, 0) == FindPid(jobs[..], pid, i)
        invariant jobs[..] == old(jobs[..]) && nextjid == old(nextjid)
        invariant forall j {:trigger old(jobs[..])[j]} :: 0 <= j < i ==> old(jobs[..])[j].pid != pid
      {
        if jobs[i].pid == pid {
          assert old(jobs[..])[i].pid == pid;
          jobs[i] := CLEAR;
          assert Takes(old(jobs[..]), jobs[..], pid, i, CLEAR);
          var max := LargestJid();
          nextjid := max + 1;
          return true;
        }
        i := i + 1;
      }
      return false;
    }

    method FgPidOf() returns (pid: int)
      requires Valid()
      ensures pid == FgPid(jobs[..])
      ensures
        || (exists k :: FirstFg(jobs[..], k) && pid == jobs[k].pid)
        || (pid == 0 && forall k {:trigger jobs[k]} :: 0 <= k < jobs.Length ==> jobs[k].state != FG)
    {
      var i := 0;
      while i < jobs.Length
        invariant 0 <= i <= jobs.Length && FindFg(jobs[..], 0) == FindFg(jobs[..], i)
        invariant forall j {:trigger jobs[j]} :: 0 <= j < i ==> jobs[j].state != FG
      {
        if jobs[i].state == FG {
          assert FirstFg(jobs[..], i);
          return jobs[i].pid;
        }
        i := i + 1;
      }
      return 0;
    }
  }
}
