/**
 * The shell's main loop and its SIGCHLD handler as interleaved steps. The signal is pending or
 * not, never queued; it is delivered only while it is not blocked, and the handler blocks it.
 */
module Reaping {
  import opened Jobs

  /** A child as the kernel knows it; reported says whether waitpid has told of the stop. */
  datatype Child = Running | Stopped(reported: bool) | Zombie

  /** Where the main loop is. */
  datatype Pc =
    | Prompt
    | Blocked(bg: bool)
    | Forked(bg: bool, pid: int)
    | Listed(bg: bool, pid: int)
    | Waiting(pid: int)
    | Scanning(pid: int, k: nat)
    | Seen(pid: int, k: nat)
    | Found(slot: nat, bg: bool)
    | Continued(slot: nat, bg: bool)
    | Marked(slot: nat, bg: bool)

  /** Where the handler is. */
  datatype Handler = Idle | Draining | Reaped(pid: int) | SawStop(pid: int)

  datatype Shell = Shell(children: map<int, Child>, table: Table, pc: Pc, handler: Handler, blocked: bool,
      pending: bool)

  /** Before the first command. */
  function Start(): Shell { Shell(map[], Table(seq(MAXJOBS, _ => CLEAR), 1), Prompt, Idle, false, false) }

  /** waitpid with WNOHANG and WUNTRACED would return this child. */
  predicate Reportable(c: Child) { c == Zombie || c == Stopped(false) }

  function StateFor(bg: bool): State { if bg then BG else FG }

  // Steps of the main loop.

  ghost predicate Eval(s: Shell, s': Shell) {
    s.pc == Prompt && s'.pc.Blocked? && s' == s.(pc := s'.pc, blocked := true)
  }

  /** fork; the table has a free slot for the child. */
  ghost predicate Fork(s: Shell, s': Shell, pid: int) {
    && s.pc.Blocked? && pid >= 1 && pid !in s.children && FindPid(s.table.jobs, 0, 0) < |s.table.jobs|
    && s' == s.(children := s.children[pid := Running], pc := Forked(s.pc.bg, pid))
  }

  ghost predicate AddJob(s: Shell, s': Shell) {
    && s.pc.Forked?
    && s' == s.(table := Added(s.table, s.pc.pid, StateFor(s.pc.bg)), pc := Listed(s.pc.bg, s.pc.pid))
  }

  ghost predicate Unblock(s: Shell, s': Shell) {
    s.pc.Listed? && s' == s.(pc := if s.pc.bg then Prompt else Waiting(s.pc.pid), blocked := false)
  }

  /** waitfg, at the head of its loop: it calls fgpid, or returns at once for pid 0. */
  ghost predicate Poll(s: Shell, s': Shell) {
    s.pc.Waiting? && s' == s.(pc := if s.pc.pid == 0 then Prompt else Scanning(s.pc.pid, 0))
  }

  /** fgpid looks at slot k; behind the last slot it returns 0, which ends the loop. */
  ghost predicate Scan(s: Shell, s': Shell) {
    && s.pc.Scanning?
    && var pid, k := s.pc.pid, s.pc.k;
    && s' == s.(pc := if k >= |s.table.jobs| then Prompt
                      else if s.table.jobs[k].state == FG then Seen(pid, k) else Scanning(pid, k + 1))
  }

  /** fgpid returns the pid in slot k, which may have changed since its state was read. */
  ghost predicate Compare(s: Shell, s': Shell) {
    && s.pc.Seen? && s.pc.k < |s.table.jobs|
    && s' == s.(pc := if s.table.jobs[s.pc.k].pid == s.pc.pid then Waiting(s.pc.pid) else Prompt)
  }

  ghost predicate Lookup(s: Shell, s': Shell, slot: nat) {
    && s.pc == Prompt && slot < |s.table.jobs| && s.table.jobs[slot].pid != 0
    && s'.pc.Found? && s'.pc.slot == slot && s' == s.(pc := s'.pc)
  }

  /** kill with SIGCONT: a stopped child runs again, which may raise SIGCHLD. */
  ghost predicate Cont(s: Shell, s': Shell) {
    && s.pc.Found? && s.pc.slot < |s.table.jobs|
    && var pid := s.table.jobs[s.pc.slot].pid;
    && (s.pending ==> s'.pending)
    && s' == s.(children := Woken(s.children, pid), pc := Continued(s.pc.slot, s.pc.bg), pending := s'.pending)
  }

  function Woken(cs: map<int, Child>, pid: int): map<int, Child> {
    if pid in cs && cs[pid].Stopped? then cs[pid := Running] else cs
  }

  ghost predicate Mark(s: Shell, s': Shell) {
    && s.pc.Continued? && s.pc.slot < |s.table.jobs|
    && var job := s.table.jobs[s.pc.slot];
    && s' == s.(table := Table(s.table.jobs[s.pc.slot := job.(state := StateFor(s.pc.bg))], s.table.nextjid),
                pc := Marked(s.pc.slot, s.pc.bg))
  }

  ghost predicate Resume(s: Shell, s': Shell) {
    && s.pc.Marked? && s.pc.slot < |s.table.jobs|
    && s' == s.(pc := if s.pc.bg then Prompt else Waiting(s.table.jobs[s.pc.slot].pid))
  }

  ghost predicate MainStep(s: Shell, s': Shell) {
    && s.handler == Idle
    && (Eval(s, s') || (exists pid :: Fork(s, s', pid)) || AddJob(s, s') || Unblock(s, s') || Poll(s, s')
        || Scan(s, s') || Compare(s, s') || (exists slot :: Lookup(s, s', slot)) || Cont(s, s') || Mark(s, s')
        || Resume(s, s'))
  }

  // Steps of the handler.

  ghost predicate Deliver(s: Shell, s': Shell) {
    s.handler == Idle && s.pending && !s.blocked && s' == s.(handler := Draining, pending := false)
  }

  /** One call of waitpid. */
  ghost predicate Wait(s: Shell, s': Shell, pid: int) {
    && s.handler == Draining && pid in s.children
    && ((s.children[pid] == Zombie && s' == s.(children := s.children - {pid}, handler := Reaped(pid)))
        || (s.children[pid] == Stopped(false)
          && s' == s.(children := s.children[pid := Stopped(true)], handler := SawStop(pid))))
  }

  /** waitpid finds nothing to report, and the handler returns. */
  ghost predicate Return(s: Shell, s': Shell) {
    && s.handler == Draining && (forall pid :: pid in s.children ==> !Reportable(s.children[pid]))
    && s' == s.(handler := Idle)
  }

  ghost predicate Delete(s: Shell, s': Shell) {
    s.handler.Reaped? && s' == s.(table := Deleted(s.table, s.handler.pid), handler := Draining)
  }

  /** getjobpid(pid)->state = ST, which needs getjobpid to find the job. */
  ghost predicate MarkStopped(s: Shell, s': Shell) {
    && s.handler.SawStop?
    && var k := FindPid(s.table.jobs, s.handler.pid, 0);
    && k < |s.table.jobs|
    && s' == s.(table := Table(s.table.jobs[k := s.table.jobs[k].(state := ST)], s.table.nextjid), handler := Draining)
  }

  ghost predicate HandlerStep(s: Shell, s': Shell) {
    (exists pid :: Wait(s, s', pid)) || Return(s, s') || Delete(s, s') || MarkStopped(s, s')
  }

  // Steps of the children.

  ghost predicate Terminate(s: Shell, s': Shell, pid: int) {
    && pid in s.children && s.children[pid] != Zombie
    && s' == s.(children := s.children[pid := Zombie], pending := true)
  }

  ghost predicate Stop(s: Shell, s': Shell, pid: int) {
    && pid in s.children && s.children[pid] == Running
    && s' == s.(children := s.children[pid := Stopped(false)], pending := true)
  }

  ghost predicate Wake(s: Shell, s': Shell, pid: int) {
    && pid in s.children && s.children[pid].Stopped? && (s.pending ==> s'.pending)
    && s' == s.(children := s.children[pid := Running], pending := s'.pending)
  }

  ghost predicate ChildStep(s: Shell, s': Shell) {
    (exists pid :: Terminate(s, s', pid)) || (exists pid :: Stop(s, s', pid)) || (exists pid :: Wake(s, s', pid))
  }

  ghost predicate Step(s: Shell, s': Shell) {
    MainStep(s, s') || Deliver(s, s') || HandlerStep(s, s') || ChildStep(s, s')
  }

  /** A finite run of the system from its start. */
  ghost predicate Run(r: seq<Shell>) {
    && r != [] && r[0] == Start()
    && forall i {:trigger StepAt(r, i)} :: 0 <= i < |r| - 1 ==> StepAt(r, i)
  }

  ghost predicate StepAt(r: seq<Shell>, i: int)
    requires 0 <= i < |r| - 1
  {
    Step(r[i], r[i + 1])
  }

  // What holds in every run.

  ghost predicate HasJob(jobs: seq<Job>, pid: int) { exists k :: 0 <= k < |jobs| && jobs[k].pid == pid }

  /** pid has a job if and only if it is a child, except just after fork and just before deletejob. */
  ghost predicate Tabled(s: Shell, pid: int) {
    pid != 0 && HasJob(s.table.jobs, pid) <==>
      (pid in s.children && !(s.pc.Forked? && s.pc.pid == pid)) || s.handler == Reaped(pid)
  }

  ghost predicate DistinctPids(jobs: seq<Job>) {
    forall i, j {:trigger jobs[i], jobs[j]} :: 0 <= i < j < |jobs| && jobs[i].pid == jobs[j].pid ==> jobs[i].pid == 0
  }

  /** Blocking spans fork to addjob; tables and children agree; whatever is reportable is on its way to be reaped. */
  ghost predicate Inv(s: Shell) {
    && |s.table.jobs| == MAXJOBS && DistinctPids(s.table.jobs)
    && (s.blocked <==> s.pc.Blocked? || s.pc.Forked? || s.pc.Listed?)
    && (s.blocked ==> s.handler == Idle)
    && (forall pid :: pid in s.children ==> pid >= 1)
    && (s.handler.Reaped? ==> s.handler.pid >= 1 && s.handler.pid !in s.children)
    && (s.handler.SawStop? ==> s.handler.pid in s.children)
    && (s.pc.Forked? ==> s.pc.pid in s.children && FindPid(s.table.jobs, 0, 0) < |s.table.jobs|)
    && (s.pc.Found? || s.pc.Continued? || s.pc.Marked? ==> s.pc.slot < MAXJOBS)
    && (forall pid {:trigger Tabled(s, pid)} :: Tabled(s, pid))
    && (forall pid :: pid in s.children && Reportable(s.children[pid]) ==> s.pending || s.handler != Idle)
  }

  lemma AddedJobs(t: Table, pid: int, state: State)
    requires DistinctPids(t.jobs) && FindPid(t.jobs, 0, 0) < |t.jobs| && pid >= 1 && !HasJob(t.jobs, pid)
    ensures var t' := Added(t, pid, state);
      && |t'.jobs| == |t.jobs| && DistinctPids(t'.jobs)
      && forall q {:trigger HasJob(t'.jobs, q)} :: q != 0 ==> (HasJob(t'.jobs, q) <==> HasJob(t.jobs, q) || q == pid)
  {
    var t', k := Added(t, pid, state), FindPid(t.jobs, 0, 0);
    forall q | q != 0 ensures HasJob(t'.jobs, q) <==> HasJob(t.jobs, q) || q == pid {
      if HasJob(t.jobs, q) {
        var i :| 0 <= i < |t.jobs| && t.jobs[i].pid == q;
        assert t'.jobs[i].pid == q;
      }
      if q == pid { assert t'.jobs[k].pid == q; }
      if HasJob(t'.jobs, q) {
        var i :| 0 <= i < |t'.jobs| && t'.jobs[i].pid == q;
        assert i != k ==> t.jobs[i].pid == q;
      }
    }
    forall i, j | 0 <= i < j < |t'.jobs| && t'.jobs[i].pid == t'.jobs[j].pid ensures t'.jobs[i].pid == 0 {
      assert i != k ==> t'.jobs[i] == t.jobs[i];
      assert j != k ==> t'.jobs[j] == t.jobs[j];
    }
  }

  lemma DeletedJobs(t: Table, pid: int)
    requires DistinctPids(t.jobs) && pid >= 1
    ensures var t' := Deleted(t, pid);
      && |t'.jobs| == |t.jobs| && DistinctPids(t'.jobs)
      && forall q {:trigger HasJob(t'.jobs, q)} :: q != 0 ==> (HasJob(t'.jobs, q) <==> HasJob(t.jobs, q) && q != pid)
  {
    var t', k := Deleted(t, pid), FindPid(t.jobs, pid, 0);
    forall q | q != 0 ensures HasJob(t'.jobs, q) <==> HasJob(t.jobs, q) && q != pid {
      if HasJob(t.jobs, q) && q != pid {
        var i :| 0 <= i < |t.jobs| && t.jobs[i].pid == q;
        assert t'.jobs[i].pid == q;
      }
      if HasJob(t'.jobs, q) {
        var i :| 0 <= i < |t'.jobs| && t'.jobs[i].pid == q;
        assert t.jobs[i].pid == q;
        assert i < k ==> t.jobs[i].pid != pid;
        assert k < i ==> t.jobs[k].pid == pid;
      }
    }
  }

  /** Changing a slot's state changes no pid. */
  lemma StateJobs(jobs: seq<Job>, k: nat, state: State)
    requires DistinctPids(jobs) && k < |jobs|
    ensures var jobs' := jobs[k := jobs[k].(state := state)];
      && DistinctPids(jobs')
      && forall q {:trigger HasJob(jobs', q)} :: HasJob(jobs', q) <==> HasJob(jobs, q)
  {
    var jobs' := jobs[k := jobs[k].(state := state)];
    forall q ensures HasJob(jobs', q) <==> HasJob(jobs, q) {
      if HasJob(jobs, q) {
        var i :| 0 <= i < |jobs| && jobs[i].pid == q;
        assert jobs'[i].pid == q;
      }
      if HasJob(jobs', q) {
        var i :| 0 <= i < |jobs'| && jobs'[i].pid == q;
        assert jobs[i].pid == q;
      }
    }
  }

  lemma StartInv()
    ensures Inv(Start())
  {
    var s := Start();
    forall pid ensures Tabled(s, pid) {
      if HasJob(s.table.jobs, pid) {
        var k :| 0 <= k < |s.table.jobs| && s.table.jobs[k].pid == pid;
      }
    }
  }

  lemma MainInv(s: Shell, s': Shell)
    requires Inv(s) && MainStep(s, s')
    ensures Inv(s')
  {
    if pid :| Fork(s, s', pid) {
      assert Tabled(s, pid);
    } else if AddJob(s, s') {
      assert Tabled(s, s.pc.pid);
      AddedJobs(s.table, s.pc.pid, StateFor(s.pc.bg));
    } else if Mark(s, s') {
      StateJobs(s.table.jobs, s.pc.slot, StateFor(s.pc.bg));
    }
    forall pid ensures Tabled(s', pid) { assert Tabled(s, pid); }
  }

  lemma HandlerInv(s: Shell, s': Shell)
    requires Inv(s) && (HandlerStep(s, s') || Deliver(s, s'))
    ensures Inv(s')
  {
    if Delete(s, s') {
      DeletedJobs(s.table, s.handler.pid);
    } else if MarkStopped(s, s') {
      StateJobs(s.table.jobs, FindPid(s.table.jobs, s.handler.pid, 0), ST);
    }
    forall pid ensures Tabled(s', pid) { assert Tabled(s, pid); }
  }

  lemma ChildInv(s: Shell, s': Shell)
    requires Inv(s) && ChildStep(s, s')
    ensures Inv(s')
  {
    forall pid ensures Tabled(s', pid) { assert Tabled(s, pid); }
  }

  lemma {:induction false} RunInv(r: seq<Shell>, i: nat)
    requires Run(r) && i < |r|
    ensures Inv(r[i])
  {
    if i == 0 {
      StartInv();
    } else {
      RunInv(r, i - 1);
      assert StepAt(r, i - 1);
      StepInv(r[i - 1], r[i]);
    }
  }

  lemma StepInv(s: Shell, s': Shell)
    requires Inv(s) && Step(s, s')
    ensures Inv(s')
  {
    if MainStep(s, s') {
      MainInv(s, s');
    } else if ChildStep(s, s') {
      ChildInv(s, s');
    } else {
      HandlerInv(s, s');
    }
  }

  /**
   * In every run, whenever SIGCHLD is neither pending nor being handled, no terminated child is
   * left unreaped and no stop unseen; every job in the table is an unreaped child, and every
   * child has its job unless the shell is between fork and addjob.
   */
  lemma NothingLeftUnreaped(r: seq<Shell>, i: nat)
    requires Run(r) && i < |r| && !r[i].pending && r[i].handler == Idle
    ensures forall pid :: pid in r[i].children ==> !Reportable(r[i].children[pid])
    ensures forall pid :: pid != 0 && HasJob(r[i].table.jobs, pid) ==> pid in r[i].children && pid >= 1
    ensures forall pid :: pid in r[i].children && !r[i].pc.Forked? ==> HasJob(r[i].table.jobs, pid)
  {
    RunInv(r, i);
    var s := r[i];
    forall pid | pid != 0 && HasJob(s.table.jobs, pid) ensures pid in s.children && pid >= 1 { assert Tabled(s, pid); }
    forall pid | pid in s.children && !s.pc.Forked? ensures HasJob(s.table.jobs, pid) { assert Tabled(s, pid); }
  }

  /** No child has two jobs, in any state of any run. */
  lemma JobsDistinct(r: seq<Shell>, i: nat)
    requires Run(r) && i < |r|
    ensures DistinctPids(r[i].table.jobs)
  {
    RunInv(r, i);
  }

  /** The handler never dereferences a null job: a child it sees stopped is in the table. */
  lemma StoppedJobFound(r: seq<Shell>, i: nat)
    requires Run(r) && i < |r|
    ensures r[i].handler.SawStop? ==> FindPid(r[i].table.jobs, r[i].handler.pid, 0) < |r[i].table.jobs|
  {
    RunInv(r, i);
    var s := r[i];
    if s.handler.SawStop? {
      assert Tabled(s, s.handler.pid);
      var k :| 0 <= k < |s.table.jobs| && s.table.jobs[k].pid == s.handler.pid;
    }
  }
}
