/** The foreground job: who is waited for, for how long, and the one way it goes wrong. */
module Foreground {
  import opened Jobs
  import opened Reaping

  /** The only job in the foreground is the one the main loop is concerned with. */
  ghost predicate Expected(s: Shell, k: int)
    requires 0 <= k < |s.table.jobs|
  {
    var pid := s.table.jobs[k].pid;
    && pid != 0
    && (|| (s.pc.Listed? && !s.pc.bg && pid == s.pc.pid)
        || ((s.pc.Waiting? || s.pc.Scanning? || s.pc.Seen?) && pid == s.pc.pid)
        || (s.pc.Marked? && !s.pc.bg && k == s.pc.slot))
  }

  ghost predicate FgInv(s: Shell) {
    forall k {:trigger s.table.jobs[k]} ::
      0 <= k < |s.table.jobs| && s.table.jobs[k].state == FG ==> Expected(s, k) && Unscanned(s.pc, k)
  }

  /** A foreground slot k is one fgpid is still to look at, or the one it has just seen. */
  predicate Unscanned(pc: Pc, k: int) { (pc.Scanning? ==> pc.k <= k) && (pc.Seen? ==> pc.k == k) }

  /** fg's state write hits a slot whose job is already gone: the guard that do_bgfg lacks. */
  ghost predicate StrayMark(s: Shell, s': Shell) {
    s.handler == Idle && Mark(s, s') && !s.pc.bg && s.table.jobs[s.pc.slot].pid == 0
  }

  ghost predicate StrayAt(r: seq<Shell>, i: int)
    requires 0 <= i < |r| - 1
  {
    StrayMark(r[i], r[i + 1])
  }

  ghost predicate NoStray(r: seq<Shell>) { forall i {:trigger StrayAt(r, i)} :: 0 <= i < |r| - 1 ==> !StrayAt(r, i) }

  predicate AtMostOneFg(jobs: seq<Job>) {
    forall j, k :: 0 <= j < |jobs| && 0 <= k < |jobs| && jobs[j].state == FG && jobs[k].state == FG ==> j == k
  }

  predicate NoFg(jobs: seq<Job>) { forall k :: 0 <= k < |jobs| ==> jobs[k].state != FG }

  /** At most one job is in the foreground, and none at the prompt. */
  predicate Orderly(s: Shell) { AtMostOneFg(s.table.jobs) && (s.pc == Prompt ==> NoFg(s.table.jobs)) }

  ghost predicate AlwaysOrderly(r: seq<Shell>) { forall i {:trigger Orderly(r[i])} :: 0 <= i < |r| ==> Orderly(r[i]) }

  /**
   * For every run that ends at the prompt: the foreground is in order throughout if and only if
   * no state write of fg came after its job was gone.
   */
  lemma ForegroundExactly(r: seq<Shell>)
    requires Run(r) && r[|r| - 1].pc == Prompt
    ensures AlwaysOrderly(r) <==> NoStray(r)
  {
    if NoStray(r) {
      forall i | 0 <= i < |r| ensures Orderly(r[i]) { NoStrayOrderly(r, i); }
    } else {
      var i :| 0 <= i < |r| - 1 && StrayAt(r, i);
      var j := StrayReachesPrompt(r, i + 1, r[i].pc.slot);
      assert !Orderly(r[j]);
    }
  }

  /** The one direction, wherever the run stops. */
  lemma NoStrayOrderly(r: seq<Shell>, i: nat)
    requires Run(r) && NoStray(r) && i < |r|
    ensures Orderly(r[i])
  {
    NoStrayInv(r, i);
    var s := r[i];
    forall j, k | 0 <= j < |s.table.jobs| && 0 <= k < |s.table.jobs| && s.table.jobs[j].state == FG
      && s.table.jobs[k].state == FG
      ensures j == k
    {
      assert Expected(s, j) && Expected(s, k);
    }
    forall k | 0 <= k < |s.table.jobs| && s.pc == Prompt ensures s.table.jobs[k].state != FG {
      assert s.table.jobs[k].state == FG ==> Expected(s, k);
    }
  }

  lemma {:induction false} NoStrayInv(r: seq<Shell>, i: nat)
    requires Run(r) && NoStray(r) && i < |r|
    ensures Inv(r[i]) && FgInv(r[i])
  {
    hide Inv, FgInv, Step, StrayMark;
    if i == 0 {
      StartInv();
      StartFg();
    } else {
      NoStrayInv(r, i - 1);
      assert StepAt(r, i - 1) && !StrayAt(r, i - 1);
      StepInv(r[i - 1], r[i]);
      StepFg(r[i - 1], r[i]);
    }
  }

  lemma StartFg()
    ensures FgInv(Start())
  {
  }

  lemma StepFg(s: Shell, s': Shell)
    requires Inv(s) && FgInv(s) && Step(s, s') && !StrayMark(s, s')
    ensures FgInv(s')
  {
    hide Inv, FgInv, MainStep, ChildStep, HandlerStep, Deliver, StrayMark;
    if MainStep(s, s') {
      MainFg(s, s');
    } else if ChildStep(s, s') {
      ChildFg(s, s');
    } else {
      HandlerFg(s, s');
    }
  }

  lemma MainFg(s: Shell, s': Shell)
    requires Inv(s) && FgInv(s) && MainStep(s, s') && !StrayMark(s, s')
    ensures FgInv(s')
  {
    forall k | 0 <= k < |s'.table.jobs| && s'.table.jobs[k].state == FG
      ensures Expected(s', k) && Unscanned(s'.pc, k)
    {
      assert k < |s.table.jobs| && s.table.jobs[k].state == FG ==> Expected(s, k) && Unscanned(s.pc, k);
    }
  }

  lemma HandlerFg(s: Shell, s': Shell)
    requires Inv(s) && FgInv(s) && (Deliver(s, s') || HandlerStep(s, s'))
    ensures FgInv(s')
  {
    forall k | 0 <= k < |s'.table.jobs| && s'.table.jobs[k].state == FG
      ensures Expected(s', k) && Unscanned(s'.pc, k)
    {
      assert k < |s.table.jobs| && s.table.jobs[k].state == FG;
    }
  }

  lemma ChildFg(s: Shell, s': Shell)
    requires FgInv(s) && ChildStep(s, s')
    ensures FgInv(s')
  {
    forall k | 0 <= k < |s'.table.jobs| && s'.table.jobs[k].state == FG
      ensures Expected(s', k) && Unscanned(s'.pc, k)
    {
      assert s.table.jobs[k].state == FG;
    }
  }

  // The wait for the foreground job.

  /** The job the main loop is concerned with is in the foreground, or has been stopped. */
  ghost predicate WaitInv(s: Shell) {
    forall k {:trigger s.table.jobs[k]} ::
      0 <= k < |s.table.jobs| && Expected(s, k) ==> s.table.jobs[k].state == FG || s.table.jobs[k].state == ST
  }

  lemma NoSlot(jobs: seq<Job>, pid: int)
    requires !HasJob(jobs, pid)
    ensures forall k {:trigger jobs[k]} :: 0 <= k < |jobs| ==> jobs[k].pid != pid
  {
  }

  lemma MainWaits(s: Shell, s': Shell)
    requires Inv(s) && WaitInv(s) && MainStep(s, s')
    ensures WaitInv(s')
  {
    if AddJob(s, s') {
      assert Tabled(s, s.pc.pid);
      NoSlot(s.table.jobs, s.pc.pid);
    }
    forall k | 0 <= k < |s'.table.jobs| && Expected(s', k)
      ensures s'.table.jobs[k].state == FG || s'.table.jobs[k].state == ST
    {
      assert k < |s.table.jobs|;
    }
  }

  lemma OthersWait(s: Shell, s': Shell)
    requires Inv(s) && WaitInv(s) && (ChildStep(s, s') || Deliver(s, s') || HandlerStep(s, s'))
    ensures WaitInv(s')
  {
    forall k | 0 <= k < |s'.table.jobs| && Expected(s', k)
      ensures s'.table.jobs[k].state == FG || s'.table.jobs[k].state == ST
    {
      assert k < |s.table.jobs| && s.table.jobs[k] == s.table.jobs[k];
    }
  }

  lemma {:induction false} RunWaits(r: seq<Shell>, i: nat)
    requires Run(r) && i < |r|
    ensures WaitInv(r[i])
  {
    hide Inv, WaitInv, MainStep, ChildStep, HandlerStep, Deliver;
    if i == 0 {
      StartWaits();
    } else {
      RunWaits(r, i - 1);
      RunInv(r, i - 1);
      assert StepAt(r, i - 1);
      if MainStep(r[i - 1], r[i]) { MainWaits(r[i - 1], r[i]); } else { OthersWait(r[i - 1], r[i]); }
    }
  }

  lemma StartWaits()
    ensures WaitInv(Start())
  {
  }

  /** waitfg is waiting for pid. */
  predicate InWaitfg(pc: Pc, pid: int) { (pc.Waiting? || pc.Scanning? || pc.Seen?) && pc.pid == pid }

  /**
   * In every run: while a foreground command is being started or waited for, its job is in the
   * foreground or has been stopped.
   */
  lemma ForegroundHeld(r: seq<Shell>, i: nat, pid: int)
    requires Run(r) && i < |r| && pid != 0 && (r[i].pc == Listed(false, pid) || InWaitfg(r[i].pc, pid))
    ensures forall k {:trigger r[i].table.jobs[k]} :: 0 <= k < |r[i].table.jobs| && r[i].table.jobs[k].pid == pid ==>
      r[i].table.jobs[k].state == FG || r[i].table.jobs[k].state == ST
  {
    RunWaits(r, i);
    forall k | 0 <= k < |r[i].table.jobs| && r[i].table.jobs[k].pid == pid ensures Expected(r[i], k) {}
  }

  /**
   * In every run without a stray state write, waitfg returns to the prompt only when its job is
   * gone or has been stopped.
   */
  lemma WaitsForForeground(r: seq<Shell>, i: nat, pid: int)
    requires Run(r) && NoStray(r) && i < |r| - 1 && pid != 0
    requires InWaitfg(r[i].pc, pid) && r[i + 1].pc == Prompt
    ensures forall k {:trigger r[i].table.jobs[k]} :: 0 <= k < |r[i].table.jobs| && r[i].table.jobs[k].pid == pid ==>
      r[i].table.jobs[k].state == ST
  {
    NoStrayInv(r, i);
    assert StepAt(r, i);
    ForegroundHeld(r, i, pid);
    forall k | 0 <= k < |r[i].table.jobs| && r[i].table.jobs[k].pid == pid
      ensures r[i].table.jobs[k].state == ST
    {
      assert r[i].table.jobs[k].state == FG ==> Expected(r[i], k) && Unscanned(r[i].pc, k);
      ReturnsFrom(r[i], r[i + 1]);
    }
  }

  /** The two ways out of the loop in waitfg for a pid other than 0. */
  lemma ReturnsFrom(s: Shell, s': Shell)
    requires Step(s, s') && s'.pc == Prompt && (s.pc.Waiting? || s.pc.Scanning? || s.pc.Seen?) && s.pc.pid != 0
    ensures s.pc.Scanning? ==> s.pc.k >= |s.table.jobs|
    ensures s.pc.Seen? ==> s.pc.k < |s.table.jobs| && s.table.jobs[s.pc.k].pid != s.pc.pid
    ensures !s.pc.Waiting?
  {
    hide Inv;
  }

  /** pid has not been stopped by step i. */
  ghost predicate NeverStopped(r: seq<Shell>, i: int, pid: int) {
    forall j {:trigger StopAt(r, j, pid)} :: 0 <= j < i && j < |r| - 1 ==> !StopAt(r, j, pid)
  }

  ghost predicate StopAt(r: seq<Shell>, j: int, pid: int)
    requires 0 <= j < |r| - 1
  {
    Stop(r[j], r[j + 1], pid)
  }

  /** Nothing says that pid is stopped; its job, if it has one, is in the foreground or background. */
  ghost predicate NoStopOf(s: Shell, pid: int) {
    && (pid in s.children ==> !s.children[pid].Stopped?) && s.handler != SawStop(pid)
    && (forall k {:trigger s.table.jobs[k]} :: 0 <= k < |s.table.jobs| && s.table.jobs[k].pid == pid ==>
          s.table.jobs[k].state == FG || s.table.jobs[k].state == BG)
  }

  lemma MainStopsNone(s: Shell, s': Shell, pid: int)
    requires Inv(s) && NoStopOf(s, pid) && MainStep(s, s') && pid != 0
    ensures NoStopOf(s', pid)
  {
    forall k | 0 <= k < |s'.table.jobs| && s'.table.jobs[k].pid == pid
      ensures s'.table.jobs[k].state == FG || s'.table.jobs[k].state == BG
    {
      assert k < |s.table.jobs| && s.table.jobs[k] == s.table.jobs[k];
    }
  }

  lemma OthersStopNone(s: Shell, s': Shell, pid: int)
    requires Inv(s) && NoStopOf(s, pid) && !Stop(s, s', pid) && pid != 0
    requires ChildStep(s, s') || Deliver(s, s') || HandlerStep(s, s')
    ensures NoStopOf(s', pid)
  {
    forall k | 0 <= k < |s'.table.jobs| && s'.table.jobs[k].pid == pid
      ensures s'.table.jobs[k].state == FG || s'.table.jobs[k].state == BG
    {
      assert k < |s.table.jobs| && s.table.jobs[k] == s.table.jobs[k];
    }
  }

  lemma {:induction false} RunStopsNone(r: seq<Shell>, i: nat, pid: int)
    requires Run(r) && i < |r| && pid != 0 && NeverStopped(r, i, pid)
    ensures NoStopOf(r[i], pid)
  {
    hide Inv, NoStopOf, MainStep, ChildStep, HandlerStep, Deliver, Stop;
    if i == 0 {
      StartStopsNone(pid);
    } else {
      RunStopsNone(r, i - 1, pid);
      RunInv(r, i - 1);
      assert StepAt(r, i - 1) && !StopAt(r, i - 1, pid);
      if MainStep(r[i - 1], r[i]) {
        MainStopsNone(r[i - 1], r[i], pid);
      } else {
        OthersStopNone(r[i - 1], r[i], pid);
      }
    }
  }

  lemma StartStopsNone(pid: int)
    requires pid != 0
    ensures NoStopOf(Start(), pid)
  {
  }

  /** So the prompt comes back only after a foreground command that was never stopped has been reaped. */
  lemma PromptAfterReaping(r: seq<Shell>, i: nat, pid: int)
    requires Run(r) && NoStray(r) && i < |r| - 1 && pid != 0 && NeverStopped(r, i, pid)
    requires InWaitfg(r[i].pc, pid) && r[i + 1].pc == Prompt
    ensures pid !in r[i].children && !HasJob(r[i].table.jobs, pid)
  {
    hide Inv, NoStopOf, Step, NoStray;
    WaitsForForeground(r, i, pid);
    RunStopsNone(r, i, pid);
    NotStoppedGone(r[i], pid);
    RunInv(r, i);
    assert Tabled(r[i], pid) by { InvTabled(r[i], pid); }
  }

  lemma InvTabled(s: Shell, pid: int)
    requires Inv(s)
    ensures Tabled(s, pid)
  {
  }

  lemma NotStoppedGone(s: Shell, pid: int)
    requires NoStopOf(s, pid)
    requires forall k {:trigger s.table.jobs[k]} :: 0 <= k < |s.table.jobs| && s.table.jobs[k].pid == pid ==>
      s.table.jobs[k].state == ST
    ensures !HasJob(s.table.jobs, pid)
  {
    forall k | 0 <= k < |s.table.jobs| ensures s.table.jobs[k].pid != pid { assert s.table.jobs[k] == s.table.jobs[k]; }
  }

  /**
   * In every run without a stray state write, the job of a child that was never stopped is in the
   * foreground while the main loop is concerned with it, and in the background otherwise.
   */
  lemma StateExactly(r: seq<Shell>, i: nat, k: nat)
    requires Run(r) && NoStray(r) && i < |r| && k < |r[i].table.jobs| && r[i].table.jobs[k].pid != 0
    requires NeverStopped(r, i, r[i].table.jobs[k].pid)
    ensures r[i].table.jobs[k].state == if Expected(r[i], k) then FG else BG
  {
    hide Inv, Expected;
    var s, pid := r[i], r[i].table.jobs[k].pid;
    RunStopsNone(r, i, pid);
    RunWaits(r, i);
    NoStrayInv(r, i);
    assert s.table.jobs[k] == s.table.jobs[k];
  }

  /** Steps the main loop still has to take in waitfg when no job is in the foreground. */
  function StepsLeft(pc: Pc, slots: nat): int {
    if pc.Seen? then slots + 3 else if pc.Waiting? then slots + 2 else if pc.Scanning? then slots + 1 - pc.k else 0
  }

  /**
   * Once no job is in the foreground, waitfg is on its way back: it can take a step, and each
   * step brings it nearer to the prompt.
   */
  lemma WaitEnds(s: Shell)
    requires NoFg(s.table.jobs) && s.handler == Idle
    requires s.pc.Waiting? || (s.pc.Scanning? && s.pc.k <= |s.table.jobs|) || (s.pc.Seen? && s.pc.k < |s.table.jobs|)
    ensures exists s' :: MainStep(s, s')
    ensures forall s' :: MainStep(s, s') ==>
      && s' == s.(pc := s'.pc)
      && (s'.pc == Prompt || (StepsLeft(s'.pc, |s.table.jobs|) < StepsLeft(s.pc, |s.table.jobs|)
                              && (s'.pc.Waiting? || (s'.pc.Scanning? && s'.pc.k <= |s.table.jobs|))))
  {
    var n := |s.table.jobs|;
    var s1 :=
      if s.pc.Waiting? then s.(pc := if s.pc.pid == 0 then Prompt else Scanning(s.pc.pid, 0))
      else if s.pc.Scanning? then s.(pc := if s.pc.k >= n then Prompt else Scanning(s.pc.pid, s.pc.k + 1))
      else s.(pc := if s.table.jobs[s.pc.k].pid == s.pc.pid then Waiting(s.pc.pid) else Prompt);
    assert Poll(s, s1) || Scan(s, s1) || Compare(s, s1);
    assert MainStep(s, s1);
  }

  /** Slot k is in the foreground without a process, and the main loop is on its way to the prompt. */
  ghost predicate Stranded(s: Shell, k: nat) {
    && k < |s.table.jobs| && s.table.jobs[k].pid == 0 && s.table.jobs[k].state == FG
    && (s.pc == Marked(k, false) || s.pc == Waiting(0) || s.pc == Prompt)
  }

  lemma StrandedStep(s: Shell, s': Shell, k: nat)
    requires Inv(s) && Step(s, s') && Stranded(s, k) && s.pc != Prompt
    ensures Stranded(s', k)
  {
  }

  /** A stranded slot is still there when the prompt is reached. */
  lemma {:induction false} StrayReachesPrompt(r: seq<Shell>, i: nat, k: nat) returns (j: nat)
    requires Run(r) && i < |r| && Stranded(r[i], k) && r[|r| - 1].pc == Prompt
    ensures j < |r| && r[j].pc == Prompt && !NoFg(r[j].table.jobs)
    decreases |r| - i
  {
    if r[i].pc == Prompt {
      assert r[i].table.jobs[k].state == FG;
      return i;
    }
    RunInv(r, i);
    assert StepAt(r, i);
    StrandedStep(r[i], r[i + 1], k);
    j := StrayReachesPrompt(r, i + 1, k);
  }

  // A condition on the signal alone.

  /** do_bgfg has looked a job up and not yet written its state. */
  predicate InWindow(pc: Pc) { pc.Found? || pc.Continued? }

  /** A step that does not deliver SIGCHLD inside that window. */
  ghost predicate CalmStep(s: Shell, s': Shell) {
    MainStep(s, s') || (Deliver(s, s') && !InWindow(s.pc)) || HandlerStep(s, s') || ChildStep(s, s')
  }

  ghost predicate CalmRun(r: seq<Shell>) {
    && r != [] && r[0] == Start()
    && forall i {:trigger CalmAt(r, i)} :: 0 <= i < |r| - 1 ==> CalmAt(r, i)
  }

  ghost predicate CalmAt(r: seq<Shell>, i: int)
    requires 0 <= i < |r| - 1
  {
    CalmStep(r[i], r[i + 1])
  }

  /** Inside the window the handler is idle, and the job is still there. */
  ghost predicate Windowed(s: Shell) {
    InWindow(s.pc) ==> s.handler == Idle && s.pc.slot < |s.table.jobs| && s.table.jobs[s.pc.slot].pid != 0
  }

  lemma CalmWindow(s: Shell, s': Shell)
    requires Windowed(s) && CalmStep(s, s')
    ensures Windowed(s')
  {
    if MainStep(s, s') { MainWindow(s, s'); }
  }

  lemma MainWindow(s: Shell, s': Shell)
    requires Windowed(s) && MainStep(s, s')
    ensures Windowed(s')
  {
    hide Woken;
  }

  lemma CalmIsRun(r: seq<Shell>)
    requires CalmRun(r)
    ensures Run(r)
  {
    hide MainStep, ChildStep, HandlerStep, Deliver;
    forall i | 0 <= i < |r| - 1 ensures StepAt(r, i) { assert CalmAt(r, i); }
  }

  lemma {:induction false} CalmWindowed(r: seq<Shell>, i: nat)
    requires CalmRun(r) && i < |r|
    ensures Windowed(r[i])
  {
    hide CalmStep;
    if i > 0 {
      CalmWindowed(r, i - 1);
      assert CalmAt(r, i - 1);
      CalmWindow(r[i - 1], r[i]);
    }
  }

  /** A stop that waitpid has reported is in the table, and none is reported while do_bgfg or fork is at its job. */
  ghost predicate StopInv(s: Shell) {
    && (forall k {:trigger s.table.jobs[k]} :: 0 <= k < |s.table.jobs| ==> StopShown(s, k))
    && (s.pc.Continued? && s.pc.slot < |s.table.jobs| ==> !StopReported(s, s.table.jobs[s.pc.slot].pid))
    && (s.pc.Forked? ==> !StopReported(s, s.pc.pid))
  }

  ghost predicate StopReported(s: Shell, pid: int) { pid in s.children && s.children[pid] == Stopped(true) }

  ghost predicate StopShown(s: Shell, k: int)
    requires 0 <= k < |s.table.jobs|
  {
    var job := s.table.jobs[k];
    StopReported(s, job.pid) && s.handler != SawStop(job.pid) ==> job.state == ST
  }

  lemma MainShows(s: Shell, s': Shell)
    requires Inv(s) && StopInv(s) && MainStep(s, s')
    ensures StopInv(s')
  {
    forall k | 0 <= k < |s'.table.jobs| ensures StopShown(s', k) {
      assert k < |s.table.jobs| && StopShown(s, k) && s.table.jobs[k] == s.table.jobs[k];
      var job, job' := s.table.jobs[k], s'.table.jobs[k];
      assert StopReported(s', job'.pid) ==> StopReported(s, job'.pid);
      assert job' == job || (s.pc.Forked? && job'.pid == s.pc.pid) || (s.pc.Continued? && k == s.pc.slot);
    }
  }

  lemma HandlerShows(s: Shell, s': Shell)
    requires Inv(s) && StopInv(s) && Windowed(s)
    requires (Deliver(s, s') && !InWindow(s.pc)) || HandlerStep(s, s')
    ensures StopInv(s')
  {
    forall k | 0 <= k < |s'.table.jobs| ensures StopShown(s', k) {
      assert k < |s.table.jobs| && StopShown(s, k) && s.table.jobs[k] == s.table.jobs[k];
    }
  }

  lemma ChildShows(s: Shell, s': Shell)
    requires StopInv(s) && ChildStep(s, s')
    ensures StopInv(s')
  {
    assert s.pc.Forked? && StopReported(s', s.pc.pid) ==> StopReported(s, s.pc.pid);
    forall k | 0 <= k < |s'.table.jobs| ensures StopShown(s', k) {
      assert StopShown(s, k) && s.table.jobs[k] == s.table.jobs[k];
    }
  }

  lemma {:induction false} CalmShows(r: seq<Shell>, i: nat)
    requires CalmRun(r) && i < |r|
    ensures StopInv(r[i])
  {
    hide Inv, StopInv, MainStep, ChildStep, HandlerStep, Deliver, Windowed;
    if i == 0 {
      StartShows();
    } else {
      CalmShows(r, i - 1);
      CalmIsRun(r);
      RunInv(r, i - 1);
      CalmWindowed(r, i - 1);
      assert CalmAt(r, i - 1);
      if MainStep(r[i - 1], r[i]) {
        MainShows(r[i - 1], r[i]);
      } else if ChildStep(r[i - 1], r[i]) {
        ChildShows(r[i - 1], r[i]);
      } else {
        HandlerShows(r[i - 1], r[i]);
      }
    }
  }

  lemma StartShows()
    ensures StopInv(Start())
  {
    forall k | 0 <= k < |Start().table.jobs| ensures StopShown(Start(), k) {}
  }

  /**
   * In every calm run, whenever SIGCHLD is neither pending nor being handled, the job of every
   * stopped child is marked as stopped.
   */
  lemma StopsAreShown(r: seq<Shell>, i: nat, k: nat)
    requires CalmRun(r) && i < |r| && !r[i].pending && r[i].handler == Idle && k < |r[i].table.jobs|
    ensures
      var pid := r[i].table.jobs[k].pid;
      pid in r[i].children && r[i].children[pid].Stopped? ==> r[i].table.jobs[k].state == ST
  {
    CalmIsRun(r);
    NothingLeftUnreaped(r, i);
    CalmShows(r, i);
    assert StopShown(r[i], k) && r[i].table.jobs[k] == r[i].table.jobs[k];
  }

  /**
   * So in every calm run at most one job is in the foreground, and none at the prompt; it is the one
   * the main loop is concerned with, and that one is in the foreground unless it has been stopped.
   */
  lemma AtMostOneForeground(r: seq<Shell>, i: nat)
    requires CalmRun(r) && i < |r|
    ensures Orderly(r[i])
    ensures forall k {:trigger r[i].table.jobs[k]} :: 0 <= k < |r[i].table.jobs| ==>
      (r[i].table.jobs[k].state == FG <==> Expected(r[i], k) && r[i].table.jobs[k].state != ST)
  {
    CalmIsRun(r);
    forall j | 0 <= j < |r| - 1 ensures !StrayAt(r, j) { CalmWindowed(r, j); }
    NoStrayOrderly(r, i);
    NoStrayInv(r, i);
    RunWaits(r, i);
  }

  // A run that is not calm: the job ends, and is deleted, between lookup and state write.

  function OneJob(j: Job, nextjid: int): Table { Table(seq(MAXJOBS, _ => CLEAR)[0 := j], nextjid) }

  /** State i of that run, for a background job 7 in slot 0. */
  function Stray(i: nat): Shell {
    var none, job, stray := Table(seq(MAXJOBS, _ => CLEAR), 1), OneJob(Job(7, 1, BG), 2), OneJob(Job(0, 0, FG), 1);
    match i
    case 0 => Start()
    case 1 => Shell(map[], none, Blocked(true), Idle, true, false)
    case 2 => Shell(map[7 := Running], none, Forked(true, 7), Idle, true, false)
    case 3 => Shell(map[7 := Running], job, Listed(true, 7), Idle, true, false)
    case 4 => Shell(map[7 := Running], job, Prompt, Idle, false, false)
    case 5 => Shell(map[7 := Running], job, Found(0, false), Idle, false, false)
    case 6 => Shell(map[7 := Zombie], job, Found(0, false), Idle, false, true)
    case 7 => Shell(map[7 := Zombie], job, Found(0, false), Draining, false, false)
    case 8 => Shell(map[], job, Found(0, false), Reaped(7), false, false)
    case 9 => Shell(map[], none, Found(0, false), Draining, false, false)
    case 10 => Shell(map[], none, Found(0, false), Idle, false, false)
    case 11 => Shell(map[], none, Continued(0, false), Idle, false, false)
    case 12 => Shell(map[], stray, Marked(0, false), Idle, false, false)
    case 13 => Shell(map[], stray, Waiting(0), Idle, false, false)
    case _ => Shell(map[], stray, Prompt, Idle, false, false)
  }

  lemma {:induction false} NoJids(jobs: seq<Job>, i: nat)
    requires i <= |jobs| && forall k {:trigger jobs[k]} :: 0 <= k < |jobs| ==> jobs[k] == CLEAR
    ensures MaxJid(jobs, i) == 0
  {
    if i > 0 { NoJids(jobs, i - 1); }
  }

  lemma StrayDeletes()
    ensures Delete(Stray(8), Stray(9))
  {
    var clear := seq(MAXJOBS, _ => CLEAR);
    var jobs := clear[0 := Job(7, 1, BG)];
    assert FindPid(jobs, 7, 0) == 0;
    assert jobs[0 := CLEAR] == clear;
    NoJids(clear, MAXJOBS);
  }

  lemma StrayStep(i: nat)
    requires i < 14
    ensures Step(Stray(i), Stray(i + 1))
  {
    var s, s' := Stray(i), Stray(i + 1);
    if i == 0 { assert Eval(s, s'); }
    else if i == 1 { assert Fork(s, s', 7); }
    else if i == 2 { assert AddJob(s, s'); }
    else if i == 3 { assert Unblock(s, s'); }
    else if i == 4 { assert Lookup(s, s', 0); }
    else if i == 5 { assert Terminate(s, s', 7); }
    else if i == 6 { assert Deliver(s, s'); }
    else if i == 7 { assert Wait(s, s', 7); }
    else if i == 8 { StrayDeletes(); }
    else if i == 9 { assert Return(s, s'); }
    else if i == 10 { assert Cont(s, s'); }
    else if i == 11 { assert Mark(s, s'); }
    else if i == 12 { assert Resume(s, s'); }
    else { assert Poll(s, s'); }
  }

  /** Delivery inside the window can leave a foreground slot behind, at the prompt and without a process. */
  lemma ForegroundCanStray()
    ensures exists r: seq<Shell> :: Run(r) && r[|r| - 1].pc == Prompt && !NoFg(r[|r| - 1].table.jobs)
  {
    var r: seq<Shell> := seq(15, i requires 0 <= i => Stray(i));
    StrayIsRun(r);
    StrayEnds(r);
  }

  lemma StrayIsRun(r: seq<Shell>)
    requires |r| == 15 && forall i {:trigger r[i]} :: 0 <= i < 15 ==> r[i] == Stray(i)
    ensures Run(r)
  {
    hide Stray, Step;
    forall i | 0 <= i < |r| - 1 ensures StepAt(r, i) { StrayStep(i); }
    assert r[0] == Stray(0);
    StrayStarts();
  }

  lemma StrayStarts()
    ensures Stray(0) == Start()
  {
  }

  lemma StrayEnds(r: seq<Shell>)
    requires |r| == 15 && r[14] == Stray(14)
    ensures r[|r| - 1].pc == Prompt && !NoFg(r[|r| - 1].table.jobs)
  {
    assert r[14].table.jobs[0].state == FG;
  }
}
