/**
 * The shell's global state as an object: the job table is a fixed array of
 * `MaxJobs` entries with a count of those in use, beside the foreground pid and
 * the last exit status. Every method is proved to leave the state the
 * functions of module Control (and Jobs) say it should.
 */
module Shell {
  import opened Wrappers
  import opened Numerals
  import opened WaitStatus
  import opened Jobs
  import opened CStrings
  import opened Expansion
  import opened Pipeline
  import opened Control

  class Shell {
    /** `jobs[MAX_JOBS]`: entries `0 .. jobCount - 1` are in use. */
    const jobs: array<Job>
    var jobCount: nat
    /** `foreground_pid`: the single foreground child being waited for, or -1. */
    var foregroundPid: int
    /** `last_exit_status`, which `$?` expands to. */
    var lastExitStatus: int
    /** `shell_pid` and `shell_path`, set once at start-up. */
    const shellPid: int
    const shellPath: string

    ghost predicate Valid()
      reads this
    {
      jobs.Length == MaxJobs && jobCount <= MaxJobs
    }

    /** The entries in use, in table order. */
    function Table(): seq<Job>
      requires Valid()
      reads this, jobs
    {
      jobs[..jobCount]
    }

    /** Everything a line can change. */
    function State(): Session
      requires Valid()
      reads this, jobs
    {
      Session(Table(), foregroundPid, lastExitStatus)
    }

    /** The shell at start-up: no jobs, no foreground child, `$?` is 0. */
    constructor (pid: int, path: string)
      ensures Valid() && State() == Session([], -1, 0)
      ensures shellPid == pid && shellPath == path
    {
      jobs := new Job[MaxJobs](_ => Job(0, "", Running));
      jobCount := 0;
      foregroundPid := -1;
      lastExitStatus := 0;
      shellPid := pid;
      shellPath := path;
    }

    // -------------------------------------------------------------------------
    // The job table

    /** `add_job`: append an entry when there is room, and announce a Running one. */
    method AddJob(pid: int, command: string, state: JobState) returns (notice: string)
      requires Valid()
      modifies this, jobs
      ensures Valid()
      ensures Table() == Appended(old(Table()), Job(pid, command, state))
      ensures notice == AddNotice(old(Table()), Job(pid, command, state))
      ensures foregroundPid == old(foregroundPid) && lastExitStatus == old(lastExitStatus)
    {
      notice := "";
      if jobCount < MaxJobs {
        jobs[jobCount] := Job(pid, command, state);
        jobCount := jobCount + 1;
        if state == Running {
          notice := "[" + Decimal(jobCount) + "] " + Decimal(pid) + "\n";
        }
      }
    }

    /** `remove_job`: delete the first entry holding `pid`, shifting the later ones one place left. */
    method RemoveJob(pid: int)
      requires Valid()
      modifies this, jobs
      ensures Valid()
      ensures Table() == Removed(old(Table()), pid)
      ensures foregroundPid == old(foregroundPid) && lastExitStatus == old(lastExitStatus)
    {
      ghost var t := Table();
      var i := 0;
      while i < jobCount
        invariant i <= jobCount && Table() == t
        invariant forall k :: 0 <= k < i ==> t[k].pid != pid
      {
        if jobs[i].pid == pid {
          assert t[i].pid == pid;
          assert IndexOf(t, pid) == i;
          ShiftLeft(i);
          jobCount := jobCount - 1;
          assert Table() == t[..i] + t[i + 1..];
          return;
        }
        i := i + 1;
      }
      assert !Tracks(t, pid);
    }

    /** The inner loop of `remove_job`: move entries `i + 1 .. jobCount - 1` one place left. */
    method ShiftLeft(i: nat)
      requires Valid() && i < jobCount
      modifies jobs
      ensures jobs[..jobCount - 1] == old(jobs[..jobCount])[..i] + old(jobs[..jobCount])[i + 1..]
    {
      ghost var t := jobs[..jobCount];
      var j := i;
      ShiftBegins(t, i);
      while j < jobCount - 1
        invariant i <= j < jobCount
        invariant Shifting(t, i, j, jobs[..jobCount])
      {
        ghost var before := jobs[..jobCount];
        jobs[j] := jobs[j + 1];
        assert jobs[..jobCount] == before[j := before[j + 1]];
        ShiftStep(t, i, j, before);
        j := j + 1;
      }
      ShiftEnds(t, i, jobs[..jobCount]);
    }

    /** `find_job_by_pid`: the least index holding `pid`, or -1. */
    method FindJobByPid(pid: int) returns (r: int)
      requires Valid()
      ensures r == IndexOf(Table(), pid)
      ensures -1 <= r < jobCount
    {
      var i := 0;
      while i < jobCount
        invariant i <= jobCount
        invariant forall k :: 0 <= k < i ==> jobs[k].pid != pid
      {
        if jobs[i].pid == pid {
          assert Table()[i].pid == pid;
          return i;
        }
        i := i + 1;
      }
      assert !Tracks(Table(), pid);
      return -1;
    }

    // -------------------------------------------------------------------------
    // Reaping children

    /**
     * One turn of the loop of `handle_sigchld`: a report about the foreground
     * child is left to the shell's own wait; a background job that exited or
     * was killed is announced and removed; anything else changes nothing.
     */
    method ReapOne(r: Report) returns (notice: Option<string>)
      requires Valid()
      modifies this, jobs
      ensures Valid()
      ensures Table() == AfterReport(old(Table()), foregroundPid, r)
      ensures notice == ReportNotice(old(Table()), foregroundPid, r)
      ensures foregroundPid == old(foregroundPid) && lastExitStatus == old(lastExitStatus)
    {
      if r.pid == foregroundPid {
        return None;
      }
      var idx := FindJobByPid(r.pid);
      if idx != -1 && (IfExited(r.status) || IfSignaled(r.status)) {
        notice := Some(DoneNotice(idx + 1, jobs[idx].command));
        RemoveJob(r.pid);
      } else {
        notice := None;
      }
    }

    /** `handle_sigchld`: handle every report the kernel has queued, in order. */
    method HandleSigchld(reports: seq<Report>) returns (notices: seq<string>)
      requires Valid()
      modifies this, jobs
      ensures Valid()
      ensures Table() == AfterReports(old(Table()), foregroundPid, reports)
      ensures notices == DoneNotices(old(Table()), foregroundPid, reports)
      ensures foregroundPid == old(foregroundPid) && lastExitStatus == old(lastExitStatus)
    {
      ghost var t := Table();
      notices := [];
      var i := 0;
      DrainingBegins(t, foregroundPid, reports);
      while i < |reports|
        invariant Valid() && Draining(t, foregroundPid, reports, i, Table(), notices)
        invariant foregroundPid == old(foregroundPid) && lastExitStatus == old(lastExitStatus)
      {
        DrainingStep(t, foregroundPid, reports, i, Table(), notices);
        var notice := ReapOne(reports[i]);
        notices := notices + Listed(notice);
        i := i + 1;
      }
      DrainingEnds(t, foregroundPid, reports, Table(), notices);
    }

    // -------------------------------------------------------------------------
    // Built-ins

    /** `cd`: the outcome of `chdir` is the kernel's answer `chdirOk`. */
    method ExecCd(args: seq<string>, chdirOk: bool) returns (message: string)
      requires Valid()
      modifies this
      ensures Valid()
      ensures (State(), message) == CdEffect(old(State()), args, chdirOk)
    {
      if |args| < 2 {
        return NoArgument;
      }
      message := "";
      if !chdirOk {
        lastExitStatus := 1;
      } else {
        lastExitStatus := 0;
      }
    }

    /**
     * `jobs`, as the child that runs it sees the table: one line per entry,
     * and exit status 0. It runs in a forked child, so the shell's own state
     * does not change.
     */
    method ExecJobs() returns (lines: seq<string>, code: int)
      requires Valid()
      ensures lines == Listing(Table()) && code == 0
    {
      lines := [];
      var i := 0;
      while i < jobCount
        invariant i <= jobCount
        invariant lines == Listing(Table()[..i])
      {
        ListingSnoc(Table(), i);
        lines := lines + [JobLine(i + 1, jobs[i])];
        i := i + 1;
      }
      assert Table()[..jobCount] == Table();
      code := 0;
    }

    /** `fg`: the status the resumed job's wait reports is the kernel's answer `w`. */
    method ExecFg(args: seq<string>, w: StatusWord) returns (message: string)
      requires Valid()
      modifies this, jobs
      ensures Valid()
      ensures (State(), message) == FgEffect(old(State()), args, w)
    {
      if jobCount == 0 {
        return NoJobs;
      }
      var idx := SelectTarget(args);
      if idx == -1 {
        return NotFound;
      }
      message := Resume(idx, w);
    }

    /** The job `fg` and `bg` act on: the last one by default, or the one holding the pid given. */
    method SelectTarget(args: seq<string>) returns (idx: int)
      requires Valid() && jobCount > 0
      ensures idx == Target(Table(), args)
    {
      idx := jobCount - 1;
      if |args| > 1 {
        idx := FindJobByPid(Atoi(args[1]));
      }
    }

    /** The rest of `fg`: hand the job to the foreground, echo its command, and act on the wait. */
    method Resume(idx: nat, w: StatusWord) returns (message: string)
      requires Valid() && idx < jobCount
      modifies this, jobs
      ensures Valid()
      ensures (State(), message) == Resumed(old(State()), idx, w)
    {
      var pid, command := TakeForeground(idx);
      message := command + "\n";
      AwaitForeground(pid, command, w);
    }

    /** `fg` before its wait: the job leaves the table and its pid becomes the foreground pid. */
    method TakeForeground(idx: nat) returns (pid: int, command: string)
      requires Valid() && idx < jobCount
      modifies this, jobs
      ensures Valid()
      ensures pid == old(Table())[idx].pid && command == old(Table())[idx].command
      ensures Table() == Removed(old(Table()), pid)
      ensures foregroundPid == pid && lastExitStatus == old(lastExitStatus)
    {
      pid := jobs[idx].pid;
      command := jobs[idx].command;
      RemoveJob(pid);
      foregroundPid := pid;
    }

    /**
     * `fg` after its wait reported `w`: there is no foreground pid any more; a
     * job that stopped again goes back at the end as Stopped, otherwise its
     * exit status becomes `$?`.
     */
    method AwaitForeground(pid: int, command: string, w: StatusWord)
      requires Valid()
      modifies this, jobs
      ensures Valid() && foregroundPid == -1
      ensures IfStopped(w) ==> Table() == Appended(old(Table()), Job(pid, command, Stopped)) && lastExitStatus == old(lastExitStatus)
      ensures !IfStopped(w) ==> Table() == old(Table()) && lastExitStatus == ExitStatus(w)
    {
      foregroundPid := -1;
      if IfStopped(w) {
        var silent := AddJob(pid, command, Stopped);
      } else {
        lastExitStatus := ExitStatus(w);
      }
    }

    /** `bg`: mark a Stopped job Running. */
    method ExecBg(args: seq<string>) returns (message: string)
      requires Valid()
      modifies jobs
      ensures Valid()
      ensures (State(), message) == BgEffect(old(State()), args)
    {
      if jobCount == 0 {
        return NoJobs;
      }
      var idx := SelectTarget(args);
      if idx == -1 || jobs[idx].state == Running {
        return NotFoundOrRunning;
      }
      message := Continue(idx);
    }

    /** The rest of `bg`: the job's state becomes Running. */
    method Continue(idx: nat) returns (message: string)
      requires Valid() && idx < jobCount
      modifies jobs
      ensures Valid()
      ensures (State(), message) == Continued(old(State()), idx)
    {
      var j := jobs[idx];
      jobs[idx] := Job(j.pid, j.command, Running);
      message := "[" + Decimal(idx + 1) + "]+ " + j.command + " &\n";
    }

    // -------------------------------------------------------------------------
    // One line

    /** `expand_variables` with the shell's own `$?`, pid and path. */
    method ExpandLine(cmd: string) returns (out: string)
      requires |Expand(cmd, lastExitStatus, shellPid, shellPath)| < MaxCmdLen
      ensures out == Expand(cmd, lastExitStatus, shellPid, shellPath)
    {
      out := ExpandVariables(cmd, lastExitStatus, shellPid, shellPath);
    }

    /** `execute_pipeline` on an expanded line, with the kernel's answers in `os`. */
    method ExecutePipeline(line: string, os: Kernel) returns (outcome: Outcome)
      requires Valid() && Handles(line, os)
      modifies this, jobs
      ensures Valid()
      ensures (State(), outcome) == LineEffect(old(State()), line, os)
    {
      var eq := FirstIndex(line, '=');
      if eq >= 0 && |line| >= 3 && line[..3] == "PS1" {
        if line[eq - 1] != ' ' && (eq + 1 == |line| || line[eq + 1] != ' ') {
          return Assigned(line[..eq], line[eq + 1..]);
        }
      }
      assert !IsAssignment(line);
      var body, background := line, false;
      if line[|line| - 1] == '&' {
        body, background := line[..|line| - 1], true;
      }
      assert (body, background) == StripAmpersand(line);
      var stages, jobText := SplitLine(body);
      match ParentBuiltinOf(stages[0], |stages|)
      case Some(b) =>
        outcome := RunBuiltin(b, stages[0], os);
      case None =>
        outcome := RunStages(stages, background, jobText, os);
    }

    /** The built-ins `execute_pipeline` runs in the shell itself. */
    method RunBuiltin(b: ParentBuiltin, args: seq<string>, os: Kernel) returns (outcome: Outcome)
      requires Valid()
      modifies this, jobs
      ensures Valid()
      ensures (State(), outcome) == BuiltinEffect(old(State()), b, args, os)
    {
      match b
      case ExitShell =>
        outcome := ShellExited;
      case ChangeDir =>
        var message := ExecCd(args, os.chdirOk);
        outcome := Replied(message);
      case Foreground =>
        var message := ExecFg(args, os.fgWait);
        outcome := Replied(message);
      case Background =>
        var message := ExecBg(args);
        outcome := Replied(message);
    }

    /** The rest of `execute_pipeline`: pipes, forks, and the wait or the background entry. */
    method RunStages(stages: seq<seq<string>>, background: bool, jobText: string, os: Kernel) returns (outcome: Outcome)
      requires Valid()
      requires |stages| >= 1 && forall i :: 0 <= i < |stages| ==> stages[i] != []
      requires |os.forks| == |stages| == |os.waits|
      modifies this, jobs
      ensures Valid()
      ensures (State(), outcome) == StagesEffect(old(State()), stages, background, jobText, os)
    {
      var n := |stages|;
      if n > 1 && !os.pipesOk {
        return PipeFailed;
      }
      var started, failed := StartStages(stages, os.forks, background);
      if failed {
        return ForkFailed(started);
      }
      if !background {
        WaitStages(os.forks, os.waits, jobText);
        outcome := Started(started, "");
      } else {
        var notice := AddJob(os.forks[n - 1], jobText, Running);
        outcome := Started(started, notice);
      }
    }

    /**
     * The fork loop of `execute_pipeline`: start the stages in order until a
     * `fork` fails. A single foreground stage becomes the foreground child.
     */
    method StartStages(stages: seq<seq<string>>, forks: seq<int>, background: bool) returns (started: seq<Launch>, failed: bool)
      requires |forks| == |stages| && forall i :: 0 <= i < |stages| ==> stages[i] != []
      modifies this
      ensures var k := FirstFailure(forks);
        && failed == (k < |stages|)
        && started == Launches(stages, forks[..k])
      ensures foregroundPid == if !failed && |stages| == 1 && !background then forks[0] else old(foregroundPid)
      ensures lastExitStatus == old(lastExitStatus) && jobCount == old(jobCount)
    {
      var n := |stages|;
      started := [];
      var i := 0;
      while i < n
        invariant i <= n && forall k :: 0 <= k < i ==> forks[k] >= 0
        invariant started == Launches(stages, forks[..i])
        invariant foregroundPid == if i == 1 && n == 1 && !background then forks[0] else old(foregroundPid)
        invariant lastExitStatus == old(lastExitStatus) && jobCount == old(jobCount)
      {
        var pid := forks[i];
        if pid < 0 {
          FirstFailureAt(forks, i);
          return started, true;
        }
        started := started + [Launch(pid, ChildProgramOf(stages[i]), InputSlot(i), OutputSlot(i, n))];
        if n == 1 && !background {
          foregroundPid := pid;
        }
        i := i + 1;
      }
      FirstFailureAt(forks, n);
      failed := false;
    }

    /**
     * The wait loop of a foreground line: wait for every stage in order; only
     * the last stage's status is acted on.
     */
    method WaitStages(pids: seq<int>, waits: seq<StatusWord>, jobText: string)
      requires Valid() && |waits| == |pids| > 0
      modifies this, jobs
      ensures Valid()
      ensures State() == AfterWait(old(State()), pids[|pids| - 1], jobText, waits[|waits| - 1])
    {
      var n := |pids|;
      var i := 0;
      while i < n
        invariant Valid() && i <= n
        invariant i < n ==> State() == old(State())
        invariant i == n ==> State() == AfterWait(old(State()), pids[n - 1], jobText, waits[n - 1]).(foreground := old(foregroundPid))
      {
        var status := waits[i];
        if i == n - 1 {
          if IfStopped(status) {
            var silent := AddJob(pids[i], jobText, Stopped);
          } else if IfExited(status) {
            lastExitStatus := ExitStatus(status);
          }
        }
        i := i + 1;
      }
      foregroundPid := -1;
    }
  }

  /** The first `i` forks all succeeded, and the `i`-th failed or there is none: `i` stages were started. */
  lemma FirstFailureAt(forks: seq<int>, i: nat)
    requires i <= |forks| && forall k :: 0 <= k < i ==> forks[k] >= 0
    requires i < |forks| ==> forks[i] < 0
    ensures FirstFailure(forks) == i
  {
  }

  /** Part way through the shift: entries before `j` hold their final values, entries from `j + 1` on are untouched. */
  ghost predicate Shifting(t: seq<Job>, i: nat, j: nat, cur: seq<Job>) {
    && i <= j < |t| == |cur|
    && cur[..j] == t[..i] + t[i + 1..j + 1]
    && cur[j + 1..] == t[j + 1..]
  }

  lemma ShiftBegins(t: seq<Job>, i: nat)
    requires i < |t|
    ensures Shifting(t, i, i, t)
  {
    assert t[i + 1..i + 1] == [];
  }

  lemma ShiftStep(t: seq<Job>, i: nat, j: nat, cur: seq<Job>)
    requires Shifting(t, i, j, cur) && j + 1 < |t|
    ensures Shifting(t, i, j + 1, cur[j := cur[j + 1]])
  {
    var next := cur[j := cur[j + 1]];
    assert next[..j + 1] == cur[..j] + [t[j + 1]];
    assert t[i + 1..j + 2] == t[i + 1..j + 1] + [t[j + 1]];
    assert next[j + 2..] == cur[j + 2..];
  }

  lemma ShiftEnds(t: seq<Job>, i: nat, cur: seq<Job>)
    requires t != [] && Shifting(t, i, |t| - 1, cur)
    ensures cur[..|t| - 1] == t[..i] + t[i + 1..]
  {
  }
}
