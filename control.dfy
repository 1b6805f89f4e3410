/**
 * The shell's decisions as functions of values: the state the shell keeps from
 * one line to the next, what the built-ins `cd`, `fg` and `bg` do to it, and
 * what one expanded input line does to it, given what the kernel answers. The
 * class in module Shell is proved to follow these functions.
 */
module Control {
  import opened Wrappers
  import opened Numerals
  import opened WaitStatus
  import opened Jobs
  import opened CStrings
  import opened Pipeline

  /** The state that survives from one line to the next: the job table, `foreground_pid` and `last_exit_status`. */
  datatype Session = Session(table: seq<Job>, foreground: int, lastStatus: int)

  /** What the kernel answers while the shell handles one line, in the order the shell asks. */
  datatype Kernel = Kernel(
    chdirOk: bool,           // `chdir` succeeds (for `cd`)
    pipesOk: bool,           // every `pipe` succeeds
    forks: seq<int>,         // what `fork` returns to the shell for each stage: a child pid, or negative
    waits: seq<StatusWord>,  // the status `waitpid` stores for each stage of a foreground line
    fgWait: StatusWord)      // the status `waitpid` stores for the job `fg` resumes

  /** A stage the shell forked: its pid, what the child runs, and the `pipefd` slots it reads and writes. */
  datatype Launch = Launch(pid: int, program: ChildProgram, input: Option<nat>, output: Option<nat>)

  /** What became of a line, besides the new state. */
  datatype Outcome =
    | Assigned(name: string, value: string)  // `setenv(name, value, 1)`, and nothing else
    | ShellExited                            // `exit(0)`: the shell ends
    | Replied(message: string)               // a built-in the shell ran itself, and what it printed
    | PipeFailed                             // a `pipe` call failed; nothing was forked
    | ForkFailed(started: seq<Launch>)       // a `fork` failed after these stages were started
    | Started(started: seq<Launch>, notice: string)  // every stage was started; `notice` is what `add_job` printed

  const NoArgument := "msh: expected argument to \"cd\"\n"
  const NoJobs := "msh: no current jobs\n"
  const NotFound := "msh: job not found\n"
  const NotFoundOrRunning := "msh: job not found or already running\n"

  /** The table invariant: within capacity, and no pid twice. */
  predicate Sound(t: seq<Job>) {
    |t| <= MaxJobs && DistinctPids(t)
  }

  // ---------------------------------------------------------------------------
  // cd, fg, bg

  /** `cd`: without an argument only a complaint; otherwise `$?` becomes 0 or 1 as `chdir` succeeds or fails. */
  function CdEffect(s: Session, args: seq<string>, chdirOk: bool): (Session, string) {
    if |args| < 2 then (s, NoArgument)
    else (s.(lastStatus := if chdirOk then 0 else 1), "")
  }

  /**
   * The entry `fg` and `bg` act on in a non-empty table: the last one when no
   * argument is given, otherwise the first entry holding the pid the argument
   * reads as (`atoi`), or -1 when no entry holds it.
   */
  function Target(t: seq<Job>, args: seq<string>): (i: int)
    requires t != []
    ensures -1 <= i < |t|
    ensures |args| < 2 ==> i == |t| - 1
    ensures |args| >= 2 ==> (i >= 0 <==> Tracks(t, Atoi(args[1])))
    ensures |args| >= 2 && i >= 0 ==> t[i].pid == Atoi(args[1])
  {
    if |args| < 2 then |t| - 1 else IndexOf(t, Atoi(args[1]))
  }

  /**
   * `fg`: the target leaves the table and runs in the foreground; when the wait
   * reports it stopped it goes back at the end as Stopped, otherwise its exit
   * status becomes `$?`. The command is echoed.
   */
  function FgEffect(s: Session, args: seq<string>, w: StatusWord): (Session, string) {
    if s.table == [] then (s, NoJobs)
    else
      var i := Target(s.table, args);
      if i == -1 then (s, NotFound) else Resumed(s, i, w)
  }

  /** `fg` once its target `i` is known. */
  function Resumed(s: Session, i: nat, w: StatusWord): (Session, string)
    requires i < |s.table|
  {
    var j := s.table[i];
    var rest := Removed(s.table, j.pid);
    if IfStopped(w) then (Session(Appended(rest, Job(j.pid, j.command, Stopped)), -1, s.lastStatus), j.command + "\n")
    else (Session(rest, -1, ExitStatus(w)), j.command + "\n")
  }

  /** `bg`: a Stopped target becomes Running; an empty table, a missing target or a Running one is refused. */
  function BgEffect(s: Session, args: seq<string>): (Session, string) {
    if s.table == [] then (s, NoJobs)
    else
      var i := Target(s.table, args);
      if i == -1 || s.table[i].state == Running then (s, NotFoundOrRunning) else Continued(s, i)
  }

  /** `bg` once its Stopped target `i` is known. */
  function Continued(s: Session, i: nat): (Session, string)
    requires i < |s.table|
  {
    var j := s.table[i];
    (s.(table := s.table[i := Job(j.pid, j.command, Running)]), "[" + Decimal(i + 1) + "]+ " + j.command + " &\n")
  }

  /** How many entries are Stopped. */
  function StoppedCount(t: seq<Job>): nat {
    if t == [] then 0 else (if t[0].state == Stopped then 1 else 0) + StoppedCount(t[1..])
  }

  // ---------------------------------------------------------------------------
  // One line

  /** How many stages were forked before the first failing `fork`. */
  function FirstFailure(forks: seq<int>): (k: nat)
    ensures k <= |forks|
    ensures forall j :: 0 <= j < k ==> forks[j] >= 0
    ensures k < |forks| ==> forks[k] < 0
  {
    if forks == [] || forks[0] < 0 then 0 else 1 + FirstFailure(forks[1..])
  }

  /** The stages started with these pids, each with its program and its pipe slots. */
  function Launches(stages: seq<seq<string>>, pids: seq<int>): (ls: seq<Launch>)
    requires |pids| <= |stages| && forall i :: 0 <= i < |stages| ==> stages[i] != []
    ensures |ls| == |pids|
  {
    seq(|pids|, i requires 0 <= i < |pids| => Launch(pids[i], ChildProgramOf(stages[i]), InputSlot(i), OutputSlot(i, |stages|)))
  }

  /**
   * The state after the foreground wait: only the status `w` of the last stage
   * counts. A stop enters its pid into the table as Stopped, a normal exit
   * becomes `$?`, a kill changes nothing; the shell then has no foreground pid.
   */
  function AfterWait(s: Session, pid: int, text: string, w: StatusWord): Session {
    var s' := s.(foreground := -1);
    if IfStopped(w) then s'.(table := Appended(s.table, Job(pid, text, Stopped)))
    else if IfExited(w) then s'.(lastStatus := ExitStatus(w))
    else s'
  }

  /**
   * The lines the shell handles without undefined behaviour, and kernel answers
   * that fit them: a non-empty line without NUL; unless it is an assignment, its
   * body is well formed and the kernel answers one `fork` and one wait per stage,
   * and `fork` never returns 0 to the shell.
   */
  predicate Handles(line: string, os: Kernel) {
    && line != [] && NUL !in line
    && (!IsAssignment(line) ==>
        var body := StripAmpersand(line).0;
        && WellFormed(body)
        && |os.forks| == |StageWords(body)| && |os.waits| == |os.forks|
        && forall k :: 0 <= k < |os.forks| ==> os.forks[k] != 0)
  }

  /** What one expanded line does, as `execute_pipeline` handles it. */
  function LineEffect(s: Session, line: string, os: Kernel): (Session, Outcome)
    requires Handles(line, os)
  {
    if IsAssignment(line) then
      var nv := Assignment(line);
      (s, Assigned(nv.0, nv.1))
    else
      var body := StripAmpersand(line).0;
      var stages := StageWords(body);
      match ParentBuiltinOf(stages[0], |stages|)
      case Some(b) => BuiltinEffect(s, b, stages[0], os)
      case None => StagesEffect(s, stages, StripAmpersand(line).1, JobText(body), os)
  }

  /** A built-in the shell runs itself, on a line of one stage. */
  function BuiltinEffect(s: Session, b: ParentBuiltin, args: seq<string>, os: Kernel): (Session, Outcome) {
    match b
    case ExitShell => (s, ShellExited)
    case ChangeDir => var r := CdEffect(s, args, os.chdirOk); (r.0, Replied(r.1))
    case Foreground => var r := FgEffect(s, args, os.fgWait); (r.0, Replied(r.1))
    case Background => var r := BgEffect(s, args); (r.0, Replied(r.1))
  }

  /**
   * Stages the shell forks: open the pipes, fork every stage, then either wait
   * for them or enter the last one into the table as a background job.
   */
  function StagesEffect(s: Session, stages: seq<seq<string>>, background: bool, text: string, os: Kernel): (Session, Outcome)
    requires |stages| >= 1 && forall i :: 0 <= i < |stages| ==> stages[i] != []
    requires |os.forks| == |stages| == |os.waits|
  {
    var n := |stages|;
    if n > 1 && !os.pipesOk then (s, PipeFailed)
    else
      var k := FirstFailure(os.forks);
      var started := Launches(stages, os.forks[..k]);
      if k < n then (s, ForkFailed(started))
      else if background then
        var j := Job(os.forks[n - 1], text, Running);
        (s.(table := Appended(s.table, j)), Started(started, AddNotice(s.table, j)))
      else (AfterWait(s, os.forks[n - 1], text, os.waits[n - 1]), Started(started, ""))
  }

  // ---------------------------------------------------------------------------
  // Properties of fg and bg

  /**
   * `fg` on a job that stops again puts it back at the end of the table, marked
   * Stopped, with its pid and command, and the rest of the table in order; the
   * table stays sound and `$?` is untouched.
   */
  lemma FgStoppedRequeues(s: Session, args: seq<string>, w: StatusWord)
    requires Sound(s.table) && s.table != [] && Target(s.table, args) >= 0 && IfStopped(w)
    ensures var t := s.table;
      var i := Target(t, args);
      var r := FgEffect(s, args, w).0;
      && r.table == t[..i] + t[i + 1..] + [Job(t[i].pid, t[i].command, Stopped)]
      && Sound(r.table) && r.foreground == -1 && r.lastStatus == s.lastStatus
  {
    var t := s.table;
    var i := Target(t, args);
    var j := Job(t[i].pid, t[i].command, Stopped);
    RemovedAt(t, i);
    RemovedForgetsPid(t, t[i].pid);
    var rest := Removed(t, t[i].pid);
    assert |rest| < MaxJobs;
    AppendedKeepsDistinct(rest, j);
  }

  /**
   * `fg` on a job that ends takes it out of the table for good, keeps the table
   * sound, and makes its exit status `$?`.
   */
  lemma FgFinishedForgets(s: Session, args: seq<string>, w: StatusWord)
    requires Sound(s.table) && s.table != [] && Target(s.table, args) >= 0 && !IfStopped(w)
    ensures var t := s.table;
      var i := Target(t, args);
      var r := FgEffect(s, args, w).0;
      && r.table == t[..i] + t[i + 1..]
      && !Tracks(r.table, t[i].pid) && Sound(r.table)
      && r.foreground == -1 && r.lastStatus == ExitStatus(w)
  {
    var t := s.table;
    var i := Target(t, args);
    RemovedAt(t, i);
    RemovedForgetsPid(t, t[i].pid);
  }

  /** `fg` with no argument on a job that stops again leaves the table as it was, but for that job now being Stopped. */
  lemma FgDefaultStopKeepsOrder(s: Session, args: seq<string>, w: StatusWord)
    requires Sound(s.table) && s.table != [] && |args| < 2 && IfStopped(w)
    ensures var t := s.table;
      FgEffect(s, args, w).0.table == t[..|t| - 1] + [Job(t[|t| - 1].pid, t[|t| - 1].command, Stopped)]
  {
    FgStoppedRequeues(s, args, w);
    var t := s.table;
    assert t[|t|..] == [];
    assert t[..|t| - 1] + t[|t|..] == t[..|t| - 1];
  }

  /** A refused `fg` changes nothing. */
  lemma FgRefusedChangesNothing(s: Session, args: seq<string>, w: StatusWord)
    requires s.table == [] || Target(s.table, args) == -1
    ensures FgEffect(s, args, w).0 == s
    ensures FgEffect(s, args, w).1 == if s.table == [] then NoJobs else NotFound
  {
  }

  lemma {:induction false} StoppedCountUpdate(t: seq<Job>, i: nat, j: Job)
    requires i < |t|
    ensures StoppedCount(t[i := j]) + (if t[i].state == Stopped then 1 else 0)
         == StoppedCount(t) + (if j.state == Stopped then 1 else 0)
    decreases |t|
  {
    var u := t[i := j];
    if i > 0 {
      assert u[1..] == t[1..][i - 1 := j];
      StoppedCountUpdate(t[1..], i - 1, j);
    } else {
      assert u[1..] == t[1..];
    }
  }

  /**
   * `bg` either changes nothing, or makes exactly one Stopped job Running: the
   * table is the old one with only the target entry's state replaced by
   * Running, so the pids and commands of all entries stay, every other entry
   * keeps its state, and one job fewer is Stopped.
   */
  lemma BgResumesOne(s: Session, args: seq<string>)
    ensures var r := BgEffect(s, args);
      && r.0.foreground == s.foreground && r.0.lastStatus == s.lastStatus
      && |r.0.table| == |s.table|
      && (forall k :: 0 <= k < |s.table| ==> r.0.table[k].pid == s.table[k].pid && r.0.table[k].command == s.table[k].command)
      && (r.0.table == s.table || StoppedCount(r.0.table) + 1 == StoppedCount(s.table))
    ensures var r := BgEffect(s, args);
      r.0.table == s.table ||
      (s.table != [] &&
       var i := Target(s.table, args);
       0 <= i < |s.table| && s.table[i].state == Stopped &&
       r.0.table == s.table[i := Job(s.table[i].pid, s.table[i].command, Running)])
    ensures var r := BgEffect(s, args);
      r.0.table != s.table <==> s.table != [] && Target(s.table, args) >= 0 && s.table[Target(s.table, args)].state == Stopped
  {
    var t := s.table;
    if t != [] {
      var i := Target(t, args);
      if i >= 0 && t[i].state == Stopped {
        var j := Job(t[i].pid, t[i].command, Running);
        StoppedCountUpdate(t, i, j);
        assert t[i := j][i] != t[i];
      }
    }
  }

  // ---------------------------------------------------------------------------
  // Properties of a line

  /**
   * A line keeps the table sound, provided the kernel hands out pids the table
   * does not hold yet: it only ever appends a fresh pid, removes, or flips a
   * state.
   */
  lemma LineKeepsSound(s: Session, line: string, os: Kernel)
    requires Handles(line, os) && Sound(s.table)
    requires forall k :: 0 <= k < |os.forks| ==> !Tracks(s.table, os.forks[k])
    ensures Sound(LineEffect(s, line, os).0.table)
  {
    if !IsAssignment(line) {
      var body := StripAmpersand(line).0;
      var stages := StageWords(body);
      match ParentBuiltinOf(stages[0], |stages|)
      case Some(b) =>
        BuiltinKeepsSound(s, b, stages[0], os);
      case None =>
        StagesKeepSound(s, stages, StripAmpersand(line).1, JobText(body), os);
    }
  }

  lemma BuiltinKeepsSound(s: Session, b: ParentBuiltin, args: seq<string>, os: Kernel)
    requires Sound(s.table)
    ensures Sound(BuiltinEffect(s, b, args, os).0.table)
  {
    match b
    case Foreground =>
      var t := s.table;
      if t != [] && Target(t, args) >= 0 {
        if IfStopped(os.fgWait) {
          FgStoppedRequeues(s, args, os.fgWait);
        } else {
          FgFinishedForgets(s, args, os.fgWait);
        }
      }
    case Background =>
      BgKeepsSound(s, args);
    case _ =>
  }

  lemma StagesKeepSound(s: Session, stages: seq<seq<string>>, background: bool, text: string, os: Kernel)
    requires |stages| >= 1 && forall i :: 0 <= i < |stages| ==> stages[i] != []
    requires |os.forks| == |stages| == |os.waits|
    requires Sound(s.table) && forall k :: 0 <= k < |os.forks| ==> !Tracks(s.table, os.forks[k])
    ensures Sound(StagesEffect(s, stages, background, text, os).0.table)
  {
    var n := |stages|;
    if FirstFailure(os.forks) == n {
      var last := os.forks[n - 1];
      AppendedKeepsDistinct(s.table, Job(last, text, Running));
      AppendedKeepsDistinct(s.table, Job(last, text, Stopped));
    }
  }

  lemma BgKeepsSound(s: Session, args: seq<string>)
    requires Sound(s.table)
    ensures Sound(BgEffect(s, args).0.table)
  {
    var r := BgEffect(s, args).0.table;
    BgResumesOne(s, args);
    assert forall a, b :: 0 <= a < b < |r| ==> r[a].pid == s.table[a].pid && r[b].pid == s.table[b].pid;
  }

  /**
   * A background line whose stages all started leaves `$?` and the foreground
   * pid alone and enters the last stage's pid, Running, at the end of the table
   * when there is room, under the text the line's first word ends.
   */
  lemma BackgroundLineTracksLastStage(s: Session, line: string, os: Kernel)
    requires Handles(line, os) && !IsAssignment(line) && StripAmpersand(line).1
    requires var stages := StageWords(StripAmpersand(line).0);
      ParentBuiltinOf(stages[0], |stages|) == None && (|stages| == 1 || os.pipesOk) && FirstFailure(os.forks) == |stages|
    requires |s.table| < MaxJobs
    ensures var r := LineEffect(s, line, os);
      var body := StripAmpersand(line).0;
      && r.0 == s.(table := s.table + [Job(os.forks[|os.forks| - 1], JobText(body), Running)])
      && r.1.Started? && |r.1.started| == |os.forks|
      && r.1.notice == "[" + Decimal(|s.table| + 1) + "] " + Decimal(os.forks[|os.forks| - 1]) + "\n"
  {
  }

  /**
   * In a foreground line only the last stage's status counts: any two kernels
   * that agree on everything but the statuses of the other stages lead to the
   * same state and outcome.
   */
  lemma OnlyLastStageCounts(s: Session, line: string, os: Kernel, os': Kernel)
    requires Handles(line, os) && Handles(line, os')
    requires os'.chdirOk == os.chdirOk && os'.pipesOk == os.pipesOk && os'.forks == os.forks && os'.fgWait == os.fgWait
    requires os.waits != [] && os'.waits != [] ==> os'.waits[|os'.waits| - 1] == os.waits[|os.waits| - 1]
    ensures LineEffect(s, line, os') == LineEffect(s, line, os)
  {
  }

  /**
   * A foreground line whose stages all started ends with no foreground pid, and
   * changes `$?` exactly when its last stage exited normally, to that stage's
   * exit status.
   */
  lemma ForegroundLineStatus(s: Session, line: string, os: Kernel)
    requires Handles(line, os) && !IsAssignment(line) && !StripAmpersand(line).1
    requires var stages := StageWords(StripAmpersand(line).0);
      ParentBuiltinOf(stages[0], |stages|) == None && (|stages| == 1 || os.pipesOk) && FirstFailure(os.forks) == |stages|
    ensures var r := LineEffect(s, line, os).0;
      var w := os.waits[|os.waits| - 1];
      && r.foreground == -1
      && r.lastStatus == (if IfExited(w) then ExitStatus(w) else s.lastStatus)
      && (r.table != s.table ==> IfStopped(w) && |r.table| == |s.table| + 1)
  {
    var w := os.waits[|os.waits| - 1];
    AtMostOneOutcome(w);
  }

  /** A line that fails before every stage is started changes no state. */
  lemma FailedLineChangesNothing(s: Session, line: string, os: Kernel)
    requires Handles(line, os)
    requires LineEffect(s, line, os).1.PipeFailed? || LineEffect(s, line, os).1.ForkFailed?
    ensures LineEffect(s, line, os).0 == s
  {
  }

  /**
   * The started stages of a line are wired into a chain: stage `k` writes the
   * pipe stage `k + 1` reads, the first stage reads the terminal and the last
   * stage writes it, and each child runs its stage's words.
   */
  lemma StartedStagesChain(s: Session, line: string, os: Kernel)
    requires Handles(line, os)
    requires LineEffect(s, line, os).1.Started?
    ensures var ls := LineEffect(s, line, os).1.started;
      var stages := StageWords(StripAmpersand(line).0);
      && |ls| == |stages| == |os.forks|
      && ls[0].input == None && ls[|ls| - 1].output == None
      && (forall k :: 0 <= k < |ls| - 1 ==> ls[k].output == Some(2 * k + 1) && ls[k + 1].input == Some(2 * k))
      && (forall k :: 0 <= k < |ls| ==> ls[k].pid == os.forks[k] > 0)
      && (forall k :: 0 <= k < |ls| && ls[k].program.External? ==> ls[k].program.argv == stages[k])
  {
    var stages := StageWords(StripAmpersand(line).0);
    assert os.forks[..|os.forks|] == os.forks;
    LaunchesChain(stages, os.forks);
  }

  /** Launching every stage with its pid gives the chain of pipes, each child running its own stage. */
  lemma LaunchesChain(stages: seq<seq<string>>, pids: seq<int>)
    requires |pids| == |stages| >= 1 && forall i :: 0 <= i < |stages| ==> stages[i] != []
    ensures var ls := Launches(stages, pids);
      && ls[0].input == None && ls[|ls| - 1].output == None
      && (forall k :: 0 <= k < |ls| - 1 ==> ls[k].output == Some(2 * k + 1) && ls[k + 1].input == Some(2 * k))
      && (forall k :: 0 <= k < |ls| ==> ls[k].pid == pids[k])
      && (forall k :: 0 <= k < |ls| && ls[k].program.External? ==> ls[k].program.argv == stages[k])
  {
  }

}
