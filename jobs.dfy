/**
 * The job registry's contents as values: what a job is, and the functions that
 * say what the registry holds after each operation. The class in module Shell
 * keeps the registry in a fixed array and is proved against these functions.
 */
module Jobs {
  import opened Wrappers
  import opened Numerals
  import opened WaitStatus

  /** Capacity of the job table (`MAX_JOBS`). */
  const MaxJobs: nat := 20

  /** The `status` field of a job: 0 is Running, 1 is Stopped. */
  datatype JobState = Running | Stopped

  datatype Job = Job(pid: int, command: string, state: JobState)

  /** One child state change reported by `waitpid(-1, &status, WNOHANG | WUNTRACED)`. */
  datatype Report = Report(pid: int, status: StatusWord)

  predicate Tracks(t: seq<Job>, pid: int) {
    exists k :: 0 <= k < |t| && t[k].pid == pid
  }

  /** No two entries share a process id. */
  predicate DistinctPids(t: seq<Job>) {
    forall i, j :: 0 <= i < j < |t| ==> t[i].pid != t[j].pid
  }

  /** The least index holding `pid`, or -1 when no entry does. */
  function IndexOf(t: seq<Job>, pid: int): (r: int)
    ensures -1 <= r < |t|
    ensures r >= 0 ==> t[r].pid == pid
    ensures r >= 0 ==> forall k :: 0 <= k < r ==> t[k].pid != pid
    ensures r == -1 <==> !Tracks(t, pid)
  {
    if t == [] then -1
    else if t[0].pid == pid then 0
    else
      var r := IndexOf(t[1..], pid);
      assert forall k :: 1 <= k < |t| ==> t[k] == t[1..][k - 1];
      if r == -1 then -1 else r + 1
  }

  /** The registry after deleting the first entry that holds `pid`. */
  function Removed(t: seq<Job>, pid: int): seq<Job> {
    var i := IndexOf(t, pid);
    if i < 0 then t else t[..i] + t[i + 1..]
  }

  /** The registry after inserting `j` at the end; a full table is left as it is. */
  function Appended(t: seq<Job>, j: Job): seq<Job> {
    if |t| < MaxJobs then t + [j] else t
  }

  /** A terminal change: the child exited or was killed by a signal. */
  predicate Ends(w: StatusWord) {
    IfExited(w) || IfSignaled(w)
  }

  /** The registry after the reaper has handled one report while `fg` is the foreground pid. */
  function AfterReport(t: seq<Job>, fg: int, r: Report): seq<Job> {
    if r.pid == fg then t
    else if IndexOf(t, r.pid) != -1 && Ends(r.status) then Removed(t, r.pid)
    else t
  }

  /** The registry after the reaper has drained a batch of reports, in order. */
  function AfterReports(t: seq<Job>, fg: int, rs: seq<Report>): seq<Job>
    decreases |rs|
  {
    if rs == [] then t else AfterReports(AfterReport(t, fg, rs[0]), fg, rs[1..])
  }

  function StateLabel(s: JobState): string {
    match s
    case Running => "Running"
    case Stopped => "Stopped"
  }

  /** One line of the `jobs` listing: `[<index>] <state> <command> [<pid>]`. */
  function JobLine(index: nat, j: Job): string {
    "[" + Decimal(index) + "] " + StateLabel(j.state) + " " + j.command + " [" + Decimal(j.pid) + "]\n"
  }

  /** The whole `jobs` listing, numbered from 1 in table order. */
  function Listing(t: seq<Job>): seq<string> {
    seq(|t|, i requires 0 <= i < |t| => JobLine(i + 1, t[i]))
  }

  /** The `Done` notice the reaper prints for a finished job at display index `index`. */
  function DoneNotice(index: nat, command: string): string {
    "\n[" + Decimal(index) + "]+  Done\t\t" + command + "\n"
  }

  /** What `add_job` prints: a Running job it could add is announced as `[<count>] <pid>`. */
  function AddNotice(t: seq<Job>, j: Job): string {
    if |t| < MaxJobs && j.state == Running then "[" + Decimal(|t| + 1) + "] " + Decimal(j.pid) + "\n" else ""
  }

  /** The `Done` notice the reaper prints for one report, if it prints one. */
  function ReportNotice(t: seq<Job>, fg: int, r: Report): Option<string> {
    if r.pid == fg then None
    else
      var i := IndexOf(t, r.pid);
      if i != -1 && Ends(r.status) then Some(DoneNotice(i + 1, t[i].command)) else None
  }

  /** Every `Done` notice the reaper prints for a batch of reports, in order. */
  function DoneNotices(t: seq<Job>, fg: int, rs: seq<Report>): seq<string>
    decreases |rs|
  {
    if rs == [] then []
    else
      Listed(ReportNotice(t, fg, rs[0])) + DoneNotices(AfterReport(t, fg, rs[0]), fg, rs[1..])
  }

  /** A notice that may be absent, as a list of zero or one notices. */
  function Listed(o: Option<string>): seq<string> {
    match o
    case Some(n) => [n]
    case None => []
  }

  /**
   * Part way through a batch: `cur` is the registry after the first `i`
   * reports, `notices` what has been printed so far, and handling the rest
   * gives what handling the whole batch from `t` gives.
   */
  predicate Draining(t: seq<Job>, fg: int, rs: seq<Report>, i: nat, cur: seq<Job>, notices: seq<string>) {
    && i <= |rs|
    && AfterReports(cur, fg, rs[i..]) == AfterReports(t, fg, rs)
    && notices + DoneNotices(cur, fg, rs[i..]) == DoneNotices(t, fg, rs)
  }

  // ---------------------------------------------------------------------------
  // Properties of the registry operations

  /**
   * Deleting keeps every other entry, in order: entries before the deleted one
   * stay where they are and entries after it move one place left.
   */
  lemma RemovedShiftsLeft(t: seq<Job>, pid: int)
    ensures var i := IndexOf(t, pid);
      && (i == -1 ==> Removed(t, pid) == t)
      && (i >= 0 ==> |Removed(t, pid)| == |t| - 1)
      && (i >= 0 ==> forall k :: 0 <= k < i ==> Removed(t, pid)[k] == t[k])
      && (i >= 0 ==> forall k :: i <= k < |t| - 1 ==> Removed(t, pid)[k] == t[k + 1])
  {
    var i := IndexOf(t, pid);
    if i >= 0 {
      CutShifts(t, i);
    }
  }

  lemma CutShifts(t: seq<Job>, i: nat)
    requires i < |t|
    ensures var r := t[..i] + t[i + 1..];
      && |r| == |t| - 1
      && (forall k :: 0 <= k < i ==> r[k] == t[k])
      && (forall k :: i <= k < |t| - 1 ==> r[k] == t[k + 1])
  {
    var r := t[..i] + t[i + 1..];
    forall k | i <= k < |t| - 1
      ensures r[k] == t[k + 1]
    {
      assert r[k] == t[i + 1..][k - i];
    }
  }

  /** Deleting takes exactly one entry holding `pid` out of the registry, or nothing. */
  lemma RemovedMultiset(t: seq<Job>, pid: int)
    ensures Tracks(t, pid) ==>
      exists j :: j in multiset(t) && j.pid == pid && multiset(Removed(t, pid)) + multiset{j} == multiset(t)
    ensures !Tracks(t, pid) ==> Removed(t, pid) == t
  {
    var i := IndexOf(t, pid);
    if i >= 0 {
      assert t == t[..i] + [t[i]] + t[i + 1..];
      assert multiset(t) == multiset(t[..i]) + multiset{t[i]} + multiset(t[i + 1..]);
      assert t[i] in multiset(t);
    }
  }

  /** With distinct pids, deleting `pid` leaves no entry for it and keeps pids distinct. */
  lemma RemovedForgetsPid(t: seq<Job>, pid: int)
    requires DistinctPids(t)
    ensures !Tracks(Removed(t, pid), pid)
    ensures DistinctPids(Removed(t, pid))
  {
    var i := IndexOf(t, pid);
    if i >= 0 {
      var r := Removed(t, pid);
      RemovedShiftsLeft(t, pid);
      forall k | 0 <= k < |r| ensures r[k].pid != pid {
        if k >= i {
          assert r[k] == t[k + 1];
        }
      }
      forall a, b | 0 <= a < b < |r| ensures r[a].pid != r[b].pid {
        var a' := if a < i then a else a + 1;
        var b' := if b < i then b else b + 1;
        assert r[a] == t[a'] && r[b] == t[b'];
      }
    }
  }

  /** With distinct pids, deleting the pid found at index `i` deletes index `i`. */
  lemma RemovedAt(t: seq<Job>, i: nat)
    requires DistinctPids(t) && i < |t|
    ensures Removed(t, t[i].pid) == t[..i] + t[i + 1..]
  {
    assert IndexOf(t, t[i].pid) == i;
  }

  /** Appending a pid that is not yet tracked keeps pids distinct. */
  lemma AppendedKeepsDistinct(t: seq<Job>, j: Job)
    requires DistinctPids(t) && !Tracks(t, j.pid)
    ensures DistinctPids(Appended(t, j))
  {
    if |t| < MaxJobs {
      var r := t + [j];
      forall a, b | 0 <= a < b < |r| ensures r[a].pid != r[b].pid {
        if b == |t| {
          assert r[a] == t[a];
        }
      }
    }
  }

  /**
   * The `[<count>] <pid>` notice names the job's pid: on the same table, two
   * jobs that get the same non-empty notice have the same pid.
   */
  lemma AddNoticeNamesPid(t: seq<Job>, j1: Job, j2: Job)
    requires AddNotice(t, j1) != "" && AddNotice(t, j1) == AddNotice(t, j2)
    ensures j1.pid == j2.pid
  {
    var p := "[" + Decimal(|t| + 1) + "] ";
    var x1 := Decimal(j1.pid) + "\n";
    var x2 := Decimal(j2.pid) + "\n";
    assert AddNotice(t, j1) == p + x1;
    assert AddNotice(t, j2) == p + x2;
    assert x1 == (p + x1)[|p|..];
    assert x2 == (p + x2)[|p|..];
    assert Decimal(j1.pid) == x1[..|x1| - 1];
    assert Decimal(j2.pid) == x2[..|x2| - 1];
    DecimalInjective(j1.pid, j2.pid);
  }

  /** A terminal report for a tracked background pid takes its job out of the registry. */
  lemma ReportEndsJob(t: seq<Job>, fg: int, r: Report)
    requires DistinctPids(t)
    requires r.pid != fg && Ends(r.status)
    ensures !Tracks(AfterReport(t, fg, r), r.pid)
  {
    RemovedForgetsPid(t, r.pid);
  }

  /**
   * Handling a report only ever deletes: every entry left was already in the
   * registry, and distinct pids stay distinct.
   */
  lemma AfterReportShrinks(t: seq<Job>, fg: int, r: Report)
    ensures multiset(AfterReport(t, fg, r)) <= multiset(t)
    ensures DistinctPids(t) ==> DistinctPids(AfterReport(t, fg, r))
  {
    RemovedMultiset(t, r.pid);
    if DistinctPids(t) {
      RemovedForgetsPid(t, r.pid);
    }
  }

  /** Draining a batch only deletes entries and keeps pids distinct. */
  lemma {:induction false} AfterReportsShrinks(t: seq<Job>, fg: int, rs: seq<Report>)
    ensures multiset(AfterReports(t, fg, rs)) <= multiset(t)
    ensures DistinctPids(t) ==> DistinctPids(AfterReports(t, fg, rs))
    decreases |rs|
  {
    if rs != [] {
      AfterReportShrinks(t, fg, rs[0]);
      AfterReportsShrinks(AfterReport(t, fg, rs[0]), fg, rs[1..]);
    }
  }

  /** Draining never brings a pid back: an untracked pid stays untracked. */
  lemma {:induction false} AfterReportsNeverAdds(t: seq<Job>, fg: int, rs: seq<Report>, pid: int)
    requires !Tracks(t, pid)
    ensures !Tracks(AfterReports(t, fg, rs), pid)
    decreases |rs|
  {
    if rs != [] {
      var t' := AfterReport(t, fg, rs[0]);
      AfterReportShrinks(t, fg, rs[0]);
      AfterReportsNeverAdds(t', fg, rs[1..], pid);
    }
  }

  /**
   * After a batch, every background pid that was reported exited or killed is
   * gone from the registry (pids being distinct).
   */
  lemma {:induction false} AfterReportsReapsAll(t: seq<Job>, fg: int, rs: seq<Report>, k: nat)
    requires DistinctPids(t)
    requires k < |rs| && rs[k].pid != fg && Ends(rs[k].status)
    ensures !Tracks(AfterReports(t, fg, rs), rs[k].pid)
    decreases |rs|
  {
    var t' := AfterReport(t, fg, rs[0]);
    AfterReportShrinks(t, fg, rs[0]);
    if k == 0 {
      ReportEndsJob(t, fg, rs[0]);
      AfterReportsNeverAdds(t', fg, rs[1..], rs[0].pid);
    } else {
      AfterReportsReapsAll(t', fg, rs[1..], k - 1);
    }
  }

  /** Reports about the foreground pid never touch the registry. */
  lemma {:induction false} ForegroundReportsIgnored(t: seq<Job>, fg: int, rs: seq<Report>)
    requires forall k :: 0 <= k < |rs| ==> rs[k].pid == fg
    ensures AfterReports(t, fg, rs) == t
    decreases |rs|
  {
    if rs != [] {
      ForegroundReportsIgnored(t, fg, rs[1..]);
    }
  }

  /** Line `i` of the listing starts with `[i+1]`: display indices run 1..n with no gap. */
  lemma ListingIndex(t: seq<Job>, i: nat)
    requires i < |t|
    ensures |Listing(t)| == |t|
    ensures Listing(t)[i][0] == '[' && Atoi(Listing(t)[i][1..]) == i + 1
  {
    var line := Listing(t)[i];
    assert line == JobLine(i + 1, t[i]);
    JobLineIndex(i + 1, t[i]);
  }

  /** A job line reads back as its index: `[`, the index, then `]`. */
  lemma JobLineIndex(index: nat, j: Job)
    ensures JobLine(index, j)[0] == '[' && Atoi(JobLine(index, j)[1..]) == index
  {
    var rest := "] " + StateLabel(j.state) + " " + j.command + " [" + Decimal(j.pid) + "]\n";
    assert JobLine(index, j) == "[" + (Decimal(index) + rest);
    assert JobLine(index, j)[1..] == Decimal(index) + rest;
    AtoiOfDecimal(index, rest);
  }

  /** The reaper announces exactly the jobs it takes out: one `Done` notice per entry removed. */
  lemma {:induction false} DoneNoticesCount(t: seq<Job>, fg: int, rs: seq<Report>)
    ensures |DoneNotices(t, fg, rs)| + |AfterReports(t, fg, rs)| == |t|
    decreases |rs|
  {
    if rs != [] {
      var t' := AfterReport(t, fg, rs[0]);
      DoneNoticesCount(t', fg, rs[1..]);
      RemovedShiftsLeft(t, rs[0].pid);
    }
  }

  /** The notice for a report names the job it ends, by its display index and command. */
  lemma ReportNoticeNames(t: seq<Job>, fg: int, r: Report)
    requires ReportNotice(t, fg, r).Some?
    ensures var i := IndexOf(t, r.pid);
      && 0 <= i < |t| && t[i].pid == r.pid
      && ReportNotice(t, fg, r).value == DoneNotice(i + 1, t[i].command)
      && |AfterReport(t, fg, r)| == |t| - 1
  {
  }

  lemma DrainingBegins(t: seq<Job>, fg: int, rs: seq<Report>)
    ensures Draining(t, fg, rs, 0, t, [])
  {
    assert rs[0..] == rs;
  }

  lemma DrainingStep(t: seq<Job>, fg: int, rs: seq<Report>, i: nat, cur: seq<Job>, notices: seq<string>)
    requires Draining(t, fg, rs, i, cur, notices) && i < |rs|
    ensures Draining(t, fg, rs, i + 1, AfterReport(cur, fg, rs[i]), notices + Listed(ReportNotice(cur, fg, rs[i])))
  {
    assert rs[i..][0] == rs[i] && rs[i..][1..] == rs[i + 1..];
  }

  lemma DrainingEnds(t: seq<Job>, fg: int, rs: seq<Report>, cur: seq<Job>, notices: seq<string>)
    requires Draining(t, fg, rs, |rs|, cur, notices)
    ensures cur == AfterReports(t, fg, rs) && notices == DoneNotices(t, fg, rs)
  {
    assert rs[|rs|..] == [];
  }

  /** The listing of one entry more ends with that entry's line. */
  lemma ListingSnoc(t: seq<Job>, i: nat)
    requires i < |t|
    ensures Listing(t[..i + 1]) == Listing(t[..i]) + [JobLine(i + 1, t[i])]
  {
    assert t[..i + 1][i] == t[i];
    assert forall k :: 0 <= k < i ==> t[..i + 1][k] == t[..i][k];
  }
}
