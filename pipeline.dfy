/**
 * How the shell reads one expanded input line: a prompt assignment, a trailing
 * `&`, the split into `|` stages and of each stage into words, which commands
 * the shell runs itself, how the stages are wired through pipes, and which text
 * the job table records for the line.
 */
module Pipeline {
  import opened Wrappers
  import opened CStrings

  /** Size of the shell's stage and argument arrays (`MAX_ARGS`). */
  const MaxArgs: nat := 64

  /** The delimiters of the two `strtok` passes. */
  const Bar: set<char> := {'|'}
  const Blank: set<char> := {' ', '\t', '\n'}

  // ---------------------------------------------------------------------------
  // Prompt assignment

  /** `strchr(s, c)` as an index: the first `c` in `s`, or -1. */
  function FirstIndex(s: string, c: char): (r: int)
    ensures -1 <= r < |s|
    ensures r >= 0 ==> s[r] == c && forall k :: 0 <= k < r ==> s[k] != c
    ensures r == -1 <==> c !in s
  {
    if s == [] then -1
    else if s[0] == c then 0
    else
      var r := FirstIndex(s[1..], c);
      assert forall k :: 1 <= k < |s| ==> s[k] == s[1..][k - 1];
      if r == -1 then -1 else r + 1
  }

  /**
   * A line that sets an environment variable instead of running anything: it
   * starts with `PS1`, holds an `=`, and the first `=` has no space on either
   * side (the end of the line counts as no space).
   */
  predicate IsAssignment(line: string) {
    var eq := FirstIndex(line, '=');
    && |line| >= 3 && line[..3] == "PS1" && eq >= 0
    && line[eq - 1] != ' ' && (eq + 1 == |line| || line[eq + 1] != ' ')
  }

  /** The name and the value `setenv` receives: the text before and after the first `=`. */
  function Assignment(line: string): (nv: (string, string))
    requires IsAssignment(line)
    ensures nv.0 + "=" + nv.1 == line
    ensures '=' !in nv.0 && |nv.0| >= 3 && nv.0[..3] == "PS1"
  {
    var eq := FirstIndex(line, '=');
    assert line == line[..eq] + "=" + line[eq + 1..];
    assert line[..eq][..3] == line[..3];
    (line[..eq], line[eq + 1..])
  }

  // ---------------------------------------------------------------------------
  // Background marker

  /**
   * The line without a trailing `&`, and whether there was one. Only the very
   * last character counts: `sleep 5 &` and `sleep 5&` run in the background,
   * `sleep 5 & ` does not.
   */
  function StripAmpersand(line: string): (r: (string, bool))
    requires line != []
    ensures r.0 + (if r.1 then "&" else "") == line
    ensures !r.1 ==> line[|line| - 1] != '&'
  {
    if line[|line| - 1] == '&' then (line[..|line| - 1], true) else (line, false)
  }

  // ---------------------------------------------------------------------------
  // Stages and words

  /** The stages of a line: its first `MaxArgs` runs of characters other than `|`. */
  function Segments(body: string): (segs: seq<string>)
    ensures |segs| <= MaxArgs
  {
    var f := Fields(body, Bar);
    if |f| <= MaxArgs then f else f[..MaxArgs]
  }

  /** The words of every stage. */
  function StageWords(body: string): (stages: seq<seq<string>>)
    ensures |stages| == |Segments(body)|
  {
    var segs := Segments(body);
    seq(|segs|, i requires 0 <= i < |segs| => Fields(segs[i], Blank))
  }

  /**
   * The lines the shell handles without undefined behaviour: at least one
   * stage, and every stage has at least one word and fewer than `MaxArgs`
   * (the argument array keeps a slot for its terminating null pointer).
   */
  predicate WellFormed(body: string) {
    var stages := StageWords(body);
    && |stages| >= 1
    && forall i :: 0 <= i < |stages| ==> 0 < |stages[i]| < MaxArgs
  }

  // ---------------------------------------------------------------------------
  // The text the job table records

  /**
   * The job table records the C string `line` after tokenising, and `strtok`
   * has written a NUL at the end of the first word of the first stage; so the
   * text reaches from the start of the line through that word: past leading
   * `|`, past leading blanks, up to the next blank, `|` or end of line.
   */
  function JobTextEnd(body: string): (e: nat)
    requires NUL !in body
    ensures JobTextStart(body) <= e <= |body|
  {
    var b := body + [NUL];
    WordEnd(b, JobTextStart(body), Blank + Bar)
  }

  /** Where the first word of the first stage starts: past leading `|`s, then past leading blanks. */
  function JobTextStart(body: string): (s: nat)
    requires NUL !in body
    ensures s <= |body|
  {
    var b := body + [NUL];
    SkipDelims(b, SkipDelims(b, 0, Bar), Blank)
  }

  function JobText(body: string): (t: string)
    requires NUL !in body
    ensures |t| <= |body|
  {
    body[..JobTextEnd(body)]
  }

  /** The first position from `p` outside `D` is `q`. */
  lemma SkipDelimsIs(b: seq<char>, p: nat, D: set<char>, q: nat)
    requires Terminated(b) && p <= q < |b| && NUL !in D
    requires b[q] !in D && forall k :: p <= k < q ==> b[k] in D
    ensures SkipDelims(b, p, D) == q
  {
  }

  /** The first position from `p` holding NUL or a member of `D` is `q`. */
  lemma WordEndIs(b: seq<char>, p: nat, D: set<char>, q: nat)
    requires Terminated(b) && p <= q < |b|
    requires b[q] == NUL || b[q] in D
    requires forall k :: p <= k < q ==> b[k] != NUL && b[k] !in D
    ensures WordEnd(b, p, D) == q
  {
  }

  /** The buffer the shell tokenises: the line and its terminator. */
  lemma WholeLine(body: string)
    requires NUL !in body
    ensures Terminated(body + [NUL]) && NulIndex(body + [NUL], 0) == |body|
    ensures CStr(body + [NUL], 0) == body
  {
    var b := body + [NUL];
    assert forall k :: 0 <= k < |body| ==> b[k] == body[k];
    NulIndexAt(b, 0, |body|);
    assert b[..|body|] == body;
  }

  /** A C string depends only on the buffer from its start on. */
  lemma CStrSuffix(b: seq<char>, c: seq<char>, q: nat, p: nat)
    requires Terminated(b) && Terminated(c) && |c| == |b| && q <= p < |b|
    requires c[q..] == b[q..]
    ensures NulIndex(c, p) == NulIndex(b, p) && CStr(c, p) == CStr(b, p)
  {
    forall k | p <= k <= NulIndex(b, p)
      ensures c[k] == b[k]
    {
      assert c[k] == c[q..][k - q] && b[k] == b[q..][k - q];
    }
    CStrFrame(b, c, p);
  }

  /**
   * The first stage is split on blanks inside the buffer `b1` in which the
   * split on `|` ended it with a NUL at `e0`. The NUL written after its first
   * word, at `e1`, is then the first NUL of the buffer, and `e1` is where
   * `JobTextEnd` says the recorded text ends.
   */
  lemma FirstStageText(body: string, b1: seq<char>, s0: nat, e0: nat, c: seq<char>, s1: nat, e1: nat)
    requires NUL !in body
    requires var b := body + [NUL];
      && s0 == SkipDelims(b, 0, Bar) && e0 == WordEnd(b, s0, Bar)
      && Terminated(b1) && |b1| == |b| && b1[..e0] == b[..e0] && b1[e0] == NUL
    requires s1 == SkipDelims(b1, s0, Blank) && e1 == WordEnd(b1, s1, Blank) && s1 < e1
    requires Terminated(c) && |c| == |b1| && NulIndex(c, s1) == e1 && c[..e1] == b1[..e1]
    ensures e1 == JobTextEnd(body) && e1 <= e0
    ensures NulIndex(c, 0) == e1 && c[..e1] == (body + [NUL])[..e1]
  {
    var b := body + [NUL];
    assert forall k :: 0 <= k < |body| ==> b[k] == body[k] && b[k] != NUL;
    assert s1 < e0 && e1 <= e0;
    forall k | s0 <= k <= s1
      ensures b[k] == b1[k]
    {
      assert b[k] == b[..e0][k] && b1[k] == b1[..e0][k];
    }
    SkipDelimsIs(b, s0, Blank, s1);
    forall k | s1 <= k < e1
      ensures b[k] == b1[k]
    {
      assert b[k] == b[..e0][k] && b1[k] == b1[..e0][k];
    }
    if e1 < e0 {
      assert b[e1] == b[..e0][e1] && b1[e1] == b1[..e0][e1];
    }
    WordEndIs(b, s1, Blank + Bar, e1);
    forall k | 0 <= k < e1
      ensures c[k] == b[k] && c[k] != NUL
    {
      assert c[k] == c[..e1][k] && b1[k] == b1[..e1][k] && b[k] == b[..e0][k] && b1[k] == b1[..e0][k];
    }
    NulIndexAt(c, 0, e1);
    assert c[..e1] == b[..e1];
  }

  /** Buffers that agree from `a` on agree from any later `c` on. */
  lemma SuffixAgree(x: seq<char>, y: seq<char>, a: nat, c: nat)
    requires |x| == |y| && a <= c <= |x| && x[a..] == y[a..]
    ensures x[c..] == y[c..]
  {
    assert x[c..] == x[a..][c - a..] && y[c..] == y[a..][c - a..];
  }

  /** A NUL at `e` stays the first of the buffer when only cells from `m > e` on change. */
  lemma StillFirstNul(cur: seq<char>, next: seq<char>, e: nat, m: nat)
    requires Terminated(cur) && Terminated(next) && |next| == |cur| && e < m <= |cur|
    requires next[..m] == cur[..m] && NulIndex(cur, 0) == e
    ensures NulIndex(next, 0) == e && next[..e] == cur[..e]
  {
    forall k | 0 <= k <= e
      ensures next[k] == cur[k]
    {
      assert next[k] == next[..m][k] && cur[k] == cur[..m][k];
    }
    NulIndexAt(next, 0, e);
    assert next[..e] == cur[..e];
  }

  /**
   * The inner `strtok` loop: split the stage that starts at `p` on blanks. The
   * buffer changes only inside that stage, and when it has a word, the NUL
   * after the first word ends the first C string there.
   */
  method SplitWords(buf: seq<char>, p: nat) returns (next: seq<char>, words: seq<string>)
    requires Terminated(buf) && p < |buf|
    ensures Terminated(next) && |next| == |buf|
    ensures words == Fields(CStr(buf, p), Blank)
    ensures next[..p] == buf[..p] && next[NulIndex(buf, p)..] == buf[NulIndex(buf, p)..]
    ensures words != [] ==>
      var s1 := SkipDelims(buf, p, Blank);
      var e1 := WordEnd(buf, s1, Blank);
      s1 < e1 && NulIndex(next, s1) == e1 && next[..e1] == buf[..e1]
  {
    var starts;
    next, starts := CollectTokens(buf, p, Blank, |buf|);
    FieldsCount(CStr(buf, p), Blank);
    words := StringsAt(next, starts);
    FieldsAreWords(CStr(buf, p), Blank);
    if words != [] {
      assert CStr(next, starts[0]) == words[0] != [];
    }
  }

  /** What the split on `|` leaves behind, for a line and its terminator in `b`. */
  ghost predicate BarSplit(body: string, b1: seq<char>, segs: seq<nat>)
    requires NUL !in body
  {
    var b := body + [NUL];
    && Terminated(b) && Terminated(b1) && |b1| == |b| && |segs| == |Segments(body)|
    && (forall k :: 0 <= k < |segs| ==> segs[k] < |b|)
    && StringsAt(b1, segs) == Segments(body)
    && (forall i, j :: 0 <= i < j < |segs| ==> NulIndex(b1, segs[i]) < segs[j])
    && (|segs| > 0 ==>
          var e0 := WordEnd(b, segs[0], Bar);
          && segs[0] == SkipDelims(b, 0, Bar)
          && NulIndex(b1, segs[0]) == e0 && b1[..e0] == b[..e0])
  }

  /** The state of the stage loop after `i` stages have been split on blanks. */
  ghost predicate StagesSplit(body: string, b1: seq<char>, segs: seq<nat>, i: nat, cur: seq<char>, stages: seq<seq<string>>)
  {
    && NUL !in body && WellFormed(body) && BarSplit(body, b1, segs)
    && i <= |segs| && Terminated(cur) && |cur| == |b1|
    && stages == StageWords(body)[..i]
    && (i == 0 ==> cur == b1)
    && (i < |segs| ==> cur[segs[i]..] == b1[segs[i]..])
    && (i >= 1 ==> NulIndex(cur, 0) == JobTextEnd(body) && cur[..JobTextEnd(body)] == (body + [NUL])[..JobTextEnd(body)])
    && (i >= 1 && |segs| > 1 ==> JobTextEnd(body) < segs[1])
  }

  lemma StagesBegin(body: string, b1: seq<char>, segs: seq<nat>)
    requires NUL !in body && WellFormed(body) && BarSplit(body, b1, segs)
    ensures StagesSplit(body, b1, segs, 0, b1, [])
  {
    assert StageWords(body)[..0] == [];
  }

  lemma StagesEnd(body: string, b1: seq<char>, segs: seq<nat>, cur: seq<char>, stages: seq<seq<string>>)
    requires StagesSplit(body, b1, segs, |segs|, cur, stages)
    ensures stages == StageWords(body) && CStr(cur, 0) == JobText(body)
  {
    assert StageWords(body)[..|segs|] == StageWords(body);
    assert (body + [NUL])[..JobTextEnd(body)] == body[..JobTextEnd(body)];
  }

  /** One turn of the stage loop, for the words: stage `i` gets the words of the `i`-th `|`-field. */
  lemma StageWordsStep(body: string, b1: seq<char>, segs: seq<nat>, i: nat, cur: seq<char>, stages: seq<seq<string>>,
                       words: seq<string>)
    requires Terminated(b1) && Terminated(cur) && |cur| == |b1| && i < |segs| == |Segments(body)|
    requires (forall k :: 0 <= k < |segs| ==> segs[k] < |b1|) && StringsAt(b1, segs) == Segments(body)
    requires stages == StageWords(body)[..i] && cur[segs[i]..] == b1[segs[i]..]
    requires words == Fields(CStr(cur, segs[i]), Blank)
    ensures stages + [words] == StageWords(body)[..i + 1]
    ensures NulIndex(cur, segs[i]) == NulIndex(b1, segs[i])
  {
    var p := segs[i];
    CStrSuffix(b1, cur, p, p);
    StringAt(b1, segs, i);
    StageWordsAt(body, i);
    PrefixSnoc(StageWords(body), i);
  }

  lemma StringAt(b: seq<char>, starts: seq<nat>, i: nat)
    requires Terminated(b) && i < |starts| && forall k :: 0 <= k < |starts| ==> starts[k] < |b|
    ensures StringsAt(b, starts)[i] == CStr(b, starts[i])
  {
  }

  lemma StageWordsAt(body: string, i: nat)
    requires i < |Segments(body)|
    ensures StageWords(body)[i] == Fields(Segments(body)[i], Blank)
  {
  }

  lemma PrefixSnoc<T>(s: seq<T>, i: nat)
    requires i < |s|
    ensures s[..i + 1] == s[..i] + [s[i]]
  {
  }

  /** One turn of the stage loop, for the recorded text: the NUL after the first word stays the first. */
  lemma JobTextStep(body: string, b1: seq<char>, segs: seq<nat>, i: nat, cur: seq<char>, stages: seq<seq<string>>,
                    next: seq<char>, words: seq<string>)
    requires StagesSplit(body, b1, segs, i, cur, stages) && i < |segs|
    requires Terminated(next) && |next| == |cur|
    requires words == StageWords(body)[i]
    requires next[..segs[i]] == cur[..segs[i]]
    requires words != [] ==>
      var s1 := SkipDelims(cur, segs[i], Blank);
      var e1 := WordEnd(cur, s1, Blank);
      s1 < e1 && NulIndex(next, s1) == e1 && next[..e1] == cur[..e1]
    ensures NulIndex(next, 0) == JobTextEnd(body) && next[..JobTextEnd(body)] == (body + [NUL])[..JobTextEnd(body)]
    ensures |segs| > 1 ==> JobTextEnd(body) < segs[1]
  {
    var p := segs[i];
    var b := body + [NUL];
    if i == 0 {
      var s1 := SkipDelims(b1, p, Blank);
      FirstStageText(body, b1, p, WordEnd(b, p, Bar), next, s1, WordEnd(b1, s1, Blank));
    } else {
      if i > 1 {
        assert NulIndex(b1, segs[1]) < segs[i];
      }
      StillFirstNul(cur, next, JobTextEnd(body), p);
    }
  }

  /** One turn of the stage loop: stage `i` split on blanks. */
  lemma StageStep(body: string, b1: seq<char>, segs: seq<nat>, i: nat, cur: seq<char>, stages: seq<seq<string>>,
                  next: seq<char>, words: seq<string>)
    requires StagesSplit(body, b1, segs, i, cur, stages) && i < |segs|
    requires Terminated(next) && |next| == |cur|
    requires words == Fields(CStr(cur, segs[i]), Blank)
    requires next[..segs[i]] == cur[..segs[i]] && next[NulIndex(cur, segs[i])..] == cur[NulIndex(cur, segs[i])..]
    requires words != [] ==>
      var s1 := SkipDelims(cur, segs[i], Blank);
      var e1 := WordEnd(cur, s1, Blank);
      s1 < e1 && NulIndex(next, s1) == e1 && next[..e1] == cur[..e1]
    ensures StagesSplit(body, b1, segs, i + 1, next, stages + [words])
  {
    var p := segs[i];
    StageWordsStep(body, b1, segs, i, cur, stages, words);
    assert words == StageWords(body)[..i + 1][i];
    JobTextStep(body, b1, segs, i, cur, stages, next, words);
    if i + 1 < |segs| {
      assert NulIndex(b1, p) < segs[i + 1];
      SuffixAgree(next, cur, NulIndex(cur, p), segs[i + 1]);
      SuffixAgree(cur, b1, p, segs[i + 1]);
    }
  }

  /** The outer `strtok` loop: the line and its terminator, split on `|` into at most `MaxArgs` stages. */
  method SplitStages(body: string) returns (b1: seq<char>, segs: seq<nat>)
    requires NUL !in body
    ensures BarSplit(body, b1, segs)
  {
    var b := body + [NUL];
    WholeLine(body);
    b1, segs := CollectTokens(b, 0, Bar, MaxArgs);
  }

  /**
   * The shell's two `strtok` passes over a line whose trailing `&` is already
   * gone: split on `|` into at most `MaxArgs` stages, then split each stage on
   * blanks. The result is the words of every stage and the C string `line`
   * that the job table records afterwards. (The shell splits stage `i` just
   * before it forks stage `i`; no fork and no built-in reads the buffer, so
   * splitting them all first changes nothing observable.)
   */
  method SplitLine(body: string) returns (stages: seq<seq<string>>, jobText: string)
    requires NUL !in body && WellFormed(body)
    ensures stages == StageWords(body)
    ensures jobText == JobText(body)
  {
    var b1, segs := SplitStages(body);
    var cur := b1;
    stages := [];
    var i := 0;
    StagesBegin(body, b1, segs);
    while i < |segs|
      invariant StagesSplit(body, b1, segs, i, cur, stages)
    {
      var next, words := SplitWords(cur, segs[i]);
      StageStep(body, b1, segs, i, cur, stages, next, words);
      stages := stages + [words];
      cur := next;
      i := i + 1;
    }
    StagesEnd(body, b1, segs, cur, stages);
    jobText := CStr(cur, 0);
  }

  // ---------------------------------------------------------------------------
  // What the recorded text is

  /** The first stage of a well-formed line lies between the leading `|`s and the next `|`. */
  lemma FirstSegment(body: string)
    requires NUL !in body && WellFormed(body)
    ensures var b := body + [NUL];
      var s0 := SkipDelims(b, 0, Bar);
      var e0 := WordEnd(b, s0, Bar);
      s0 < e0 <= |body| && Segments(body)[0] == body[s0..e0]
  {
    var b := body + [NUL];
    WholeLine(body);
    var s0 := SkipDelims(b, 0, Bar);
    SkipStep(b, 0, Bar);
    assert |Fields(CStr(b, s0), Bar)| >= 1;
    var e0 := WordEnd(b, s0, Bar);
    WordStep(b, s0, Bar, e0);
    assert Segments(body)[0] == Fields(body, Bar)[0] == b[s0..e0];
    assert b[s0..e0] == body[s0..e0];
  }

  /** Where the first word of the stage `b[s0..e0]` lies, given where blanks and non-blanks are. */
  lemma FirstWordAt(b: seq<char>, s0: nat, e0: nat, s1: nat, e: nat)
    requires s0 <= s1 <= e <= e0 <= |b|
    requires forall i :: s0 <= i < s1 ==> b[i] in Blank
    requires s1 == e0 || b[s1] !in Blank
    requires forall i :: s1 <= i < e ==> b[i] !in Blank
    requires e == e0 || b[e] in Blank
    ensures Fields(b[s0..e0], Blank) != [] ==> s1 < e && Fields(b[s0..e0], Blank)[0] == b[s1..e]
  {
    BlankRun(b, s0, e0, s1);
    if s1 < e {
      WordRun(b, s1, e, e0);
    } else {
      assert s1 == e0;
      assert b[s1..e0] == [];
    }
  }

  /** Blanks in front of a stretch do not change its words. */
  lemma BlankRun(b: seq<char>, s0: nat, e0: nat, s1: nat)
    requires s0 <= s1 <= e0 <= |b|
    requires forall i :: s0 <= i < s1 ==> b[i] in Blank
    ensures Fields(b[s0..e0], Blank) == Fields(b[s1..e0], Blank)
  {
    var seg := b[s0..e0];
    forall i | 0 <= i < s1 - s0
      ensures seg[i] in Blank
    {
      assert seg[i] == b[s0 + i];
    }
    FieldsSkip(seg, Blank, s1 - s0);
    assert seg[s1 - s0..] == b[s1..e0];
  }

  /** A stretch that starts with a run of non-blanks has that run as its first word. */
  lemma WordRun(b: seq<char>, s1: nat, e: nat, e0: nat)
    requires s1 < e <= e0 <= |b|
    requires forall i :: s1 <= i < e ==> b[i] !in Blank
    requires e == e0 || b[e] in Blank
    ensures Fields(b[s1..e0], Blank) != [] && Fields(b[s1..e0], Blank)[0] == b[s1..e]
  {
    var rest := b[s1..e0];
    var w := e - s1;
    forall i | 0 <= i < w
      ensures rest[i] !in Blank
    {
      assert rest[i] == b[s1 + i];
    }
    if w < |rest| {
      assert rest[w] == b[e];
    }
    FieldsWord(rest, Blank, w);
    assert rest[..w] == b[s1..e];
  }


  /** Only `|`s and blanks come before the first word. */
  lemma JobTextLead(body: string)
    requires NUL !in body
    ensures forall i :: 0 <= i < JobTextStart(body) ==> body[i] in Bar + Blank
  {
    var b := body + [NUL];
    forall i | 0 <= i < JobTextStart(body)
      ensures body[i] in Bar + Blank
    {
      assert body[i] == b[i];
    }
  }

  /** In a well-formed line, the first word of the first stage lies between `JobTextStart` and `JobTextEnd`. */
  lemma JobTextWord(body: string)
    requires NUL !in body && WellFormed(body)
    ensures StageWords(body)[0][0] == body[JobTextStart(body)..JobTextEnd(body)]
  {
    var b := body + [NUL];
    var s0 := SkipDelims(b, 0, Bar);
    var e0 := WordEnd(b, s0, Bar);
    FirstSegment(body);
    var s1 := JobTextStart(body);
    var e := JobTextEnd(body);
    assert e <= e0;
    FirstWordAt(b, s0, e0, s1, e);
    assert b[s0..e0] == body[s0..e0] && b[s1..e] == body[s1..e];
    assert StageWords(body)[0] == Fields(body[s0..e0], Blank);
  }

  /**
   * The text the job table records is the first word of the first stage,
   * preceded only by `|`s and blanks: for `sleep 5 &` it is `sleep`.
   */
  lemma JobTextIsFirstWord(body: string)
    requires NUL !in body && WellFormed(body)
    ensures var t := JobText(body);
      var w := StageWords(body)[0][0];
      && |w| <= |t| && t[|t| - |w|..] == w
      && forall i :: 0 <= i < |t| - |w| ==> t[i] in Bar + Blank
  {
    JobTextLead(body);
    JobTextWord(body);
    var t := JobText(body);
    var s1 := JobTextStart(body);
    assert t[s1..] == body[s1..JobTextEnd(body)];
  }

  /** The job started by `sleep 5 &` is recorded as `sleep`. */
  lemma JobTextOfSleep()
    ensures JobText("sleep 5 ") == "sleep"
  {
    var b := "sleep 5 " + [NUL];
    SkipDelimsIs(b, 0, Bar, 0);
    SkipDelimsIs(b, 0, Blank, 0);
    WordEndIs(b, 0, Blank + Bar, 5);
  }

  // ---------------------------------------------------------------------------
  // Who runs a stage

  /** The built-ins the shell runs itself, only for a line of exactly one stage. */
  datatype ParentBuiltin = ExitShell | ChangeDir | Foreground | Background

  /** What a forked child runs. */
  datatype ChildProgram = PrintDir | ListJobs | External(argv: seq<string>)

  function ParentBuiltinOf(words: seq<string>, stageCount: nat): (r: Option<ParentBuiltin>)
    requires words != []
    ensures r.Some? <==> stageCount == 1 && words[0] in {"exit", "cd", "fg", "bg"}
    ensures r == Some(ExitShell) <==> stageCount == 1 && words[0] == "exit"
    ensures r == Some(ChangeDir) <==> stageCount == 1 && words[0] == "cd"
    ensures r == Some(Foreground) <==> stageCount == 1 && words[0] == "fg"
    ensures r == Some(Background) <==> stageCount == 1 && words[0] == "bg"
  {
    if stageCount != 1 then None
    else if words[0] == "exit" then Some(ExitShell)
    else if words[0] == "cd" then Some(ChangeDir)
    else if words[0] == "fg" then Some(Foreground)
    else if words[0] == "bg" then Some(Background)
    else None
  }

  function ChildProgramOf(words: seq<string>): (p: ChildProgram)
    requires words != []
    ensures p == PrintDir <==> words[0] == "pwd"
    ensures p == ListJobs <==> words[0] == "jobs"
    ensures p.External? ==> p.argv == words
  {
    if words[0] == "pwd" then PrintDir
    else if words[0] == "jobs" then ListJobs
    else External(words)
  }

  // ---------------------------------------------------------------------------
  // Pipe wiring: `pipe(pipefd + 2k)` puts pipe k's read end in slot 2k and its write end in slot 2k + 1

  /** The slot stage `i` takes its standard input from, if any. */
  function InputSlot(i: nat): (r: Option<nat>)
    ensures r.Some? <==> i > 0
  {
    if i > 0 then Some(2 * (i - 1)) else None
  }

  /** The slot stage `i` of `n` sends its standard output to, if any. */
  function OutputSlot(i: nat, n: nat): (r: Option<nat>)
    ensures r.Some? <==> i + 1 < n
  {
    if i + 1 < n then Some(2 * i + 1) else None
  }

  /** Pipe `k` connects stage `k`, which writes into it, to stage `k + 1`, which reads from it. */
  lemma PipeConnects(k: nat, n: nat)
    requires k + 1 < n
    ensures OutputSlot(k, n) == Some(2 * k + 1) && InputSlot(k + 1) == Some(2 * k)
  {
  }

  /**
   * Every slot the shell opens is used by exactly one stage, once: slot `j` is
   * the input of stage `j / 2 + 1` when `j` is even, the output of stage `j / 2`
   * when it is odd, and of no other stage; no stage uses a slot outside the
   * `2 (n - 1)` the shell opened.
   */
  lemma SlotOwner(j: nat, n: nat)
    requires j < 2 * (n - 1)
    ensures j % 2 == 0 ==> InputSlot(j / 2 + 1) == Some(j) && j / 2 + 1 < n
    ensures j % 2 == 1 ==> OutputSlot(j / 2, n) == Some(j)
    ensures forall i :: 0 <= i < n && InputSlot(i) == Some(j) ==> j % 2 == 0 && i == j / 2 + 1
    ensures forall i :: 0 <= i < n && OutputSlot(i, n) == Some(j) ==> j % 2 == 1 && i == j / 2
  {
  }

  lemma SlotsInRange(i: nat, n: nat)
    requires i < n
    ensures InputSlot(i).Some? ==> InputSlot(i).value < 2 * (n - 1)
    ensures OutputSlot(i, n).Some? ==> OutputSlot(i, n).value < 2 * (n - 1)
  {
  }
}
