/**
 * The status word `waitpid` stores, read with the C library's macros in the
 * layout Linux and glibc use. The shell takes decisions on the raw word:
 * `WIFEXITED || WIFSIGNALED` ends a background job, `WIFSTOPPED` makes a job
 * Stopped, and `WEXITSTATUS` becomes `$?`.
 */
module WaitStatus {

  /** The low 16 bits of the word: all that the macros look at. */
  type StatusWord = w: int | 0 <= w < 0x1_0000

  /** `WTERMSIG(w)`, i.e. `w & 0x7f`. */
  function TermSig(w: StatusWord): int {
    w % 0x80
  }

  /** `WEXITSTATUS(w)`, i.e. `(w & 0xff00) >> 8`. */
  function ExitStatus(w: StatusWord): (code: int)
    ensures 0 <= code < 0x100
  {
    w / 0x100
  }

  /** `WIFEXITED(w)`: no terminating signal. */
  predicate IfExited(w: StatusWord) {
    TermSig(w) == 0
  }

  /** `WIFSIGNALED(w)`: `((signed char) ((w & 0x7f) + 1) >> 1) > 0`, i.e. a signal number other than 0 and 0x7f. */
  predicate IfSignaled(w: StatusWord) {
    TermSig(w) != 0 && TermSig(w) != 0x7f
  }

  /** `WIFSTOPPED(w)`: the low byte is 0x7f. */
  predicate IfStopped(w: StatusWord) {
    w % 0x100 == 0x7f
  }

  /** What can happen to a child, as a value. */
  datatype Change =
    | Exited(code: int)
    | Killed(signal: int)
    | Suspended(signal: int)

  predicate Reportable(c: Change) {
    match c
    case Exited(code) => 0 <= code < 0x100
    case Killed(sig) => 1 <= sig < 0x7f
    case Suspended(sig) => 1 <= sig < 0x100
  }

  /** The word the kernel reports for each kind of change. */
  function Encode(c: Change): StatusWord
    requires Reportable(c)
  {
    match c
    case Exited(code) => code * 0x100
    case Killed(sig) => sig
    case Suspended(sig) => sig * 0x100 + 0x7f
  }

  /** The three tests never hold together: a word is at most one of exited, signaled, stopped. */
  lemma AtMostOneOutcome(w: StatusWord)
    ensures !(IfExited(w) && IfSignaled(w))
    ensures !(IfExited(w) && IfStopped(w))
    ensures !(IfSignaled(w) && IfStopped(w))
  {
    var lo := w % 0x100;
    assert TermSig(w) == lo % 0x80;
  }

  /** Decoding an encoded change finds exactly that change again. */
  lemma DecodeEncode(c: Change)
    requires Reportable(c)
    ensures IfExited(Encode(c)) <==> c.Exited?
    ensures IfSignaled(Encode(c)) <==> c.Killed?
    ensures IfStopped(Encode(c)) <==> c.Suspended?
    ensures c.Exited? ==> ExitStatus(Encode(c)) == c.code
    ensures c.Killed? ==> TermSig(Encode(c)) == c.signal && ExitStatus(Encode(c)) == 0
  {
    match c
    case Exited(code) =>
      assert Encode(c) % 0x100 == 0;
    case Killed(sig) =>
    case Suspended(sig) =>
      assert Encode(c) % 0x100 == 0x7f;
  }
}
