/**
 * Variable expansion as the shell applies it to every input line before it
 * parses it: `$?` becomes the last exit status, `$$` the shell's pid and
 * `$SHELL` the path of the shell's executable; any other `$` stays, and every
 * other character is copied.
 */
module Expansion {
  import opened Numerals

  /** Size of the shell's line buffers (`MAX_CMD_LEN`), terminator included. */
  const MaxCmdLen: nat := 1024

  /** The expansion of `s`, read from the left, one variable reference at a time. */
  function Expand(s: string, status: int, pid: int, path: string): string
    decreases |s|
  {
    if s == [] then []
    else if s[0] != '$' then [s[0]] + Expand(s[1..], status, pid, path)
    else if |s| >= 2 && s[1] == '?' then Decimal(status) + Expand(s[2..], status, pid, path)
    else if |s| >= 2 && s[1] == '$' then Decimal(pid) + Expand(s[2..], status, pid, path)
    else if |s| >= 6 && s[1..6] == "SHELL" then path + Expand(s[6..], status, pid, path)
    else "$" + Expand(s[1..], status, pid, path)
  }

  // ---------------------------------------------------------------------------
  // A second reading: the line as a sequence of pieces

  /** What the expansion sees at one point of the line. */
  datatype Piece =
    | Plain(c: char)  // any character but `$`, copied
    | ExitCode        // `$?`
    | ShellPid        // `$$`
    | ShellPath       // `$SHELL`
    | Dollar          // a `$` that starts none of the above, kept

  /** The text of the line that a piece stands for. */
  function Source(p: Piece): string {
    match p
    case Plain(c) => [c]
    case ExitCode => "$?"
    case ShellPid => "$$"
    case ShellPath => "$SHELL"
    case Dollar => "$"
  }

  /** The text a piece is replaced by. */
  function Value(p: Piece, status: int, pid: int, path: string): string {
    match p
    case Plain(c) => [c]
    case ExitCode => Decimal(status)
    case ShellPid => Decimal(pid)
    case ShellPath => path
    case Dollar => "$"
  }

  function Sources(ps: seq<Piece>): string {
    if ps == [] then [] else Source(ps[0]) + Sources(ps[1..])
  }

  function Values(ps: seq<Piece>, status: int, pid: int, path: string): string {
    if ps == [] then [] else Value(ps[0], status, pid, path) + Values(ps[1..], status, pid, path)
  }

  /** The piece at the start of a non-empty line. */
  function FirstPiece(s: string): (p: Piece)
    requires s != []
    ensures 0 < |Source(p)| <= |s| && s[..|Source(p)|] == Source(p)
  {
    if s[0] != '$' then Plain(s[0])
    else if |s| >= 2 && s[1] == '?' then ExitCode
    else if |s| >= 2 && s[1] == '$' then ShellPid
    else if |s| >= 6 && s[1..6] == "SHELL" then ShellPath
    else Dollar
  }

  /** The line cut into pieces from the left. */
  function Pieces(s: string): seq<Piece>
    decreases |s|
  {
    if s == [] then [] else var p := FirstPiece(s); [p] + Pieces(s[|Source(p)|..])
  }

  // ---------------------------------------------------------------------------
  // Properties

  /** Cutting a line into pieces loses and adds nothing: the pieces spell the line. */
  lemma {:induction false} SourcesOfPieces(s: string)
    ensures Sources(Pieces(s)) == s
    decreases |s|
  {
    if s != [] {
      var p := FirstPiece(s);
      var rest := s[|Source(p)|..];
      SourcesOfPieces(rest);
      assert Pieces(s) == [p] + Pieces(rest);
      SourcesCons(p, Pieces(rest));
      assert s == Source(p) + rest;
    }
  }

  lemma SourcesCons(p: Piece, ps: seq<Piece>)
    ensures Sources([p] + ps) == Source(p) + Sources(ps)
  {
    assert ([p] + ps)[1..] == ps;
  }

  /** The expansion replaces each piece by its value, in order. */
  lemma {:induction false} ExpandByPieces(s: string, status: int, pid: int, path: string)
    ensures Expand(s, status, pid, path) == Values(Pieces(s), status, pid, path)
    decreases |s|
  {
    if s != [] {
      var p := FirstPiece(s);
      ExpandByPieces(s[|Source(p)|..], status, pid, path);
      var ps := Pieces(s);
      assert ps[0] == p && ps[1..] == Pieces(s[|Source(p)|..]);
    }
  }

  /** A stretch without `$` is copied as it is, whatever follows it. */
  lemma {:induction false} ExpandPlainPrefix(a: string, b: string, status: int, pid: int, path: string)
    requires '$' !in a
    ensures Expand(a + b, status, pid, path) == a + Expand(b, status, pid, path)
    decreases |a|
  {
    if a == [] {
      assert a + b == b;
    } else {
      assert (a + b)[0] == a[0] && (a + b)[1..] == a[1..] + b;
      ExpandPlainPrefix(a[1..], b, status, pid, path);
      assert a == [a[0]] + a[1..];
    }
  }

  /** A line without `$` comes out unchanged. */
  lemma ExpandPlain(s: string, status: int, pid: int, path: string)
    requires '$' !in s
    ensures Expand(s, status, pid, path) == s
  {
    ExpandPlainPrefix(s, [], status, pid, path);
    assert s + [] == s;
  }

  /** `$?` after a stretch without `$` becomes the exit status in decimal. */
  lemma ExpandExitCode(a: string, b: string, status: int, pid: int, path: string)
    requires '$' !in a
    ensures Expand(a + "$?" + b, status, pid, path) == a + Decimal(status) + Expand(b, status, pid, path)
  {
    ExpandPlainPrefix(a, "$?" + b, status, pid, path);
    Associate(a, "$?", b);
    Associate(a, Decimal(status), Expand(b, status, pid, path));
    ExpandExitCodeHead(b, status, pid, path);
  }

  lemma ExpandExitCodeHead(b: string, status: int, pid: int, path: string)
    ensures Expand("$?" + b, status, pid, path) == Decimal(status) + Expand(b, status, pid, path)
  {
    var t := "$?" + b;
    assert t[0] == '$' && t[1] == '?' && t[2..] == b;
  }

  /** `$$` after a stretch without `$` becomes the shell's pid in decimal. */
  lemma ExpandShellPid(a: string, b: string, status: int, pid: int, path: string)
    requires '$' !in a
    ensures Expand(a + "$$" + b, status, pid, path) == a + Decimal(pid) + Expand(b, status, pid, path)
  {
    ExpandPlainPrefix(a, "$$" + b, status, pid, path);
    Associate(a, "$$", b);
    Associate(a, Decimal(pid), Expand(b, status, pid, path));
    ExpandShellPidHead(b, status, pid, path);
  }

  lemma ExpandShellPidHead(b: string, status: int, pid: int, path: string)
    ensures Expand("$$" + b, status, pid, path) == Decimal(pid) + Expand(b, status, pid, path)
  {
    var t := "$$" + b;
    assert t[0] == '$' && t[1] == '$' && t[2..] == b;
  }

  /** `$SHELL` after a stretch without `$` becomes the shell's path. */
  lemma ExpandShellPath(a: string, b: string, status: int, pid: int, path: string)
    requires '$' !in a
    ensures Expand(a + "$SHELL" + b, status, pid, path) == a + path + Expand(b, status, pid, path)
  {
    ExpandPlainPrefix(a, "$SHELL" + b, status, pid, path);
    Associate(a, "$SHELL", b);
    Associate(a, path, Expand(b, status, pid, path));
    ExpandShellPathHead(b, status, pid, path);
  }

  lemma ExpandShellPathHead(b: string, status: int, pid: int, path: string)
    ensures Expand("$SHELL" + b, status, pid, path) == path + Expand(b, status, pid, path)
  {
    var t := "$SHELL" + b;
    assert t[0] == '$' && t[1] == 'S' && t[1..6] == "SHELL" && t[6..] == b;
  }

  /** A `$` at the end of the line, or before a character that starts no variable, is kept. */
  lemma ExpandLoneDollar(a: string, b: string, status: int, pid: int, path: string)
    requires '$' !in a
    requires b == [] || (b[0] != '?' && b[0] != '$' && !(|b| >= 5 && b[..5] == "SHELL"))
    ensures Expand(a + "$" + b, status, pid, path) == a + "$" + Expand(b, status, pid, path)
  {
    ExpandPlainPrefix(a, "$" + b, status, pid, path);
    ExpandDollarHead(b, status, pid, path);
    Associate(a, "$", b);
    Associate(a, "$", Expand(b, status, pid, path));
  }

  lemma Associate(x: string, y: string, z: string)
    ensures x + y + z == x + (y + z)
  {
  }

  lemma ExpandDollarHead(b: string, status: int, pid: int, path: string)
    requires b == [] || (b[0] != '?' && b[0] != '$' && !(|b| >= 5 && b[..5] == "SHELL"))
    ensures Expand("$" + b, status, pid, path) == "$" + Expand(b, status, pid, path)
  {
    var t := "$" + b;
    assert t[0] == '$' && t[1..] == b;
    assert !(|t| >= 2 && (t[1] == '?' || t[1] == '$'));
    assert !(|t| >= 6 && t[1..6] == "SHELL") by {
      if |t| >= 6 {
        assert t[1..6] == b[..5];
      }
    }
  }

  // ---------------------------------------------------------------------------
  // The loop of `expand_variables`

  /**
   * `expand_variables`: a source cursor walks the line and a destination cursor
   * fills a zeroed buffer of `MaxCmdLen` characters; the result replaces the line.
   * The exit status, the shell's pid and its path are the shell's globals.
   */
  method ExpandVariables(cmd: string, status: int, pid: int, path: string) returns (out: string)
    requires |Expand(cmd, status, pid, path)| < MaxCmdLen
    ensures out == Expand(cmd, status, pid, path)
  {
    var buffer := new char[MaxCmdLen](_ => '\0');
    var src: nat, dst: nat := 0, 0;
    ExpandingBegins(cmd, status, pid, path);
    while src < |cmd|
      invariant dst <= buffer.Length == MaxCmdLen
      invariant Expanding(cmd, src, buffer[..dst], status, pid, path)
      decreases |cmd| - src
    {
      var piece, width := NextPiece(cmd, src, status, pid, path);
      ExpandingStep(cmd, src, buffer[..dst], piece, width, status, pid, path);
      dst := Append(buffer, dst, piece);
      src := src + width;
    }
    ExpandingEnds(cmd, buffer[..dst], status, pid, path);
    out := buffer[..dst];
  }

  /** Part way through the line: `done` is what the cursor has written for `cmd[..src]`. */
  ghost predicate Expanding(cmd: string, src: nat, done: string, status: int, pid: int, path: string) {
    src <= |cmd| && done + Expand(cmd[src..], status, pid, path) == Expand(cmd, status, pid, path)
  }

  lemma ExpandingBegins(cmd: string, status: int, pid: int, path: string)
    ensures Expanding(cmd, 0, [], status, pid, path)
  {
    assert cmd[0..] == cmd;
  }

  lemma ExpandingStep(cmd: string, src: nat, done: string, piece: string, width: nat, status: int, pid: int, path: string)
    requires Expanding(cmd, src, done, status, pid, path) && src + width <= |cmd|
    requires Expand(cmd[src..], status, pid, path) == piece + Expand(cmd[src + width..], status, pid, path)
    ensures Expanding(cmd, src + width, done + piece, status, pid, path)
    ensures |done + piece| <= |Expand(cmd, status, pid, path)|
  {
    ConcatStep(done, piece, Expand(cmd[src + width..], status, pid, path), Expand(cmd[src..], status, pid, path), Expand(cmd, status, pid, path));
  }

  lemma ConcatStep(done: string, piece: string, rest: string, remaining: string, whole: string)
    requires done + remaining == whole && remaining == piece + rest
    ensures (done + piece) + rest == whole && |done + piece| <= |whole|
  {
    assert done + piece + rest == done + (piece + rest);
  }

  lemma ExpandingEnds(cmd: string, done: string, status: int, pid: int, path: string)
    requires Expanding(cmd, |cmd|, done, status, pid, path)
    ensures done == Expand(cmd, status, pid, path)
  {
    assert cmd[|cmd|..] == [];
    assert done + [] == done;
  }

  /**
   * One turn of the loop of `expand_variables`: what to write for the text at
   * `src`, and how far the source cursor moves.
   */
  method NextPiece(cmd: string, src: nat, status: int, pid: int, path: string) returns (piece: string, width: nat)
    requires src < |cmd|
    ensures 0 < width && src + width <= |cmd|
    ensures Expand(cmd[src..], status, pid, path) == piece + Expand(cmd[src + width..], status, pid, path)
  {
    ghost var rest := cmd[src..];
    assert rest[0] == cmd[src];
    if cmd[src] == '$' {
      if src + 1 < |cmd| && cmd[src + 1] == '?' {
        piece, width := Decimal(status), 2;
      } else if src + 1 < |cmd| && cmd[src + 1] == '$' {
        piece, width := Decimal(pid), 2;
      } else if src + 6 <= |cmd| && cmd[src + 1..src + 6] == "SHELL" {
        assert rest[1..6] == cmd[src + 1..src + 6];
        piece, width := path, 6;
      } else {
        assert |rest| >= 6 ==> rest[1..6] == cmd[src + 1..src + 6];
        piece, width := "$", 1;
      }
    } else {
      piece, width := [cmd[src]], 1;
    }
    assert rest[width..] == cmd[src + width..];
  }

  /** `strcat` at the destination cursor: copy `piece` into `buffer` from `dst` on. */
  method Append(buffer: array<char>, dst: nat, piece: string) returns (dst': nat)
    requires dst + |piece| <= buffer.Length
    modifies buffer
    ensures dst' == dst + |piece|
    ensures buffer[..dst'] == old(buffer[..dst]) + piece
  {
    var i := 0;
    while i < |piece|
      invariant i <= |piece|
      invariant buffer[..dst + i] == old(buffer[..dst]) + piece[..i]
    {
      buffer[dst + i] := piece[i];
      i := i + 1;
    }
    dst' := dst + i;
  }
}
