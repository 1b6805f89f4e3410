/**
 * C strings in a character buffer and the C library's `strtok`, which the shell
 * uses twice: to split a line on `|` and to split a stage on white space.
 * `strtok` writes a NUL over the delimiter that ends each token it returns, so
 * the buffer it works on changes; the model keeps the buffer and those writes.
 */
module CStrings {

  const NUL: char := '\0'

  /** A buffer whose last cell is a NUL, so every C string in it is terminated. */
  predicate Terminated(b: seq<char>) {
    |b| > 0 && b[|b| - 1] == NUL
  }

  /** Where the C string starting at `p` ends (`p + strlen(b + p)`). */
  function NulIndex(b: seq<char>, p: nat): (q: nat)
    requires Terminated(b) && p < |b|
    ensures p <= q < |b| && b[q] == NUL
    ensures forall k :: p <= k < q ==> b[k] != NUL
    decreases |b| - p
  {
    if b[p] == NUL then p else NulIndex(b, p + 1)
  }

  /** The C string starting at `p`, without its terminator. */
  function CStr(b: seq<char>, p: nat): string
    requires Terminated(b) && p < |b|
  {
    b[p..NulIndex(b, p)]
  }

  /** `p + strspn(b + p, D)`: the first position from `p` that holds no delimiter. */
  function SkipDelims(b: seq<char>, p: nat, D: set<char>): (q: nat)
    requires Terminated(b) && p < |b| && NUL !in D
    ensures p <= q < |b| && b[q] !in D
    ensures forall k :: p <= k < q ==> b[k] in D
    decreases |b| - p
  {
    if b[p] !in D then p else SkipDelims(b, p + 1, D)
  }

  /** `p + strcspn(b + p, D)`: the first position from `p` that holds a delimiter or the terminator. */
  function WordEnd(b: seq<char>, p: nat, D: set<char>): (q: nat)
    requires Terminated(b) && p < |b|
    ensures p <= q < |b| && (b[q] == NUL || b[q] in D)
    ensures forall k :: p <= k < q ==> b[k] != NUL && b[k] !in D
    decreases |b| - p
  {
    if b[p] == NUL || b[p] in D then p else WordEnd(b, p + 1, D)
  }

  /** Length of the run of non-delimiters that starts `s`. */
  function RunLength(s: string, D: set<char>): (k: nat)
    requires s != [] && s[0] !in D
    ensures 0 < k <= |s|
    ensures forall i :: 0 <= i < k ==> s[i] !in D
    ensures k < |s| ==> s[k] in D
  {
    if |s| == 1 || s[1] in D then 1 else 1 + RunLength(s[1..], D)
  }

  /**
   * The tokens `strtok` finds in `s`: the maximal runs of non-delimiters, in
   * order. Delimiters are dropped, so no token is empty.
   */
  function Fields(s: string, D: set<char>): seq<string>
    decreases |s|
  {
    if s == [] then []
    else if s[0] in D then Fields(s[1..], D)
    else
      var k := RunLength(s, D);
      [s[..k]] + Fields(s[k..], D)
  }

  /** The concatenation of a sequence of strings. */
  function Concat(ss: seq<string>): string {
    if ss == [] then [] else ss[0] + Concat(ss[1..])
  }

  /** The characters of `s` that are not delimiters, in order. */
  function Strip(s: string, D: set<char>): string {
    if s == [] then [] else (if s[0] in D then [] else [s[0]]) + Strip(s[1..], D)
  }

  // ---------------------------------------------------------------------------
  // What the tokens are

  /** Every token is non-empty and holds no delimiter. */
  lemma {:induction false} FieldsAreWords(s: string, D: set<char>)
    ensures forall k :: 0 <= k < |Fields(s, D)| ==>
      Fields(s, D)[k] != [] && forall i :: 0 <= i < |Fields(s, D)[k]| ==> Fields(s, D)[k][i] !in D
    decreases |s|
  {
    if s != [] {
      if s[0] in D {
        FieldsAreWords(s[1..], D);
      } else {
        var k := RunLength(s, D);
        FieldsAreWords(s[k..], D);
      }
    }
  }

  lemma {:induction false} StripAppend(a: string, b: string, D: set<char>)
    ensures Strip(a + b, D) == Strip(a, D) + Strip(b, D)
    decreases |a|
  {
    if a == [] {
      assert a + b == b;
    } else {
      assert (a + b)[1..] == a[1..] + b;
      StripAppend(a[1..], b, D);
    }
  }

  lemma {:induction false} StripWord(w: string, D: set<char>)
    requires forall i :: 0 <= i < |w| ==> w[i] !in D
    ensures Strip(w, D) == w
    decreases |w|
  {
    if w != [] {
      StripWord(w[1..], D);
    }
  }

  /** Gluing the tokens back together gives the input with its delimiters removed: nothing else is lost or added. */
  lemma {:induction false} FieldsConcat(s: string, D: set<char>)
    ensures Concat(Fields(s, D)) == Strip(s, D)
    decreases |s|
  {
    if s != [] {
      if s[0] in D {
        FieldsConcat(s[1..], D);
      } else {
        var k := RunLength(s, D);
        assert s == s[..k] + s[k..];
        StripAppend(s[..k], s[k..], D);
        StripWord(s[..k], D);
        FieldsConcat(s[k..], D);
        var f := Fields(s, D);
        assert f[0] == s[..k] && f[1..] == Fields(s[k..], D);
      }
    }
  }

  /** There are no more tokens than characters. */
  lemma {:induction false} FieldsCount(s: string, D: set<char>)
    ensures |Fields(s, D)| <= |s|
    decreases |s|
  {
    if s != [] {
      if s[0] in D {
        FieldsCount(s[1..], D);
      } else {
        FieldsCount(s[RunLength(s, D)..], D);
      }
    }
  }

  // ---------------------------------------------------------------------------
  // Steps that relate one `strtok` call to the tokens

  lemma {:induction false} FieldsSkip(s: string, D: set<char>, k: nat)
    requires k <= |s| && forall i :: 0 <= i < k ==> s[i] in D
    ensures Fields(s, D) == Fields(s[k..], D)
    decreases k
  {
    if k > 0 {
      assert s[1..][k - 1..] == s[k..];
      FieldsSkip(s[1..], D, k - 1);
    }
  }

  lemma FieldsWord(s: string, D: set<char>, k: nat)
    requires 0 < k <= |s|
    requires forall i :: 0 <= i < k ==> s[i] !in D
    requires k == |s| || s[k] in D
    ensures Fields(s, D) == [s[..k]] + Fields(s[k..], D)
  {
    assert RunLength(s, D) == k;
  }

  /** A C string is determined by the buffer from its start up to its terminator. */
  lemma {:induction false} CStrFrame(b: seq<char>, b2: seq<char>, p: nat)
    requires Terminated(b) && Terminated(b2) && |b2| == |b| && p < |b|
    requires forall k :: p <= k <= NulIndex(b, p) ==> b2[k] == b[k]
    ensures NulIndex(b2, p) == NulIndex(b, p)
    ensures CStr(b2, p) == CStr(b, p)
    decreases |b| - p
  {
    if b[p] != NUL {
      CStrFrame(b, b2, p + 1);
    }
  }

  /** The terminator of the C string at `p` is the first NUL from `p`. */
  lemma NulIndexAt(b: seq<char>, p: nat, q: nat)
    requires Terminated(b) && p <= q < |b| && b[q] == NUL
    requires forall k :: p <= k < q ==> b[k] != NUL
    ensures NulIndex(b, p) == q
  {
  }

  /** Leading delimiters contribute no token. */
  lemma SkipStep(b: seq<char>, save: nat, D: set<char>)
    requires Terminated(b) && save < |b| && NUL !in D
    ensures Fields(CStr(b, save), D) == Fields(CStr(b, SkipDelims(b, save, D)), D)
  {
    var s := SkipDelims(b, save, D);
    var n := NulIndex(b, save);
    NulIndexAt(b, s, n);
    FieldsSkip(b[save..n], D, s - save);
    assert b[save..n][s - save..] == b[s..n];
  }

  /** At a token's first character, the first token is the run up to `e`. */
  lemma WordStep(b: seq<char>, s: nat, D: set<char>, e: nat)
    requires Terminated(b) && s < |b|
    requires b[s] != NUL && b[s] !in D && e == WordEnd(b, s, D)
    ensures e < NulIndex(b, s) || e == NulIndex(b, s)
    ensures Fields(CStr(b, s), D) == [b[s..e]] + Fields(b[e..NulIndex(b, s)], D)
  {
    var n := NulIndex(b, s);
    assert e <= n;
    var w := b[s..n];
    var k := e - s;
    forall i | 0 <= i < k
      ensures w[i] !in D
    {
      assert w[i] == b[s + i];
    }
    if k < |w| {
      assert w[k] == b[e] && b[e] != NUL;
    }
    FieldsWord(w, D, k);
    assert w[..k] == b[s..e] && w[k..] == b[e..n];
  }

  /** After the token, `strtok` resumes past the NUL it wrote over the delimiter. */
  lemma ResumeStep(b: seq<char>, s: nat, D: set<char>, e: nat)
    requires Terminated(b) && s < |b| && s <= e < NulIndex(b, s) && NUL !in D && b[e] in D
    ensures e + 1 < |b| && Terminated(b[e := NUL])
    ensures Fields(b[e..NulIndex(b, s)], D) == Fields(CStr(b[e := NUL], e + 1), D)
  {
    var n := NulIndex(b, s);
    assert b[e..n][1..] == b[e + 1..n];
    NulIndexAt(b, e + 1, n);
    CStrFrame(b, b[e := NUL], e + 1);
  }

  /**
   * At a token's first character, `strtok` returns the first token, and the
   * rest are the tokens of the string where it resumes.
   */
  lemma TokenStep(b: seq<char>, s: nat, D: set<char>, e: nat, next: nat)
    requires Terminated(b) && s < |b| && NUL !in D
    requires b[s] != NUL && b[s] !in D
    requires e == WordEnd(b, s, D) && next == if b[e] == NUL then e else e + 1
    ensures next < |b| && Terminated(b[e := NUL])
    ensures Fields(CStr(b, s), D) == [b[s..e]] + Fields(CStr(b[e := NUL], next), D)
  {
    WordStep(b, s, D, e);
    if b[e] == NUL {
      assert b[e := NUL] == b;
      NulIndexAt(b, e, e);
      assert e == NulIndex(b, s);
      assert b[e..e] == [];
    } else {
      ResumeStep(b, s, D, e);
    }
  }

  /** One call `strtok(save, D)`, for both outcomes. */
  lemma StrtokStep(b: seq<char>, save: nat, D: set<char>)
    requires Terminated(b) && save < |b| && NUL !in D
    ensures var s := SkipDelims(b, save, D);
      b[s] == NUL ==> Fields(CStr(b, save), D) == []
    ensures var s := SkipDelims(b, save, D);
      var e := WordEnd(b, s, D);
      var next := if b[e] == NUL then e else e + 1;
      b[s] != NUL ==>
        && next < |b|
        && Terminated(b[e := NUL])
        && Fields(CStr(b, save), D) == [b[s..e]] + Fields(CStr(b[e := NUL], next), D)
  {
    var s := SkipDelims(b, save, D);
    SkipStep(b, save, D);
    if b[s] == NUL {
      NulIndexAt(b, s, s);
    } else {
      var e := WordEnd(b, s, D);
      TokenStep(b, s, D, e, if b[e] == NUL then e else e + 1);
    }
  }

  /** The C strings starting at each of `starts`. */
  function StringsAt(b: seq<char>, starts: seq<nat>): seq<string>
    requires Terminated(b)
    requires forall k :: 0 <= k < |starts| ==> starts[k] < |b|
  {
    seq(|starts|, k requires 0 <= k < |starts| => CStr(b, starts[k]))
  }

  function Min(a: nat, b: nat): nat {
    if a < b then a else b
  }

  // ---------------------------------------------------------------------------
  // The library call and the loop around it

  /** `strtok` resumed at `save` (glibc's `strtok_r`); `tok` is -1 for NULL. */
  method Strtok(b: seq<char>, save: nat, D: set<char>) returns (b': seq<char>, tok: int, next: nat)
    requires Terminated(b) && save < |b| && NUL !in D
    ensures Terminated(b') && |b'| == |b| && next < |b| && tok >= -1
    ensures var s := SkipDelims(b, save, D);
      b[s] == NUL ==> tok == -1 && b' == b && next == s
    ensures var s := SkipDelims(b, save, D);
      var e := WordEnd(b, s, D);
      b[s] != NUL ==> tok == s && b' == b[e := NUL] && next == (if b[e] == NUL then e else e + 1)
  {
    var s := save;
    while b[s] in D
      invariant save <= s < |b|
      invariant SkipDelims(b, save, D) == SkipDelims(b, s, D)
      decreases |b| - s
    {
      s := s + 1;
    }
    if b[s] == NUL {
      return b, -1, s;
    }
    var e := s;
    while b[e] != NUL && b[e] !in D
      invariant s <= e < |b|
      invariant WordEnd(b, s, D) == WordEnd(b, e, D)
      decreases |b| - e
    {
      e := e + 1;
    }
    tok := s;
    if b[e] == NUL {
      assert b[e := NUL] == b;
      b', next := b, e;
    } else {
      b', next := b[e := NUL], e + 1;
    }
  }

  lemma StringsAtSnoc(b: seq<char>, starts: seq<nat>, p: nat)
    requires Terminated(b) && p < |b|
    requires forall k :: 0 <= k < |starts| ==> starts[k] < |b|
    ensures StringsAt(b, starts + [p]) == StringsAt(b, starts) + [CStr(b, p)]
  {
  }

  /** C strings that end before `m` survive any change of the buffer from `m` on. */
  lemma StringsAtFrame(b1: seq<char>, b2: seq<char>, starts: seq<nat>, m: nat)
    requires Terminated(b1) && Terminated(b2) && |b1| == |b2| && m <= |b1|
    requires b1[..m] == b2[..m]
    requires forall k :: 0 <= k < |starts| ==> starts[k] < |b1| && NulIndex(b1, starts[k]) < m
    ensures forall k :: 0 <= k < |starts| ==> NulIndex(b2, starts[k]) == NulIndex(b1, starts[k])
    ensures StringsAt(b2, starts) == StringsAt(b1, starts)
  {
    forall k | 0 <= k < |starts|
      ensures NulIndex(b2, starts[k]) == NulIndex(b1, starts[k])
      ensures CStr(b2, starts[k]) == CStr(b1, starts[k])
    {
      assert forall j :: starts[k] <= j <= NulIndex(b1, starts[k]) ==> b1[j] == b1[..m][j];
      assert forall j :: starts[k] <= j <= NulIndex(b1, starts[k]) ==> b2[j] == b2[..m][j];
      CStrFrame(b1, b2, starts[k]);
    }
  }

  /**
   * What the loop needs to know about one `strtok` call that resumed at `save`
   * inside the C string that ends at `n`.
   */
  lemma StrtokFacts(b1: seq<char>, save: nat, D: set<char>, n: nat, b2: seq<char>, tok: int, next: nat)
    requires Terminated(b1) && save <= n < |b1| && b1[n] == NUL && NUL !in D
    requires Terminated(b2) && |b2| == |b1| && next < |b1|
    requires var s := SkipDelims(b1, save, D);
      b1[s] == NUL ==> tok == -1 && b2 == b1 && next == s
    requires var s := SkipDelims(b1, save, D);
      var e := WordEnd(b1, s, D);
      b1[s] != NUL ==> tok == s && b2 == b1[e := NUL] && next == (if b1[e] == NUL then e else e + 1)
    ensures next <= n && b2[n] == NUL
    ensures b2[..save] == b1[..save] && b2[n..] == b1[n..]
    ensures tok == -1 ==> b2 == b1 && Fields(CStr(b1, save), D) == []
    ensures tok >= 0 ==> save <= tok < next && b1[tok] != NUL && b2[..tok + 1] == b1[..tok + 1]
    ensures tok >= 0 ==> NulIndex(b2, tok) <= next
    ensures tok >= 0 ==> Fields(CStr(b1, save), D) == [CStr(b2, tok)] + Fields(CStr(b2, next), D)
  {
    var s := SkipDelims(b1, save, D);
    assert s <= n;
    StrtokStep(b1, save, D);
    if b1[s] != NUL {
      var e := WordEnd(b1, s, D);
      assert e <= n;
      NulIndexAt(b2, s, e);
      assert CStr(b2, s) == b1[s..e];
    }
  }

  /**
   * The state of the shell's `strtok` loop over the C string at `from` (which
   * ends at `n` and holds `fields`): `starts` holds the tokens stored so far,
   * whose strings are `done`, `tok` the one just returned (-1 for NULL) and
   * `next` where the next call resumes.
   */
  ghost predicate Scanning(b: seq<char>, from: nat, D: set<char>, n: nat, fields: seq<string>,
                           b': seq<char>, starts: seq<nat>, done: seq<string>, tok: int, next: nat)
  {
    && Terminated(b) && from <= n < |b| && n == NulIndex(b, from) && NUL !in D
    && Terminated(b') && |b'| == |b| && from <= next <= n && tok >= -1
    && b'[n] == NUL
    && b'[..from] == b[..from] && b'[n..] == b[n..]
    && (forall k :: 0 <= k < |starts| ==> from <= starts[k] < |b| && NulIndex(b', starts[k]) <= next)
    && (tok >= 0 ==> from <= tok < next && NulIndex(b', tok) <= next)
    && (forall i, j :: 0 <= i < j < |starts| ==> NulIndex(b', starts[i]) < starts[j])
    && (tok >= 0 ==> forall k :: 0 <= k < |starts| ==> NulIndex(b', starts[k]) < tok)
    && StringsAt(b', starts) == done
    && (tok == -1 ==> fields == done)
    && (tok >= 0 ==> fields == done + [CStr(b', tok)] + Fields(CStr(b', next), D))
  }

  /** The facts about the first token survive later calls. */
  ghost predicate FirstTokenKept(b: seq<char>, D: set<char>, s0: nat, e0: nat, b': seq<char>, starts: seq<nat>, tok: int, next: nat)
  {
    && Terminated(b') && |b'| == |b| && s0 <= e0 < |b|
    && (|starts| > 0 ==> starts[0] == s0)
    && (|starts| == 0 && tok >= 0 ==> tok == s0)
    && (|starts| > 0 || tok >= 0 ==> NulIndex(b', s0) == e0 && b'[..e0] == b[..e0] && e0 <= next)
  }

  /** The result of `strtok(save, D)` as the library defines it. */
  ghost predicate StrtokResult(b1: seq<char>, save: nat, D: set<char>, b2: seq<char>, tok: int, next: nat)
    requires Terminated(b1) && save < |b1| && NUL !in D
  {
    && Terminated(b2) && |b2| == |b1| && next < |b1|
    && var s := SkipDelims(b1, save, D);
      && (b1[s] == NUL ==> tok == -1 && b2 == b1 && next == s)
      && (b1[s] != NUL ==>
            var e := WordEnd(b1, s, D);
            tok == s && b2 == b1[e := NUL] && next == (if b1[e] == NUL then e else e + 1))
  }

  /** One turn of the loop, for the resume point and the frame: store the token, call `strtok` again. */
  lemma ScanPositions(b: seq<char>, from: nat, D: set<char>, n: nat, fields: seq<string>,
                      b1: seq<char>, starts: seq<nat>, done: seq<string>, tok1: int, next1: nat,
                      b2: seq<char>, tok2: int, next2: nat)
    requires Scanning(b, from, D, n, fields, b1, starts, done, tok1, next1) && tok1 >= 0
    requires StrtokResult(b1, next1, D, b2, tok2, next2)
    ensures Terminated(b2) && |b2| == |b| && from <= next2 <= n && tok2 >= -1
    ensures b2[n] == NUL && b2[..from] == b[..from] && b2[n..] == b[n..]
    ensures tok2 >= 0 ==> from <= tok2 < next2 && NulIndex(b2, tok2) <= next2
    ensures tok2 >= 0 ==> next2 > next1 && b2[..tok2] == b1[..tok2] && NulIndex(b1, tok1) < tok2
    ensures tok2 == -1 ==> b2 == b1 && next2 >= next1
  {
    StrtokFacts(b1, next1, D, n, b2, tok2, next2);
  }

  /** One turn of the loop, for the stored tokens: they keep their strings and their order. */
  lemma ScanStarts(from: nat, b1: seq<char>, starts: seq<nat>, tok1: nat, next1: nat,
                   b2: seq<char>, tok2: int, next2: nat)
    requires Terminated(b1) && Terminated(b2) && |b2| == |b1|
    requires forall k :: 0 <= k < |starts| ==> from <= starts[k] < |b1| && NulIndex(b1, starts[k]) <= next1
    requires forall i, j :: 0 <= i < j < |starts| ==> NulIndex(b1, starts[i]) < starts[j]
    requires forall k :: 0 <= k < |starts| ==> NulIndex(b1, starts[k]) < tok1
    requires from <= tok1 < next1 <= next2 < |b1| && NulIndex(b1, tok1) <= next1
    requires tok2 >= -1 && (tok2 == -1 ==> b2 == b1)
    requires tok2 >= 0 ==> next1 <= tok2 < |b1| && b2[..tok2] == b1[..tok2] && NulIndex(b1, tok1) < tok2
    ensures var starts' := starts + [tok1];
      && (forall k :: 0 <= k < |starts'| ==> from <= starts'[k] < |b1| && NulIndex(b2, starts'[k]) <= next2)
      && (forall i, j :: 0 <= i < j < |starts'| ==> NulIndex(b2, starts'[i]) < starts'[j])
      && (tok2 >= 0 ==> forall k :: 0 <= k < |starts'| ==> NulIndex(b2, starts'[k]) < tok2)
      && StringsAt(b2, starts') == StringsAt(b1, starts')
  {
    var starts' := starts + [tok1];
    forall k | 0 <= k < |starts'|
      ensures from <= starts'[k] < |b1| && NulIndex(b1, starts'[k]) <= next1
      ensures k < |starts| ==> NulIndex(b1, starts'[k]) < tok1
    {
      if k < |starts| {
        assert starts'[k] == starts[k];
      }
    }
    if tok2 >= 0 {
      StringsAtFrame(b1, b2, starts', tok2);
    }
    forall i, j | 0 <= i < j < |starts'|
      ensures NulIndex(b2, starts'[i]) < starts'[j]
    {
      if j < |starts| {
        assert starts'[i] == starts[i] && starts'[j] == starts[j];
      }
    }
  }

  /** One turn of the loop, for the strings. */
  lemma ScanStrings(b: seq<char>, from: nat, D: set<char>, n: nat, fields: seq<string>,
                    b1: seq<char>, starts: seq<nat>, done: seq<string>, tok1: int, next1: nat,
                    b2: seq<char>, tok2: int, next2: nat)
    requires Scanning(b, from, D, n, fields, b1, starts, done, tok1, next1) && tok1 >= 0
    requires StrtokResult(b1, next1, D, b2, tok2, next2)
    ensures StringsAt(b1, starts + [tok1 as nat]) == done + [CStr(b1, tok1)]
    ensures tok2 == -1 ==> fields == done + [CStr(b1, tok1)]
    ensures tok2 >= 0 ==> fields == done + [CStr(b1, tok1)] + [CStr(b2, tok2)] + Fields(CStr(b2, next2), D)
  {
    var t := CStr(b1, tok1);
    var rest := Fields(CStr(b1, next1), D);
    assert fields == done + [t] + rest;
    StringsAtSnoc(b1, starts, tok1 as nat);
    StrtokFacts(b1, next1, D, n, b2, tok2, next2);
    if tok2 == -1 {
      assert rest == [] && done + [t] + [] == done + [t];
    }
  }

  /** One turn of the loop: store the token, call `strtok` again. */
  lemma ScanStep(b: seq<char>, from: nat, D: set<char>, n: nat, fields: seq<string>,
                 b1: seq<char>, starts: seq<nat>, done: seq<string>, tok1: int, next1: nat,
                 b2: seq<char>, tok2: int, next2: nat)
    requires Scanning(b, from, D, n, fields, b1, starts, done, tok1, next1) && tok1 >= 0
    requires StrtokResult(b1, next1, D, b2, tok2, next2)
    ensures Scanning(b, from, D, n, fields, b2, starts + [tok1 as nat], done + [CStr(b1, tok1)], tok2, next2)
    ensures tok2 >= 0 ==> next1 <= tok2 < next2 && b1[tok2] != NUL && b2[..tok2] == b1[..tok2]
    ensures tok2 == -1 ==> b2 == b1 && next2 >= next1
  {
    StrtokFacts(b1, next1, D, n, b2, tok2, next2);
    ScanPositions(b, from, D, n, fields, b1, starts, done, tok1, next1, b2, tok2, next2);
    ScanStarts(from, b1, starts, tok1, next1, b2, tok2, next2);
    ScanStrings(b, from, D, n, fields, b1, starts, done, tok1, next1, b2, tok2, next2);
  }

  /** One turn of the loop, for the first token: later calls write only past its end. */
  lemma FirstTokenStep(b: seq<char>, D: set<char>, s0: nat, e0: nat,
                       b1: seq<char>, starts: seq<nat>, tok1: int, next1: nat,
                       b2: seq<char>, tok2: int, next2: nat)
    requires FirstTokenKept(b, D, s0, e0, b1, starts, tok1, next1) && tok1 >= 0
    requires Terminated(b2) && |b2| == |b1| && next2 < |b1| && tok2 >= -1
    requires tok2 >= 0 ==> next1 <= tok2 < next2 && b1[tok2] != NUL && b2[..tok2] == b1[..tok2]
    requires tok2 == -1 ==> b2 == b1 && next2 >= next1
    ensures FirstTokenKept(b, D, s0, e0, b2, starts + [tok1 as nat], tok2, next2)
  {
    if tok2 >= 0 {
      assert b1[e0] == NUL;
      assert e0 < tok2;
      assert b2[..e0] == b1[..e0];
      NulIndexAt(b2, s0, e0);
    }
  }

  /** Before the loop: the first call of `strtok` starts the scan. */
  lemma ScanBegins(b: seq<char>, from: nat, D: set<char>, b': seq<char>, tok: int, next: nat)
    requires Terminated(b) && from < |b| && NUL !in D
    requires StrtokResult(b, from, D, b', tok, next) && tok >= -1
    ensures var s0 := SkipDelims(b, from, D);
      && Scanning(b, from, D, NulIndex(b, from), Fields(CStr(b, from), D), b', [], [], tok, next)
      && FirstTokenKept(b, D, s0, WordEnd(b, s0, D), b', [], tok, next)
  {
    var n := NulIndex(b, from);
    var fields := Fields(CStr(b, from), D);
    StrtokFacts(b, from, D, n, b', tok, next);
    assert StringsAt(b', []) == [];
    var s0 := SkipDelims(b, from, D);
    if tok >= 0 {
      assert fields == [] + [CStr(b', tok)] + Fields(CStr(b', next), D);
      NulIndexAt(b', s0, WordEnd(b, s0, D));
    }
  }

  /** After the loop: the stored tokens are the first fields, as many as the limit allows. */
  lemma ScanEnds(b: seq<char>, from: nat, D: set<char>, limit: nat, s0: nat, e0: nat,
                 b': seq<char>, starts: seq<nat>, done: seq<string>, tok: int, next: nat)
    requires Terminated(b) && from < |b| && NUL !in D
    requires s0 == SkipDelims(b, from, D) && e0 == WordEnd(b, s0, D)
    requires Scanning(b, from, D, NulIndex(b, from), Fields(CStr(b, from), D), b', starts, done, tok, next)
    requires FirstTokenKept(b, D, s0, e0, b', starts, tok, next)
    requires |starts| <= limit && (tok == -1 || |starts| == limit)
    ensures |starts| == Min(limit, |Fields(CStr(b, from), D)|)
    ensures StringsAt(b', starts) == Fields(CStr(b, from), D)[..|starts|]
  {
    var fields := Fields(CStr(b, from), D);
    assert |StringsAt(b', starts)| == |starts|;
    assert fields[..|starts|] == done;
  }

  /**
   * The shell's tokenising loop: call `strtok` on the C string at `from`, then
   * resume it, storing each token until there is none or `limit` are stored.
   * It stores the first `limit` tokens; each stored token is a C string of its
   * own afterwards, and the buffer changes only inside that string.
   */
  method CollectTokens(b: seq<char>, from: nat, D: set<char>, limit: nat) returns (b': seq<char>, starts: seq<nat>)
    requires Terminated(b) && from < |b| && NUL !in D
    ensures Terminated(b') && |b'| == |b|
    ensures |starts| == Min(limit, |Fields(CStr(b, from), D)|)
    ensures forall k :: 0 <= k < |starts| ==> from <= starts[k] < |b|
    ensures StringsAt(b', starts) == Fields(CStr(b, from), D)[..|starts|]
    ensures forall i, j :: 0 <= i < j < |starts| ==> NulIndex(b', starts[i]) < starts[j]
    ensures b'[..from] == b[..from] && b'[NulIndex(b, from)..] == b[NulIndex(b, from)..]
    ensures |starts| > 0 ==>
      var e0 := WordEnd(b, starts[0], D);
      && starts[0] == SkipDelims(b, from, D)
      && NulIndex(b', starts[0]) == e0
      && b'[..e0] == b[..e0]
  {
    ghost var fields := Fields(CStr(b, from), D);
    ghost var n := NulIndex(b, from);
    ghost var s0 := SkipDelims(b, from, D);
    ghost var e0 := WordEnd(b, s0, D);
    ghost var done: seq<string> := [];
    var tok, next;
    b', tok, next := Strtok(b, from, D);
    ScanBegins(b, from, D, b', tok, next);
    starts := [];
    while tok != -1 && |starts| < limit
      invariant Scanning(b, from, D, n, fields, b', starts, done, tok, next)
      invariant FirstTokenKept(b, D, s0, e0, b', starts, tok, next)
      invariant |starts| <= limit
      decreases |b| - next + (if tok >= 0 then 1 else 0)
    {
      ghost var b1, starts1, done1, tok1, next1 := b', starts, done, tok, next;
      done := done + [CStr(b', tok)];
      starts := starts + [tok as nat];
      b', tok, next := Strtok(b', next, D);
      ScanStep(b, from, D, n, fields, b1, starts1, done1, tok1, next1, b', tok, next);
      FirstTokenStep(b, D, s0, e0, b1, starts1, tok1, next1, b', tok, next);
    }
    ScanEnds(b, from, D, limit, s0, e0, b', starts, done, tok, next);
  }
}
