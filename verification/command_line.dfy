/**
  The command-line tokeniser `construct_argv` of `src/lib/nnio.c`, which
  turns the `--exec` string into the NULL-terminated argument vector handed
  to `execvp`. It splits on C-locale whitespace only: there is no quoting and
  no escaping, so quotes and backslashes are ordinary characters.
 */
module CommandLine {
  import opened NnioTypes

  /** `isspace` in the C locale: space, tab, newline, vertical tab, form feed, carriage return. */
  predicate IsSpace(c: char)
  {
    c == ' ' || c == '\t' || c == '\n' || c == '\r' || c as int == 11 || c as int == 12
  }

  /** `strlen`: the index of the first NUL, or the whole length if there is none. */
  function StrLen(s: seq<char>): (n: nat)
    ensures n <= |s|
    ensures forall k :: 0 <= k < n ==> s[k] != '\0'
    ensures n < |s| ==> s[n] == '\0'
  {
    if s == [] || s[0] == '\0' then 0 else 1 + StrLen(s[1..])
  }

  /** The characters of a C string: everything before its first NUL. */
  function CString(s: seq<char>): (c: string)
    ensures '\0' !in c
  {
    s[..StrLen(s)]
  }

  /** Length of the leading run of non-whitespace characters. */
  function RunLength(s: string): (n: nat)
    ensures n <= |s|
    ensures forall k :: 0 <= k < n ==> !IsSpace(s[k])
    ensures n < |s| ==> IsSpace(s[n])
  {
    if s == [] || IsSpace(s[0]) then 0 else 1 + RunLength(s[1..])
  }

  /** The maximal runs of non-whitespace characters of `s`, in order. */
  function Words(s: string): (w: seq<string>)
    ensures |w| <= |s|
    decreases |s|
  {
    if s == [] then []
    else if IsSpace(s[0]) then Words(s[1..])
    else
      var n := RunLength(s);
      [s[..n]] + Words(s[n..])
  }

  /** A token as `construct_argv` produces it: non-empty, without whitespace. */
  predicate ValidWord(w: string)
  {
    |w| > 0 && forall k :: 0 <= k < |w| ==> !IsSpace(w[k])
  }

  /** Every word is a valid token, and a word of a NUL-free string holds no NUL. */
  lemma {:induction false} WordsAreValid(s: string)
    ensures forall t :: 0 <= t < |Words(s)| ==> ValidWord(Words(s)[t])
    ensures '\0' !in s ==> forall t :: 0 <= t < |Words(s)| ==> '\0' !in Words(s)[t]
    decreases |s|
  {
    if s == [] {
    } else if IsSpace(s[0]) {
      WordsAreValid(s[1..]);
    } else {
      var n := RunLength(s);
      assert s[..n] == [s[0]] + s[1..n];
      WordsAreValid(s[n..]);
      assert '\0' !in s ==> '\0' !in s[..n] && '\0' !in s[n..] by {
        if '\0' !in s {
          forall k | 0 <= k < n ensures s[..n][k] != '\0' { assert s[..n][k] == s[k]; }
          forall k | 0 <= k < |s| - n ensures s[n..][k] != '\0' { assert s[n..][k] == s[n + k]; }
        }
      }
    }
  }

  /** An empty or all-whitespace command has no words. */
  lemma {:induction false} AllSpaceHasNoWords(s: string)
    requires forall k :: 0 <= k < |s| ==> IsSpace(s[k])
    ensures Words(s) == []
    decreases |s|
  {
    if s != [] {
      AllSpaceHasNoWords(s[1..]);
    }
  }

  /** Leading whitespace is skipped. */
  lemma {:induction false} WordsSkipLeadingSpace(pre: string, s: string)
    requires forall k :: 0 <= k < |pre| ==> IsSpace(pre[k])
    ensures Words(pre + s) == Words(s)
    decreases |pre|
  {
    if pre != [] {
      assert (pre + s)[0] == pre[0];
      assert IsSpace(pre[0]);
      assert (pre + s)[1..] == pre[1..] + s;
      WordsSkipLeadingSpace(pre[1..], s);
      assert Words(pre + s) == Words(pre[1..] + s);
    } else {
      assert pre + s == s;
    }
  }

  /** A valid token followed by nothing or by whitespace is one whole word. */
  lemma {:induction false} WordsOfTokenThenRest(w: string, s: string)
    requires ValidWord(w)
    requires s == [] || IsSpace(s[0])
    ensures Words(w + s) == [w] + Words(s)
  {
    var ws := w + s;
    assert ws[0] == w[0];
    var n := RunLength(ws);
    assert n == |w| by {
      forall k | 0 <= k < |w| ensures !IsSpace(ws[k]) { assert ws[k] == w[k]; }
      if |w| < |ws| { assert ws[|w|] == s[0]; }
    }
    assert ws[..n] == w;
    assert ws[n..] == s;
  }

  /** Joins tokens with one space between neighbours. */
  function Unwords(ws: seq<string>): string
  {
    if ws == [] then []
    else if |ws| == 1 then ws[0]
    else ws[0] + " " + Unwords(ws[1..])
  }

  /** Round trip: splitting tokens joined by spaces gives the tokens back. */
  lemma {:induction false} WordsUnwords(ws: seq<string>)
    requires forall t :: 0 <= t < |ws| ==> ValidWord(ws[t])
    ensures Words(Unwords(ws)) == ws
  {
    if ws == [] {
    } else if |ws| == 1 {
      WordsOfTokenThenRest(ws[0], []);
      assert ws[0] + [] == ws[0];
      assert Words([]) == [];
    } else {
      var rest := Unwords(ws[1..]);
      WordsUnwords(ws[1..]);
      assert ws[0] + " " + rest == ws[0] + (" " + rest);
      WordsOfTokenThenRest(ws[0], " " + rest);
      assert (" " + rest)[1..] == rest;
      assert Words(" " + rest) == Words(rest);
      assert ws == [ws[0]] + ws[1..];
    }
  }

  /** One step of skipping the whitespace before a token. */
  lemma SkipSpaceStep(src: string, i: nat)
    requires i < |src| && IsSpace(src[i])
    ensures Words(src[i..]) == Words(src[i + 1..])
  {
    assert src[i..][0] == src[i];
    assert src[i..][1..] == src[i + 1..];
  }

  /** The run `src[prev..i]` is the next word and scanning resumes at `i`. */
  lemma TokenStep(src: string, prev: nat, i: nat)
    requires prev < i <= |src|
    requires forall k :: prev <= k < i ==> !IsSpace(src[k])
    requires i < |src| ==> IsSpace(src[i])
    ensures ValidWord(src[prev..i])
    ensures Words(src[prev..]) == [src[prev..i]] + Words(src[i..])
    ensures i < |src| ==> Words(src[i..]) == Words(src[i + 1..])
  {
    var w := src[prev..i];
    assert ValidWord(w) by {
      forall k | 0 <= k < |w| ensures !IsSpace(w[k]) { assert w[k] == src[prev + k]; }
    }
    assert src[prev..] == w + src[i..];
    WordsOfTokenThenRest(w, src[i..]);
    if i < |src| {
      SkipSpaceStep(src, i);
    }
  }

  /** `a` holds the C string `w` at offset `p`: the characters of `w`, then a NUL. */
  predicate HoldsCString(a: seq<char>, p: nat, w: string)
  {
    p + |w| < |a| && a[p..p + |w|] == w && a[p + |w|] == '\0'
  }

  /**
    The private copy of `src` while tokenising: `src` and a NUL terminator,
    NULs written only over whitespace, and nothing changed from `i` on.
   */
  ghost predicate Copy(a: seq<char>, src: string, i: nat)
  {
    && |a| == |src| + 1 && a[|src|] == '\0' && i <= |src|
    && (forall k :: 0 <= k < |src| ==> src[k] != '\0')
    && (forall k :: i <= k < |src| ==> a[k] == src[k])
    && (forall k :: 0 <= k < |src| ==> a[k] == src[k] || (IsSpace(src[k]) && a[k] == '\0'))
  }

  /** The entries of `argv` before its NULL point at the tokens found so far, each ended by a NUL. */
  ghost predicate Placed(a: seq<char>, src: string, argv: seq<Option<nat>>, toks: seq<string>)
  {
    && |argv| == |toks| + 1 && argv[|toks|] == None
    && forall t :: 0 <= t < |toks| ==>
      && argv[t].Some?
      && argv[t].value + |toks[t]| <= |src| < |a|
      && a[argv[t].value + |toks[t]|] == '\0'
      && toks[t] == src[argv[t].value..argv[t].value + |toks[t]|]
      && ValidWord(toks[t])
  }

  /** Writing a NUL over the whitespace at `i` keeps the copy, now unchanged only from `i + 1` on. */
  lemma CutKeepsCopy(a: seq<char>, src: string, prev: nat, i: nat)
    requires Copy(a, src, prev) && prev <= i < |src| && IsSpace(src[i])
    ensures Copy(a[i := '\0'], src, i + 1)
  {
  }

  /** A copy that keeps every NUL of `a` and has a NUL at `i` places the earlier tokens and `src[prev..i]`. */
  lemma PlaceToken(a: seq<char>, a': seq<char>, src: string, argv: seq<Option<nat>>, toks: seq<string>, prev: nat, i: nat)
    requires Placed(a, src, argv, toks)
    requires |a| == |src| + 1 && |a'| == |a| && forall k :: 0 <= k < |a| && a[k] == '\0' ==> a'[k] == '\0'
    requires prev < i <= |src| && a'[i] == '\0' && ValidWord(src[prev..i])
    ensures Placed(a', src, argv[..|toks|] + [Some(prev), None], toks + [src[prev..i]])
  {
    var argv', toks' := argv[..|toks|] + [Some(prev), None], toks + [src[prev..i]];
    forall t | 0 <= t < |toks'|
      ensures argv'[t].Some? && argv'[t].value + |toks'[t]| <= |src| < |a'|
      ensures a'[argv'[t].value + |toks'[t]|] == '\0'
    {
      if t < |toks| {
        assert argv'[t] == argv[t] && toks'[t] == toks[t];
      }
    }
  }

  /**
    Recording the token `src[prev..i]` and writing a NUL over the whitespace
    that ends it (if any) keeps the copy and the placed tokens consistent.
   */
  lemma AfterToken(a: seq<char>, src: string, argv: seq<Option<nat>>, toks: seq<string>, prev: nat, i: nat)
    requires Copy(a, src, prev) && Placed(a, src, argv, toks)
    requires prev < i <= |src|
    requires forall k :: prev <= k < i ==> !IsSpace(src[k])
    requires i < |src| ==> IsSpace(src[i])
    ensures i < |src| ==> Copy(a[i := '\0'], src, i + 1)
    ensures i < |src| ==> Placed(a[i := '\0'], src, argv[..|toks|] + [Some(prev), None], toks + [src[prev..i]])
    ensures i == |src| ==> Copy(a, src, i)
    ensures i == |src| ==> Placed(a, src, argv[..|toks|] + [Some(prev), None], toks + [src[prev..i]])
  {
    TokenStep(src, prev, i);
    if i < |src| {
      CutKeepsCopy(a, src, prev, i);
      PlaceToken(a, a[i := '\0'], src, argv, toks, prev, i);
    } else {
      PlaceToken(a, a, src, argv, toks, prev, i);
    }
  }

  /** Placed tokens are C strings in the final copy. */
  lemma PlacedHolds(a: seq<char>, src: string, argv: seq<Option<nat>>, toks: seq<string>)
    requires Copy(a, src, |src|) && Placed(a, src, argv, toks)
    ensures forall t :: 0 <= t < |toks| ==> HoldsCString(a, argv[t].value, toks[t])
  {
    forall t | 0 <= t < |toks| ensures HoldsCString(a, argv[t].value, toks[t]) {
      var p, w := argv[t].value, toks[t];
      forall k | 0 <= k < |w| ensures a[p + k] == w[k] {
        assert w[k] == src[p + k];
      }
      assert a[p..p + |w|] == w;
    }
  }

  /** When the scan stops at the terminating NUL, every word has been placed. */
  lemma FinishArgv(argument: seq<char>, args: seq<char>, argc: nat, argv: seq<Option<nat>>, toks: seq<string>, i: nat)
    requires Copy(args, CString(argument), i) && Placed(args, CString(argument), argv, toks) && argc == |toks|
    requires Words(CString(argument)) == toks + Words(CString(argument)[i..])
    requires args[i] == '\0'
    ensures |args| == StrLen(argument) + 1 && args[|args| - 1] == '\0'
    ensures forall k :: 0 <= k < |args| - 1 ==>
      args[k] == argument[k] || (IsSpace(argument[k]) && args[k] == '\0')
    ensures argc == |Words(CString(argument))|
    ensures |argv| == argc + 1 && argv[argc] == None
    ensures forall t :: 0 <= t < argc ==>
      argv[t].Some? && HoldsCString(args, argv[t].value, Words(CString(argument))[t])
  {
    var src := CString(argument);
    assert i == |src|;
    assert src[i..] == [];
    assert Words(src) == toks;
    PlacedHolds(args, src, argv, toks);
  }

  /** A run of whitespace in front of the rest is skipped. */
  lemma SkipRun(src: string, i: nat, j: nat)
    requires i <= j <= |src|
    requires forall k :: i <= k < j ==> IsSpace(src[k])
    ensures Words(src[i..]) == Words(src[j..])
  {
    assert src[i..] == src[i..j] + src[j..];
    WordsSkipLeadingSpace(src[i..j], src[j..]);
  }

  /** One round of the outer loop of `construct_argv` on the words still to find. */
  lemma WordsAdvance(src: string, toks: seq<string>, start: nat, prev: nat, i: nat)
    requires start <= prev < i <= |src|
    requires Words(src) == toks + Words(src[start..])
    requires forall k :: start <= k < prev ==> IsSpace(src[k])
    requires forall k :: prev <= k < i ==> !IsSpace(src[k])
    requires i < |src| ==> IsSpace(src[i])
    ensures ValidWord(src[prev..i])
    ensures i < |src| ==> Words(src) == toks + [src[prev..i]] + Words(src[i + 1..])
    ensures i == |src| ==> Words(src) == toks + [src[prev..i]] + Words(src[i..])
  {
    SkipRun(src, start, prev);
    assert Words(src) == toks + Words(src[prev..]);
    TokenStep(src, prev, i);
    var after := if i < |src| then src[i + 1..] else src[i..];
    Regroup(toks, src[prev..i], Words(src[i..]), Words(after), Words(src));
  }

  /** A word between the words already found and the rest regroups either way. */
  lemma Regroup<T>(toks: seq<T>, w: T, rest: seq<T>, rest': seq<T>, all: seq<T>)
    requires all == toks + ([w] + rest) && rest == rest'
    ensures all == toks + [w] + rest'
  {
  }

  /** The inner loop of `construct_argv` that skips whitespace, stopping at a NUL or a non-space. */
  method SkipSpaces(a: array<char>, i: nat) returns (j: nat)
    requires i < a.Length && a[a.Length - 1] == '\0'
    ensures i <= j < a.Length
    ensures forall k :: i <= k < j ==> IsSpace(a[k])
    ensures a[j] == '\0' || !IsSpace(a[j])
  {
    j := i;
    while a[j] != '\0' && IsSpace(a[j])
      invariant i <= j < a.Length
      invariant forall k :: i <= k < j ==> IsSpace(a[k])
      decreases a.Length - j
    {
      j := j + 1;
    }
  }

  /** The inner loop of `construct_argv` that skips the characters of a token. */
  method SkipToken(a: array<char>, i: nat) returns (j: nat)
    requires i < a.Length && a[a.Length - 1] == '\0'
    ensures i <= j < a.Length
    ensures forall k :: i <= k < j ==> a[k] != '\0' && !IsSpace(a[k])
    ensures a[j] == '\0' || IsSpace(a[j])
  {
    j := i;
    while a[j] != '\0' && !IsSpace(a[j])
      invariant i <= j < a.Length
      invariant forall k :: i <= k < j ==> a[k] != '\0' && !IsSpace(a[k])
      decreases a.Length - j
    {
      j := j + 1;
    }
  }

  /** The buffer after ending the token that stops at `i`: a whitespace character there becomes a NUL. */
  function Cut(a: seq<char>, i: nat): (c: seq<char>)
    requires i < |a|
    ensures |c| == |a| && c[i] == '\0'
    ensures forall k :: 0 <= k < |a| && k != i ==> c[k] == a[k]
  {
    if a[i] != '\0' then a[i := '\0'] else a
  }

  /** Where the scan resumes after the token that stops at `i`. */
  function Resume(a: seq<char>, i: nat): nat
    requires i < |a|
  {
    if a[i] != '\0' then i + 1 else i
  }

  /** Ends a token: a whitespace character after it is overwritten by a NUL and skipped. */
  method TerminateToken(a: array<char>, i: nat) returns (j: nat)
    requires i < a.Length
    modifies a
    ensures a[..] == Cut(old(a[..]), i) && j == Resume(old(a[..]), i)
  {
    j := i;
    if a[j] != '\0' {
      a[j] := '\0';
      j := j + 1;
    }
  }

  /** One round of the outer loop of `construct_argv` keeps its invariant. */
  lemma Round(a: seq<char>, src: string, argv: seq<Option<nat>>, toks: seq<string>, start: nat, prev: nat, i: nat)
    requires Copy(a, src, start) && Placed(a, src, argv, toks)
    requires Words(src) == toks + Words(src[start..])
    requires start <= prev < i <= |src|
    requires forall k :: start <= k < prev ==> IsSpace(src[k])
    requires forall k :: prev <= k < i ==> !IsSpace(src[k])
    requires i < |src| ==> IsSpace(src[i])
    ensures Scanning(Cut(a, i), src, Resume(a, i), |toks| + 1, argv[..|toks|] + [Some(prev), None], toks + [src[prev..i]])
  {
    WordsAdvance(src, toks, start, prev, i);
    AfterToken(a, src, argv, toks, prev, i);
    if i < |src| {
      assert a[i] == src[i] && src[i] != '\0';
      assert Cut(a, i) == a[i := '\0'];
    } else {
      assert Cut(a, i) == a;
    }
  }

  /** The invariant of the outer loop of `construct_argv`. */
  ghost predicate Scanning(a: seq<char>, src: string, i: nat, argc: nat, argv: seq<Option<nat>>, toks: seq<string>)
  {
    Copy(a, src, i) && Placed(a, src, argv, toks) && argc == |toks|
    && Words(src) == toks + Words(src[i..])
  }

  /**
    One round of the outer loop of `construct_argv`: skip the whitespace in
    front of the next token; at the terminating NUL report `done`, otherwise
    record the token in `argv` and end it with a NUL.
   */
  method NextToken(a: array<char>, ghost src: string, i: nat, argc: nat, argv: seq<Option<nat>>, ghost toks: seq<string>)
    returns (j: nat, argc': nat, argv': seq<Option<nat>>, ghost toks': seq<string>, done: bool)
    requires Scanning(a[..], src, i, argc, argv, toks) && a[i] != '\0'
    modifies a
    ensures Scanning(a[..], src, j, argc', argv', toks')
    ensures done ==> a[j] == '\0'
    ensures !done ==> i < j
  {
    ghost var start := i;
    // skip the whitespace before the next token
    j := SkipSpaces(a, i);
    assert forall k :: start <= k < j ==> IsSpace(src[k]) by {
      forall k | start <= k < j ensures IsSpace(src[k]) { assert a[..][k] == src[k]; }
    }
    if a[j] == '\0' {
      SkipRun(src, start, j);
      return j, argc, argv, toks, true;
    }
    var prev := j;
    // skip the characters of the token
    j := SkipToken(a, j + 1);
    assert forall k :: prev <= k < j ==> !IsSpace(src[k]) by {
      forall k | prev <= k < j ensures !IsSpace(src[k]) { assert a[..][k] == src[k]; }
    }
    assert j < |src| ==> IsSpace(src[j]) by {
      if j < |src| { assert a[..][j] == src[j]; }
    }
    Round(a[..], src, argv, toks, start, prev, j);
    argv' := argv + [None];
    argc' := argc + 1;
    argv' := argv'[argc' - 1 := Some(prev)][argc' := None];
    assert argv' == argv[..|toks|] + [Some(prev), None];
    toks' := toks + [src[prev..j]];
    j := TerminateToken(a, j);
    done := false;
  }

  /**
    The outer loop of `construct_argv` over the private copy `a` of `src`,
    until the terminating NUL is reached.
   */
  method Tokenise(a: array<char>, ghost src: string) returns (argc: nat, argv: seq<Option<nat>>, ghost toks: seq<string>)
    requires Copy(a[..], src, 0)
    modifies a
    ensures Copy(a[..], src, |src|) && Placed(a[..], src, argv, toks) && argc == |toks|
    ensures Words(src) == toks
  {
    argc := 0;
    argv := [None];
    toks := [];
    var i := 0;
    while a[i] != '\0'
      invariant Scanning(a[..], src, i, argc, argv, toks)
      decreases |src| - i
    {
      var done;
      i, argc, argv, toks, done := NextToken(a, src, i, argc, argv, toks);
      if done {
        break;
      }
    }
    EndOfCopy(a[..], src, i);
  }

  /** The scan has reached the terminating NUL of the copy exactly at the end of `src`. */
  lemma EndOfCopy(a: seq<char>, src: string, i: nat)
    requires Copy(a, src, i) && a[i] == '\0'
    ensures i == |src| && Copy(a, src, |src|) && src[i..] == []
  {
  }

  /**
    `construct_argv`: the argument is copied into a private buffer `args`;
    each whitespace character that ends a token is overwritten by a NUL, and
    `argv` gets one offset into `args` per token followed by a NULL entry.
    The result is the final contents of the private buffer together with
    `argc` and `argv`; the caller's string is a value and is left as it was.
   */
  method ConstructArgv(argument: seq<char>) returns (argc: nat, argv: seq<Option<nat>>, args: seq<char>)
    ensures |args| == StrLen(argument) + 1 && args[|args| - 1] == '\0'
    ensures forall k :: 0 <= k < |args| - 1 ==>
      args[k] == argument[k] || (IsSpace(argument[k]) && args[k] == '\0')
    ensures argc == |Words(CString(argument))|
    ensures |argv| == argc + 1 && argv[argc] == None
    ensures forall t :: 0 <= t < argc ==>
      argv[t].Some? && HoldsCString(args, argv[t].value, Words(CString(argument))[t])
  {
    var n := StrLen(argument);
    ghost var src := CString(argument);
    var a := new char[n + 1](k => if 0 <= k < n then argument[k] else '\0');
    assert forall k :: 0 <= k < n ==> src[k] != '\0' by {
      forall k | 0 <= k < n ensures src[k] != '\0' { assert src[k] in src; }
    }
    assert Copy(a[..], src, 0);
    ghost var toks;
    argc, argv, toks := Tokenise(a, src);
    args := a[..];
    FinishArgv(argument, args, argc, argv, toks, n);
  }
}
