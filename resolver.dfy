// Command resolution of exec_boilerplate (shell.c): a token that already looks
// like a path is used as it is; any other token is looked up in the PATH
// directories, in order, and the first candidate the execute-permission check
// accepts wins.

module Resolver {
  import opened Wrappers
  import opened SearchPath
  import opened Strtok

  /** The outcome of resolving a command token. */
  datatype Resolution = Found(path: string) | NotFound

  /** The marker test: a first character '.', '/' or '~' means "already a path" (no '~' expansion follows). */
  predicate IsPathShaped(token: string)
  {
    |token| > 0 && (token[0] == '.' || token[0] == '/' || token[0] == '~')
  }

  /** The path tried for `token` in directory `dir`. */
  function Candidate(dir: string, token: string): string
  {
    dir + "/" + token
  }

  /** The paths tried for `token`, one per PATH directory, in PATH order. */
  function Candidates(path: seq<char>, token: string): (cands: seq<string>)
    ensures |cands| == |Split(path)|
    ensures forall i :: 0 <= i < |cands| ==> cands[i] == Candidate(Split(path)[i], token)
  {
    CandidatesOf(Split(path), token)
  }

  /** The candidate for each directory of `dirs`, in order. */
  function CandidatesOf(dirs: seq<string>, token: string): (cands: seq<string>)
    ensures |cands| == |dirs|
    ensures forall i :: 0 <= i < |cands| ==> cands[i] == Candidate(dirs[i], token)
  {
    if dirs == [] then [] else [Candidate(dirs[0], token)] + CandidatesOf(dirs[1..], token)
  }

  /** Index of the first candidate the check accepts; |cands| when it accepts none. */
  function FirstExec(cands: seq<string>, executable: set<string>): (i: nat)
    ensures i <= |cands|
    ensures i < |cands| ==> cands[i] in executable
    ensures forall j :: 0 <= j < i ==> cands[j] !in executable
  {
    if cands == [] then 0
    else if cands[0] in executable then 0
    else 1 + FirstExec(cands[1..], executable)
  }

  /** None of the first `k` candidates passes the check. */
  predicate NoneAccepted(cands: seq<string>, k: nat, executable: set<string>)
    requires k <= |cands|
  {
    forall j :: 0 <= j < k ==> cands[j] !in executable
  }

  /** FirstExec is the one index before which the check accepts nothing and at which it accepts (or the end). */
  lemma FirstExecIs(cands: seq<string>, executable: set<string>, k: nat)
    requires k <= |cands| && NoneAccepted(cands, k, executable)
    requires k < |cands| ==> cands[k] in executable
    ensures FirstExec(cands, executable) == k
  {
  }

  /** One more rejected candidate extends the rejected prefix. */
  lemma NoneAcceptedStep(cands: seq<string>, executable: set<string>, k: nat)
    requires k < |cands| && NoneAccepted(cands, k, executable) && cands[k] !in executable
    ensures NoneAccepted(cands, k + 1, executable)
  {
  }

  /** The directory the n-th strtok call hands out gives the n-th candidate. */
  lemma NthCandidate(s: seq<char>, token: string, n: nat)
    requires Nth(s, n).Some?
    ensures n < |Candidates(s, token)| && Candidates(s, token)[n] == Candidate(Nth(s, n).value, token)
  {
  }

  /** The first-match rule: the first candidate the check accepts, or NotFound. */
  function FirstMatch(cands: seq<string>, executable: set<string>): (r: Resolution)
    ensures r == NotFound <==> forall i :: 0 <= i < |cands| ==> cands[i] !in executable
    ensures r.Found? ==> exists i :: 0 <= i < |cands| && r.path == cands[i] && r.path in executable && NoneAccepted(cands, i, executable)
  {
    var i := FirstExec(cands, executable);
    if i < |cands| then Found(cands[i]) else NotFound
  }

  /**
   * What resolving `token` against the PATH value `path` yields, with
   * `executable` standing for access(…, X_OK) succeeding.
   */
  function Resolve(token: string, path: seq<char>, executable: set<string>): (r: Resolution)
    ensures IsPathShaped(token) ==> r == Found(token)
    ensures !IsPathShaped(token) ==>
      (r == NotFound <==> forall i :: 0 <= i < |Split(path)| ==> Candidate(Split(path)[i], token) !in executable)
    ensures !IsPathShaped(token) && r.Found? ==>
      exists i :: 0 <= i < |Split(path)| && r.path == Candidate(Split(path)[i], token) && r.path in executable
        && forall j :: 0 <= j < i ==> Candidate(Split(path)[j], token) !in executable
  {
    if IsPathShaped(token) then Found(token)
    else
      FirstMatchOverPath(path, token, executable);
      FirstMatch(Candidates(path, token), executable)
  }

  /** The first-match rule over the candidates of a PATH value, stated in terms of its directories. */
  lemma FirstMatchOverPath(path: seq<char>, token: string, executable: set<string>)
    ensures var r := FirstMatch(Candidates(path, token), executable);
      (r == NotFound <==> forall i :: 0 <= i < |Split(path)| ==> Candidate(Split(path)[i], token) !in executable)
      && (r.Found? ==>
        exists i :: 0 <= i < |Split(path)| && r.path == Candidate(Split(path)[i], token) && r.path in executable
          && forall j :: 0 <= j < i ==> Candidate(Split(path)[j], token) !in executable)
  {
    var cands := Candidates(path, token);
    var r := FirstMatch(cands, executable);
    assert forall j :: 0 <= j < |cands| ==> cands[j] == Candidate(Split(path)[j], token);
    if r.Found? {
      var i :| 0 <= i < |cands| && r.path == cands[i] && r.path in executable && NoneAccepted(cands, i, executable);
      assert r.path == Candidate(Split(path)[i], token);
    }
  }

  /**
   * The marker test decides whether the word is used as it is: resolution
   * hands back the word itself exactly when it is path-shaped, because a
   * searched word always comes back behind a directory and a '/'.
   */
  lemma ResolvesToItselfIff(token: string, path: seq<char>, executable: set<string>)
    ensures Resolve(token, path, executable) == Found(token) <==> IsPathShaped(token)
  {
    var r := Resolve(token, path, executable);
    if !IsPathShaped(token) && r.Found? {
      var i :| 0 <= i < |Split(path)| && r.path == Candidate(Split(path)[i], token) && r.path in executable
        && forall j :: 0 <= j < i ==> Candidate(Split(path)[j], token) !in executable;
      assert |r.path| > |token|;
    }
  }

  /** FirstExec over a candidate list with `c` in front. */
  lemma FirstExecPrepend(c: string, rest: seq<string>, executable: set<string>)
    ensures FirstExec([c] + rest, executable) == if c in executable then 0 else 1 + FirstExec(rest, executable)
  {
    assert ([c] + rest)[1..] == rest;
  }

  /** The first-match rule over a candidate list with `c` in front. */
  lemma FirstMatchPrepend(c: string, rest: seq<string>, executable: set<string>)
    ensures FirstMatch([c] + rest, executable) == if c in executable then Found(c) else FirstMatch(rest, executable)
  {
    FirstExecPrepend(c, rest, executable);
    if c !in executable {
      var j := FirstExec(rest, executable);
      assert j < |rest| ==> ([c] + rest)[1 + j] == rest[j];
    }
  }

  /** Candidates for a PATH that starts with directory `d`: `d`'s candidate first, then the rest in order. */
  lemma CandidatesPrepend(d: string, p: seq<char>, token: string)
    requires d != [] && Sep !in d && NUL !in d
    ensures Candidates(d + [Sep] + p, token) == [Candidate(d, token)] + Candidates(p, token)
  {
    SplitPrepend(d, p);
    var l := Candidates(d + [Sep] + p, token);
    var r := [Candidate(d, token)] + Candidates(p, token);
    assert |l| == |r|;
    forall i | 0 <= i < |l| ensures l[i] == r[i] {
      if i > 0 {
        assert Split(d + [Sep] + p)[i] == Split(p)[i - 1];
      }
    }
  }

  /**
   * The search tries PATH's directories in order: with `d` in front, `d`'s
   * candidate wins when it is executable, and otherwise the answer is the one
   * the rest of PATH gives.
   */
  lemma ResolvePrepend(token: string, d: string, p: seq<char>, executable: set<string>)
    requires !IsPathShaped(token)
    requires d != [] && Sep !in d && NUL !in d
    ensures Resolve(token, d + [Sep] + p, executable) ==
      if Candidate(d, token) in executable then Found(Candidate(d, token)) else Resolve(token, p, executable)
  {
    CandidatesPrepend(d, p, token);
    FirstMatchPrepend(Candidate(d, token), Candidates(p, token), executable);
  }

  /** Empty PATH fields give no candidate: no directory tried is "", so no candidate is "/" + token. */
  lemma NoBareCandidate(path: seq<char>, token: string)
    ensures forall i :: 0 <= i < |Candidates(path, token)| ==>
      Candidates(path, token)[i] != "/" + token && |Candidates(path, token)[i]| > |token| + 1
  {
    var cands := Candidates(path, token);
    forall i | 0 <= i < |cands|
      ensures cands[i] != "/" + token && |cands[i]| > |token| + 1
    {
      assert |cands[i]| == |Split(path)[i]| + 1 + |token|;
    }
  }

  /** An empty PATH, or one made of ':' only, yields no candidate, so a command that is not path-shaped is not found. */
  lemma EmptyPathNotFound(token: string, path: seq<char>, executable: set<string>)
    requires !IsPathShaped(token)
    requires forall i :: 0 <= i < |CString(path)| ==> CString(path)[i] == Sep
    ensures |Candidates(path, token)| == 0
    ensures Resolve(token, path, executable) == NotFound
  {
    SplitEmptyIff(path);
  }

  /** A PATH value holding one directory and nothing after it. */
  lemma SplitSingle(d: string)
    requires d != [] && Sep !in d && NUL !in d
    ensures Split(d) == [d]
  {
    assert d[0] in d;
    FieldLenIs(d, |d|);
    assert d[..|d|] == d;
    assert d[|d|..] == [];
  }

  /** A directory followed by a terminator: whatever comes after the terminator is not searched. */
  lemma SplitStopsAtNul(d: string, rest: seq<char>)
    requires d != [] && Sep !in d && NUL !in d
    ensures Split(d + [NUL] + rest) == [d]
  {
    var t := d + [NUL] + rest;
    FieldLenIs(t, |d|);
    assert t[..|d|] == d;
    SplitAtEnd(t, |d|);
  }

  /** A PATH with a single directory: its candidate, or nothing. */
  lemma ResolveSingle(token: string, t: seq<char>, d: string, executable: set<string>)
    requires !IsPathShaped(token) && Split(t) == [d]
    ensures Resolve(token, t, executable) ==
      if Candidate(d, token) in executable then Found(Candidate(d, token)) else NotFound
  {
    var cands := Candidates(t, token);
    assert cands == [Candidate(d, token)];
    if Candidate(d, token) in executable {
      ResolveStopsAt(token, t, executable, 0);
    } else {
      ResolveStopsAt(token, t, executable, 1);
    }
  }

  /** With PATH "/usr/bin:/bin", `ls` is taken from /usr/bin when it is there, and from /bin otherwise. */
  lemma ResolveLsExample(executable: set<string>)
    ensures "/usr/bin/ls" in executable ==> Resolve("ls", "/usr/bin:/bin", executable) == Found("/usr/bin/ls")
    ensures "/usr/bin/ls" !in executable && "/bin/ls" in executable ==> Resolve("ls", "/usr/bin:/bin", executable) == Found("/bin/ls")
    ensures "/usr/bin/ls" !in executable && "/bin/ls" !in executable ==> Resolve("ls", "/usr/bin:/bin", executable) == NotFound
  {
    assert Candidate("/usr/bin", "ls") == "/usr/bin/ls";
    assert Candidate("/bin", "ls") == "/bin/ls";
    assert "/usr/bin:/bin" == "/usr/bin" + [Sep] + "/bin";
    ResolvePrepend("ls", "/usr/bin", "/bin", executable);
    SplitSingle("/bin");
    ResolveSingle("ls", "/bin", "/bin", executable);
  }

  /** A search that accepts nothing before candidate `k` and accepts candidate `k` (or runs out there) resolves to it. */
  lemma ResolveStopsAt(token: string, path: seq<char>, executable: set<string>, k: nat)
    requires !IsPathShaped(token)
    requires k <= |Candidates(path, token)| && NoneAccepted(Candidates(path, token), k, executable)
    requires k < |Candidates(path, token)| ==> Candidates(path, token)[k] in executable
    ensures Resolve(token, path, executable) ==
      if k < |Candidates(path, token)| then Found(Candidates(path, token)[k]) else NotFound
  {
    FirstExecIs(Candidates(path, token), executable, k);
  }

  /**
   * One strtok(…, ":") call of the PATH walk: the n-th call (counting from 0)
   * over the PATH value `s`, on the buffer the earlier calls have written,
   * returns the n-th directory and writes one more closing delimiter.
   */
  method NextDirectory(env: array<char>, from: nat, ghost s: seq<char>, ghost n: nat)
    returns (dir: Option<string>, save: nat)
    requires |s| == env.Length && from == Cursor(s, n) && env[..] == Written(s, from)
    modifies env
    ensures dir == Nth(s, n) && save == Cursor(s, n + 1) && env[..] == Written(s, save)
  {
    NextOnWritten(s, n);
    dir, save := Next(env, from);
  }

  /**
   * The PATH walk of exec_boilerplate: strtok runs over the PATH value in the
   * environment itself, so every delimiter that closes a directory it hands
   * out is overwritten with NUL there. It stops at the first candidate the
   * check accepts; `tried` is that candidate's index (the number of
   * candidates when none is accepted).
   */
  method WalkPath(token: string, env: array<char>, executable: set<string>) returns (r: Resolution, ghost tried: nat)
    modifies env
    ensures var cands := Candidates(old(env[..]), token);
      tried <= |cands| && NoneAccepted(cands, tried, executable) && (tried < |cands| ==> cands[tried] in executable)
      && r == (if tried < |cands| then Found(cands[tried]) else NotFound)
      && env[..] == Written(old(env[..]), Cursor(old(env[..]), tried + 1))
  {
    ghost var s := env[..];
    ghost var dirs := Split(s);
    ghost var cands := Candidates(s, token);
    assert Written(s, Cursor(s, 0)) == s;
    var dir, save := NextDirectory(env, 0, s, 0);
    ghost var n := 1;
    while dir.Some?
      invariant 1 <= n <= |dirs| + 1
      invariant save == Cursor(s, n)
      invariant env[..] == Written(s, save)
      invariant dir == Nth(s, n - 1)
      invariant NoneAccepted(cands, n - 1, executable)
      decreases |dirs| + 1 - n
    {
      var candidate := Candidate(dir.value, token);
      NthCandidate(s, token, n - 1);
      if candidate in executable {
        r, tried := Found(candidate), n - 1;
        break;
      }
      NoneAcceptedStep(cands, executable, n - 1);
      dir, save := NextDirectory(env, save, s, n);
      n := n + 1;
    }
    if dir.None? {
      r, tried := NotFound, n - 1;
    }
    assert tried + 1 == n;
    assert tried <= |cands| && NoneAccepted(cands, tried, executable) && (tried < |cands| ==> cands[tried] in executable);
    assert r == (if tried < |cands| then Found(cands[tried]) else NotFound);
    assert Cursor(s, tried + 1) == save;
  }

  /**
   * The resolution exactly as exec_boilerplate does it, PATH walk on the
   * environment included: afterwards the environment's PATH reads as its
   * first directory only.
   */
  method ResolveInPlace(token: string, env: array<char>, executable: set<string>) returns (r: Resolution)
    modifies env
    ensures r == Resolve(token, old(env[..]), executable)
    ensures IsPathShaped(token) ==> env[..] == old(env[..])
    ensures !IsPathShaped(token) ==> Split(env[..]) == FirstOnly(Split(old(env[..])))
  {
    if IsPathShaped(token) {
      return Found(token);
    }
    ghost var s := env[..];
    ghost var tried;
    r, tried := WalkPath(token, env, executable);
    WalkResolves(token, s, executable, tried, r, env[..]);
  }

  /** A finished walk gives Resolve's answer and leaves PATH reading as its first directory. */
  lemma WalkResolves(token: string, s: seq<char>, executable: set<string>, tried: nat, r: Resolution, after: seq<char>)
    requires !IsPathShaped(token)
    requires var cands := Candidates(s, token);
      tried <= |cands| && NoneAccepted(cands, tried, executable) && (tried < |cands| ==> cands[tried] in executable)
      && r == (if tried < |cands| then Found(cands[tried]) else NotFound)
      && after == Written(s, Cursor(s, tried + 1))
    ensures r == Resolve(token, s, executable)
    ensures Split(after) == FirstOnly(Split(s))
  {
    ResolveStopsAt(token, s, executable, tried);
    SearchLeavesFirstDirectory(s, tried + 1);
  }

  /**
   * What the in-place walk costs later lookups: once PATH reads as its first
   * directory only, a command that lives in the second directory (and not in
   * the first) is no longer found, though the PATH the shell started with
   * finds it.
   */
  lemma TruncatedPathHidesLaterDirectories(s: seq<char>, after: seq<char>, token: string, executable: set<string>)
    requires Split(after) == FirstOnly(Split(s))
    requires !IsPathShaped(token) && |Split(s)| >= 2
    requires Candidate(Split(s)[0], token) !in executable && Candidate(Split(s)[1], token) in executable
    ensures Resolve(token, s, executable) == Found(Candidate(Split(s)[1], token))
    ensures Resolve(token, after, executable) == NotFound
  {
    var cands := Candidates(s, token);
    FirstExecIs(cands, executable, 1);
    assert Candidates(after, token) == [Candidate(Split(s)[0], token)];
  }

  /**
   * The concrete case: PATH "/usr/bin:/bin" finds an `ls` that lives in /bin
   * only (ResolveLsExample); once a search has written NUL over the ':' the
   * same lookup fails.
   */
  lemma LsLostAfterSearch()
    ensures Resolve("ls", "/usr/bin" + [NUL] + "/bin", {"/bin/ls"}) == NotFound
  {
    var d := "/usr/bin";
    assert Sep !in d && NUL !in d;
    SplitStopsAtNul(d, "/bin");
    assert Candidate(d, "ls") == "/usr/bin/ls";
    ResolveSingle("ls", d + [NUL] + "/bin", d, {"/bin/ls"});
  }

  /**
   * The resolution with the walk run on a private copy of the PATH value
   * (strdup before strtok): same answer, and the environment is left as it was.
   */
  method ResolveCommand(token: string, env: array<char>, executable: set<string>) returns (r: Resolution)
    ensures r == Resolve(token, env[..], executable)
  {
    var copy := new char[env.Length];
    forall i | 0 <= i < env.Length {
      copy[i] := env[i];
    }
    assert copy[..] == env[..];
    r := ResolveInPlace(token, copy, executable);
  }
}
