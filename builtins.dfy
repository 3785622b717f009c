// exec_boilerplate after the lookup, and the two built-ins that take arguments
// (shell.c): `exec`, which runs a command in place of the shell, and `cd`.

module Builtins {
  import opened Wrappers
  import opened Resolver

  /**
   * How a command ends as far as the shell can tell: with a status, or with
   * the process image replaced by the program at `path`, started with `argv`.
   */
  datatype Outcome = Status(code: int) | Replaced(path: string, argv: seq<string>)

  /** The argument vector as execve reads it: each word, then the NULL that ends the list. */
  function Terminated(argv: seq<string>): (v: seq<Option<string>>)
  {
    seq(|argv|, i requires 0 <= i < |argv| => Some(argv[i])) + [None]
  }

  /** The argument count execve sees: the number of entries before the first NULL. */
  function ArgCount(v: seq<Option<string>>): (n: nat)
    ensures n <= |v|
    ensures forall i :: 0 <= i < n ==> v[i].Some?
    ensures n < |v| ==> v[n] == None
  {
    if v == [] || v[0] == None then 0 else 1 + ArgCount(v[1..])
  }

  /** The words before the first NULL. */
  function Words(v: seq<Option<string>>): (w: seq<string>)
    ensures |w| == ArgCount(v)
  {
    if v == [] || v[0] == None then [] else [v[0].value] + Words(v[1..])
  }

  /** A NULL-terminated vector reads back as exactly the words it was built from. */
  lemma {:induction false} TerminatedReadsBack(argv: seq<string>)
    ensures ArgCount(Terminated(argv)) == |argv|
    ensures Words(Terminated(argv)) == argv
  {
    if argv != [] {
      assert Terminated(argv)[1..] == Terminated(argv[1..]);
      TerminatedReadsBack(argv[1..]);
      assert argv == [argv[0]] + argv[1..];
    }
  }

  /**
   * The eargv copy: one slot more than there are words, the words in order,
   * and NULL in the last slot.
   */
  method ExecArgv(argv: seq<string>) returns (eargv: array<Option<string>>)
    ensures fresh(eargv)
    ensures eargv.Length == |argv| + 1
    ensures forall i :: 0 <= i < |argv| ==> eargv[i] == Some(argv[i])
    ensures eargv[|argv|] == None
    ensures eargv[..] == Terminated(argv)
  {
    eargv := new Option<string>[|argv| + 1];
    for i := 0 to |argv|
      invariant forall j :: 0 <= j < i ==> eargv[j] == Some(argv[j])
    {
      eargv[i] := Some(argv[i]);
    }
    eargv[|argv|] := None;
    assert eargv[..] == Terminated(argv);
  }

  /**
   * exec_boilerplate: resolve the first word; when nothing is found the status
   * is 1, and otherwise the process becomes the program found, started with
   * the same words. The lookup runs on a copy of PATH (see Resolver.ResolveCommand).
   */
  method ExecBoilerplate(argv: seq<string>, env: array<char>, executable: set<string>) returns (outcome: Outcome)
    requires |argv| >= 1
    ensures Resolve(argv[0], env[..], executable) == NotFound <==> outcome == Status(1)
    ensures Resolve(argv[0], env[..], executable).Found? ==>
      outcome == Replaced(Resolve(argv[0], env[..], executable).path, argv)
    ensures IsPathShaped(argv[0]) ==> outcome == Replaced(argv[0], argv)
  {
    var r := ResolveCommand(argv[0], env, executable);
    if r.NotFound? {
      return Status(1);
    }
    var eargv := ExecArgv(argv);
    outcome := Replaced(r.path, argv);
  }

  /** The words `exec` hands on: everything after its own name. */
  function ExecArguments(argv: seq<string>): (args: seq<string>)
    requires |argv| >= 2
    ensures |args| == |argv| - 1 && args[0] == argv[1]
    ensures [argv[0]] + args == argv
  {
    argv[1..]
  }

  /**
   * The `exec` built-in: the command is its second word, and the program that
   * replaces the shell gets the words from there on.
   */
  method Exec(argv: seq<string>, env: array<char>, executable: set<string>) returns (outcome: Outcome)
    requires |argv| >= 2
    ensures Resolve(argv[1], env[..], executable) == NotFound <==> outcome == Status(1)
    ensures Resolve(argv[1], env[..], executable).Found? ==>
      outcome == Replaced(Resolve(argv[1], env[..], executable).path, argv[1..])
  {
    outcome := ExecBoilerplate(ExecArguments(argv), env, executable);
  }

  /**
   * The `cd` built-in, with `home` the value of HOME (None when it is unset)
   * and `chdir` telling whether changing to a directory succeeds. More than
   * one argument is refused; no argument means HOME.
   */
  function Cd(argv: seq<string>, home: Option<string>, chdir: string -> bool): (status: int)
    requires |argv| >= 1
    ensures status == 0 || status == 1
    ensures |argv| > 2 ==> status == 1
    ensures |argv| == 1 ==> (status == 0 <==> home.Some? && chdir(home.value))
    ensures |argv| == 2 ==> (status == 0 <==> chdir(argv[1]))
  {
    if |argv| > 2 then 1
    else
      var target := if |argv| == 1 then home else Some(argv[1]);
      match target
      case None => 1
      case Some(dir) => if chdir(dir) then 0 else 1
  }

  /** With too many arguments `cd` never asks for a directory change: its answer is the same whatever chdir would do. */
  lemma CdTooManyTouchesNothing(argv: seq<string>, home: Option<string>, chdir1: string -> bool, chdir2: string -> bool)
    requires |argv| > 2
    ensures Cd(argv, home, chdir1) == Cd(argv, home, chdir2) == 1
  {
  }

  /** `cd` asks for a change to exactly one directory: HOME with no argument, the argument otherwise. */
  lemma CdDependsOnTargetOnly(argv: seq<string>, home: Option<string>, chdir1: string -> bool, chdir2: string -> bool)
    requires 1 <= |argv| <= 2
    requires |argv| == 1 && home.Some? ==> chdir1(home.value) == chdir2(home.value)
    requires |argv| == 2 ==> chdir1(argv[1]) == chdir2(argv[1])
    ensures Cd(argv, home, chdir1) == Cd(argv, home, chdir2)
  {
  }
}
