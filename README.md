# tsh command resolution and built-ins, in Dafny

`tsh` is a small interactive shell (shell.c). This project models the parts of
it that decide what the shell actually runs:

- **exec_boilerplate** (shell.c:91-125). A command word that starts with `.`,
  `/` or `~` is taken as a path as it is. Any other word is looked up with a
  `strtok(…, ":")` walk over the value of `PATH`. The walk tries
  `dir + "/" + word` for each directory in order, and the first candidate that
  passes `access(…, X_OK)` wins. A word that is found nowhere gives status 1.
  Otherwise the NULL-terminated `eargv` copy of the arguments is built and
  the process image is replaced.
- **the `exec` built-in** (shell.c:87-89): runs exec_boilerplate on the words
  after its own name.
- **the `cd` built-in** (shell.c:58-74). More than one argument is refused
  with status 1 and no directory change. No argument means `$HOME`; one
  argument names the target. Status 0 or 1 follows from what `chdir` answers.

Modules:

- `SearchPath` (search_path.dfy): the PATH value as a C string (the characters
  before the first NUL) and `Split`, the directories a strtok walk hands out,
  with empty fields skipped. `Fields`/`Join` are an independent reference
  splitting; `Split` is proved to be its non-empty part.
- `Strtok` (strtok.dfy): one strtok call. It is a function (`Strtok`) and an
  array method (`Next`) that skips delimiters, finds the end of the field and
  writes NUL over the delimiter that closes it. The strtok walk is also
  modelled: `Cursor` is the saved position after n calls, and `Written` is the
  buffer after the calls so far. Both are proved against `Split`.
- `Resolver` (resolver.dfy): the resolution rule `Resolve` and the walk as
  shell.c runs it over the environment's own PATH buffer
  (`WalkPath`, `ResolveInPlace`). `ResolveCommand` runs the same walk on a
  copy.
- `Builtins` (builtins.dfy): `ExecArgv`, `ExecBoilerplate`, `Exec`, `Cd`.

Three OS services become parameters:

- `access(path, X_OK)` is the set `executable` of paths it accepts;
- `getenv("HOME")` is an `Option<string>`;
- `chdir` is a function `string -> bool` telling whether the change succeeds.

The PATH value is an `array<char>`: the memory `getenv("PATH")` points into.

The comment on `genvp` (shell.c:10) says the environment is set in `main`
"and then not touched". The lookup code does touch it: strtok runs directly on
the string `getenv` returns, and that string is part of the environment later
handed to `execve`. `Resolver.ResolveInPlace` models the lookup as written,
writes included. `ExecBoilerplate` and `Exec` use the corrected lookup on a copy
(see Findings and Left out).

## Model

| member | source | states |
|---|---|---|
| SearchPath.Split | shell.c:102 | The directories the strtok walk hands out, in order; none of them is empty (SplitSkipsEmptyFields relates them to the ':'-separated pieces). |
| SearchPath.CStringStopsAtNul | shell.c:98 | The text read from the PATH buffer is a prefix of it, holds no NUL, and is followed by a NUL unless the buffer ends. |
| SearchPath.SplitDirsClean | shell.c:102 | Every directory the walk hands out is non-empty and holds neither ':' nor NUL. |
| SearchPath.FieldsJoin | shell.c:102 | The reference splitting on ':' is faithful: joining its pieces with ':' gives back the PATH text. |
| SearchPath.SplitSkipsEmptyFields | shell.c:102 | The directories the strtok walk yields are exactly the non-empty ':'-separated pieces of PATH, in order (empty fields are skipped). |
| SearchPath.SplitEmptyIff | shell.c:102 | The walk yields no directory if and only if the PATH text is empty or made of ':' only. |
| SearchPath.SplitPrepend | shell.c:102 | A directory written in front of PATH, followed by ':', becomes the first directory searched and the rest follow unchanged. |
| Strtok.StrtokWritesOnce | shell.c:102 | One strtok call writes at most one character. Either the buffer is left as it was, or NUL replaces the single ':' just before the saved position, past where the call started. A call that finds no field writes nothing. |
| Strtok.Next | shell.c:102 | The in-place strtok on an array returns exactly the token, new buffer and saved position that the functional Strtok gives. |
| Strtok.ResumeSplit | shell.c:102 | A call resuming at p returns the first directory of the rest of the buffer, or nothing when none is left; it resumes where the remaining directories begin. |
| Strtok.CursorSplit | shell.c:102 | After n calls, the directories still to come are those of Split after the n-th. |
| Strtok.CursorToken | shell.c:102 | The n-th call of the walk returns the n-th directory of Split, and NULL once they are used up. |
| Strtok.WrittenStep | shell.c:102 | A call on the buffer the earlier calls have written behaves as on the original buffer, and overwrites exactly one more closing ':' with NUL. |
| Strtok.NextOnWritten | shell.c:102 | The n-th call of the walk, on the buffer as the walk leaves it, returns the n-th directory and leaves the buffer with one more ':' written over. |
| Strtok.WrittenKeepsFirst | shell.c:98-102 | Once the walk has got past the first directory, the buffer read as a C string yields that directory only. |
| Strtok.SearchLeavesFirstDirectory | shell.c:98-110 | After a search that made at least one strtok call, PATH reads as its first directory only (nothing when it had none). |
| Resolver.ResolvesToItselfIff | shell.c:94-96 | The marker test (`IsPathShaped`: first character '.', '/' or '~') decides it. Resolution gives back the word itself exactly when the word is path-shaped, whatever PATH and the check say. |
| Resolver.Candidates | shell.c:103-105 | One candidate per PATH directory, in PATH order, each being directory + "/" + word. |
| Resolver.FirstMatch | shell.c:106-110 | The first-match rule: NotFound exactly when no candidate passes the check; otherwise an accepted candidate with no accepted candidate before it. |
| Resolver.Resolve | shell.c:91-115 | A path-shaped word resolves to itself. Otherwise the result is NotFound exactly when no directory's candidate is executable, and else the candidate of some directory that is executable with no earlier directory's candidate executable. |
| Resolver.ResolvePrepend | shell.c:102-110 | The search tries directories in order: with d in front, d's candidate wins when executable, and otherwise the rest of PATH decides. |
| Resolver.ResolveStopsAt | shell.c:106-110 | A walk that rejected every candidate before k and accepts candidate k resolves to candidate k; when it rejected all of them the result is NotFound. |
| Resolver.NoBareCandidate | shell.c:102-105 | No candidate is "/" + word: an empty PATH field never produces a candidate, and every candidate is longer than "/" + word. |
| Resolver.EmptyPathNotFound | shell.c:102-115 | An empty PATH, or one of ':' only, gives zero candidates, so a word that is not path-shaped is not found. |
| Resolver.ResolveLsExample | shell.c:102-110 | With PATH "/usr/bin:/bin", `ls` comes from /usr/bin when it is there, from /bin otherwise, and is not found when in neither. |
| Resolver.NextDirectory | shell.c:102 | One call of the walk on the environment buffer returns the n-th directory and advances the saved position and the written buffer by one call. |
| Resolver.WalkPath | shell.c:98-110 | The loop stops at index `tried`, the first accepted candidate or the end. No earlier candidate is executable. The result is that candidate, or NotFound when none is accepted. The buffer holds every write of the calls made. |
| Resolver.ResolveInPlace | shell.c:91-112 | The resolution as written returns Resolve's answer. A path-shaped word leaves PATH untouched; any other word leaves PATH reading as its first directory only. |
| Resolver.TruncatedPathHidesLaterDirectories | shell.c:98-102 | Once PATH reads as its first directory, a command found only in the second directory is no longer found, though the original PATH finds it. |
| Resolver.ResolveSingle | shell.c:102-115 | A PATH holding one directory yields that directory's candidate when executable, and NotFound otherwise. |
| Resolver.LsLostAfterSearch | shell.c:98-110 | With ls only in /bin, the lookup over "/usr/bin" NUL "/bin" (PATH "/usr/bin:/bin" after one search) is NotFound. |
| Resolver.ResolveCommand | shell.c:91-115 | The walk run on a private copy of PATH gives exactly Resolve's answer, and the environment is not modified. |
| Builtins.TerminatedReadsBack | shell.c:117-121 | A NULL-terminated vector reads back, up to its NULL, as exactly the words it was built from, and its count is their number. |
| Builtins.ExecArgv | shell.c:117-120 | eargv is a newly allocated vector (it aliases no existing array) with argc + 1 slots; slot i holds argv[i], and the last slot is NULL. |
| Builtins.ExecBoilerplate | shell.c:91-124 | Status 1 exactly when resolution finds nothing. Otherwise the process becomes the resolved program, started with the same words. A path-shaped word is started as it is. |
| Builtins.ExecArguments | shell.c:87-88 | The words `exec` passes on are all its words but the first; the second word becomes the command. |
| Builtins.Exec | shell.c:87-89 | `exec` resolves its second word. Status 1 when that is not found; otherwise the shell is replaced by the program found, with the words from the second on. |
| Builtins.Cd | shell.c:58-74 | The status is 0 or 1. More than one argument gives 1. With no argument the status is 0 exactly when HOME is set and chdir to it succeeds; with one argument, exactly when chdir to it succeeds. |
| Builtins.CdTooManyTouchesNothing | shell.c:59-62 | With too many arguments the answer is 1, whatever chdir would do: no directory change is attempted. |
| Builtins.CdDependsOnTargetOnly | shell.c:63-72 | cd asks for one directory change only: HOME with no argument, the argument otherwise. Chdir functions that agree there give the same status. |

## Left out

- Process creation and replacement (shell.c:121-143): `fork`, `wait`, `execve`, `exit` and `unfound`. Image replacement is the `Replaced` outcome. `unfound`'s child runs exec_boilerplate, and its missing return value is not modelled.
- `main`, the command table and the line editor library (shell.c:32-56); the `dirs` built-in (shell.c:76-85), a `getcwd` plus `printf`.
- Messages printed with `printf` and `perror`.
- Builtins.ExecBoilerplate, Builtins.Exec: model the corrected lookup on a private copy of PATH (Resolver.ResolveCommand). In them a failed `exec` leaves the shell's PATH whole; the code as written cuts it down to its first directory (Resolver.ResolveInPlace, see Findings).
- Builtins.ExecBoilerplate: the code builds `eargv` and then hands `argv`, not `eargv`, to execve. The model starts the program with the words of `argv`. These match `eargv` only if the parser ends `argv` with NULL at `argc`; the parser library is not part of this model.
- Resolver.Candidate: the fixed `PATH_MAX` stack buffer `testpath` (shell.c:101-105) is not modelled; a candidate is the full concatenation. In the code the third argument of `strncat` bounds only the characters appended, not the buffer. A `dir + "/" + word` of `PATH_MAX` characters or more is therefore written past the end of `testpath`, and a directory of `PATH_MAX` characters or more leaves it without a terminating NUL after `strncpy`. Both are undefined behaviour that the model does not capture.
- A word with a '/' that does not start with '.', '/' or '~' is still searched in PATH, as the code does. A leading '~' is not expanded.
- An unset PATH (`getenv` returning NULL, then strtok(NULL) with no earlier call) is not modelled: the PATH buffer is always present.
- Builtins.Exec: requires at least two words. `exec` with no argument makes exec_boilerplate read `argv[0][0]` of a NULL word, which has no defined behaviour.
- Builtins.Cd: an unset HOME makes the code call chdir(NULL); the model gives status 1 without calling chdir.
- The strtok position kept in hidden static storage is passed in and handed back explicitly.

## Findings

| source | as written | input that shows it | evidently intended | confidence | as-written member | corrected member |
|---|---|---|---|---|---|---|
| shell.c:98-102 | strtok runs on the string getenv("PATH") returns, which lies inside the process environment. Every ':' that closes a directory it hands out becomes NUL, so after a search PATH reads as its first directory only. | PATH "/usr/bin:/bin", `ls` only in /bin. The built-in `exec nosuch` fails with status 1 and the shell goes on; PATH now reads "/usr/bin". Then `ls` is not found. Any program started afterwards sees the cut-down PATH, because execve receives `genvp` (shell.c:121). In `unfound`'s child the search writes into the child's copy of the environment before execve, so every program started through a PATH search runs with PATH cut to its first directory, the one just found included. | Search a copy of the PATH value and leave the environment as it was. | not executed | Resolver.ResolveInPlace | Resolver.ResolveCommand |

Resolver.TruncatedPathHidesLaterDirectories proves the effect for every PATH
with two or more directories. Resolver.LsLostAfterSearch proves it for the
input above. ExecBoilerplate uses the corrected Resolver.ResolveCommand.
