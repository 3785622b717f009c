// strtok(…, ":") over a writable buffer, as the PATH walk of the shell calls it:
// the first call starts at the beginning of the buffer, each later call resumes
// where the previous one stopped (strtok keeps that position in hidden static
// storage; here it is passed in and handed back explicitly).

module Strtok {
  import opened Wrappers
  import opened SearchPath

  /** What one strtok call hands back and leaves behind. */
  datatype Step = Step(token: Option<string>, buf: seq<char>, save: nat)

  /** A position a strtok call may resume from: the start, the end, a terminator, or just past a delimiter. */
  predicate Resumable(s: seq<char>, q: nat)
  {
    q == 0 || q == |s| || (q < |s| && s[q] == NUL) || (0 < q <= |s| && s[q - 1] == Sep)
  }

  /** Where the run of delimiters starting at `p` ends (what strspn measures). */
  function SkipFrom(s: seq<char>, p: nat): (a: nat)
    requires p <= |s|
    ensures p <= a <= |s|
    ensures forall i :: p <= i < a ==> s[i] == Sep
    ensures a < |s| ==> s[a] != Sep
    decreases |s| - p
  {
    if p < |s| && s[p] == Sep then SkipFrom(s, p + 1) else p
  }

  /** Where the field starting at `a` ends: the next delimiter or terminator (what strpbrk finds). */
  function FieldEnd(s: seq<char>, a: nat): (b: nat)
    requires a <= |s|
    ensures a <= b <= |s|
    ensures forall i :: a <= i < b ==> s[i] != Sep && s[i] != NUL
    ensures b < |s| ==> s[b] == Sep || s[b] == NUL
    decreases |s| - a
  {
    if a < |s| && s[a] != Sep && s[a] != NUL then FieldEnd(s, a + 1) else a
  }

  /** Where a strtok call resuming at `p` saves its position: past the delimiter that closes the field it finds, else at the field's end. */
  function Resume(s: seq<char>, p: nat): (q: nat)
    requires p <= |s|
    ensures p <= q <= |s|
  {
    var a := SkipFrom(s, p);
    if a == |s| || s[a] == NUL then a
    else
      var b := FieldEnd(s, a);
      if b < |s| && s[b] == Sep then b + 1 else b
  }

  /**
   * One call of strtok(…, ":") resuming at `p`: skip delimiters; at the
   * terminator there is no field; otherwise the field runs up to the next
   * delimiter or terminator, and a delimiter that closes it is overwritten
   * with NUL so that the field reads as a C string of its own.
   */
  function Strtok(s: seq<char>, p: nat): (r: Step)
    requires p <= |s|
    ensures |r.buf| == |s| && r.save == Resume(s, p)
  {
    var a := SkipFrom(s, p);
    if a == |s| || s[a] == NUL then Step(None, s, a)
    else
      var b := FieldEnd(s, a);
      if b < |s| && s[b] == Sep then Step(Some(s[a..b]), s[b := NUL], b + 1)
      else Step(Some(s[a..b]), s, b)
  }

  /**
   * What one call writes: nothing, or NUL over the single delimiter just
   * before the position it saves, which lies past where it started.
   */
  lemma StrtokWritesOnce(s: seq<char>, p: nat)
    requires p <= |s|
    ensures var r := Strtok(s, p);
      r.buf == s || (p < r.save && s[r.save - 1] == Sep && r.buf == s[r.save - 1 := NUL])
    ensures Strtok(s, p).token == None ==> Strtok(s, p).buf == s
  {
  }

  lemma SkipFromIs(s: seq<char>, p: nat, a: nat)
    requires p <= a <= |s|
    requires forall i :: p <= i < a ==> s[i] == Sep
    requires a < |s| ==> s[a] != Sep
    ensures SkipFrom(s, p) == a
  {
  }

  lemma FieldEndIs(s: seq<char>, a: nat, b: nat)
    requires a <= b <= |s|
    requires forall i :: a <= i < b ==> s[i] != Sep && s[i] != NUL
    requires b < |s| ==> s[b] == Sep || s[b] == NUL
    ensures FieldEnd(s, a) == b
  {
  }

  /** strtok(…, ":") itself: strspn over the delimiters, strpbrk to the end of the field, NUL over the delimiter that closes it. */
  method Next(buf: array<char>, from: nat) returns (token: Option<string>, save: nat)
    requires from <= buf.Length
    modifies buf
    ensures Step(token, buf[..], save) == Strtok(old(buf[..]), from)
  {
    ghost var s := buf[..];
    var a := from;
    while a < buf.Length && buf[a] == Sep
      invariant from <= a <= buf.Length
      invariant forall i :: from <= i < a ==> buf[i] == Sep
    {
      a := a + 1;
    }
    SkipFromIs(s, from, a);
    if a == buf.Length || buf[a] == NUL {
      return None, a;
    }
    var b := a;
    while b < buf.Length && buf[b] != Sep && buf[b] != NUL
      invariant a <= b <= buf.Length
      invariant forall i :: a <= i < b ==> buf[i] != Sep && buf[i] != NUL
    {
      b := b + 1;
    }
    FieldEndIs(s, a, b);
    token := Some(buf[a..b]);
    if b < buf.Length && buf[b] == Sep {
      buf[b] := NUL;
      save := b + 1;
    } else {
      save := b;
    }
  }

  /** The position strtok has saved after `n` calls over `s`, the first one starting at 0. */
  function Cursor(s: seq<char>, n: nat): (q: nat)
    ensures q <= |s|
  {
    if n == 0 then 0 else Resume(s, Cursor(s, n - 1))
  }

  /** Every call leaves strtok at a position a later call may resume from. */
  lemma ResumeResumable(s: seq<char>, p: nat)
    requires p <= |s|
    ensures Resumable(s, Resume(s, p))
  {
  }

  lemma CursorResumable(s: seq<char>, n: nat)
    ensures Resumable(s, Cursor(s, n))
  {
    if n > 0 {
      ResumeResumable(s, Cursor(s, n - 1));
    }
  }

  /** The field the n-th call (counting from 0) of a strtok walk over `s` ought to return. */
  function Nth(s: seq<char>, n: nat): Option<string>
  {
    if n < |Split(s)| then Some(Split(s)[n]) else None
  }

  /** A delimiter that closes a field: strtok overwrites it when it hands that field out. */
  predicate EndsField(s: seq<char>, i: nat)
    requires i < |s|
  {
    s[i] == Sep && 0 < i && s[i - 1] != Sep
  }

  /** `s` once a strtok walk has got past `stop`: every delimiter before it that closes a field reads NUL. */
  function Written(s: seq<char>, stop: nat): (w: seq<char>)
    ensures |w| == |s|
    ensures forall i :: 0 <= i < |s| ==> w[i] == if i < stop && EndsField(s, i) then NUL else s[i]
  {
    WrittenFrom(s, stop, 0)
  }

  /** Written, from position `k` of `s` on. */
  function WrittenFrom(s: seq<char>, stop: nat, k: nat): (w: seq<char>)
    requires k <= |s|
    ensures |w| == |s| - k
    ensures forall i :: k <= i < |s| ==> w[i - k] == if i < stop && EndsField(s, i) then NUL else s[i]
    decreases |s| - k
  {
    if k == |s| then [] else [if k < stop && EndsField(s, k) then NUL else s[k]] + WrittenFrom(s, stop, k + 1)
  }

  /** What the directory list shows after a search: its first directory, if it has one. */
  function FirstOnly(dirs: seq<string>): seq<string>
  {
    if dirs == [] then [] else [dirs[0]]
  }

  /** Delimiters in front of a field yield nothing. */
  lemma {:induction false} SplitFrom(s: seq<char>, p: nat)
    requires p <= |s|
    ensures Split(s[p..]) == Split(s[SkipFrom(s, p)..])
    decreases |s| - p
  {
    if p < |s| && s[p] == Sep {
      assert s[p..][1..] == s[p + 1..];
      SplitFrom(s, p + 1);
    }
  }

  /** A field starting at `a` is the first directory of s[a..]. */
  lemma FieldSplit(s: seq<char>, a: nat)
    requires a < |s| && s[a] != Sep && s[a] != NUL
    ensures Split(s[a..]) == [s[a..FieldEnd(s, a)]] + Split(s[FieldEnd(s, a)..])
  {
    var b := FieldEnd(s, a);
    FieldLenIs(s[a..], b - a);
    assert s[a..][..b - a] == s[a..b];
    assert s[a..][b - a..] == s[b..];
  }

  /** The directory list without its first entry (empty stays empty). */
  function Tail(dirs: seq<string>): seq<string>
  {
    if dirs == [] then [] else dirs[1..]
  }

  /** The directory list after `n` calls have each taken one entry off its front. */
  function Drop(dirs: seq<string>, n: nat): seq<string>
  {
    if n == 0 then dirs else Tail(Drop(dirs, n - 1))
  }

  lemma {:induction false} DropIs(dirs: seq<string>, n: nat)
    ensures Drop(dirs, n) == if n <= |dirs| then dirs[n..] else []
  {
    if n > 0 {
      DropIs(dirs, n - 1);
      if n <= |dirs| {
        assert dirs[n - 1..][1..] == dirs[n..];
      }
    }
  }

  /** Nothing is left to split at the end of the buffer or at a terminator. */
  lemma SplitAtEnd(s: seq<char>, a: nat)
    requires a <= |s| && (a == |s| || s[a] == NUL)
    ensures Split(s[a..]) == []
  {
  }

  /** A delimiter in front of the rest yields nothing of its own. */
  lemma SplitAtSep(s: seq<char>, b: nat)
    requires b < |s| && s[b] == Sep
    ensures Split(s[b..]) == Split(s[b + 1..])
  {
    assert s[b..][1..] == s[b + 1..];
  }

  /** The call resuming at `p` returns the first directory of s[p..] and resumes where the rest begin. */
  lemma ResumeSplit(s: seq<char>, p: nat)
    requires p <= |s|
    ensures Strtok(s, p).token == if Split(s[p..]) == [] then None else Some(Split(s[p..])[0])
    ensures Split(s[Resume(s, p)..]) == Tail(Split(s[p..]))
  {
    SplitFrom(s, p);
    var a := SkipFrom(s, p);
    if a == |s| || s[a] == NUL {
      SplitAtEnd(s, a);
      assert Resume(s, p) == a;
    } else {
      var b := FieldEnd(s, a);
      FieldSplit(s, a);
      var rest := Split(s[b..]);
      assert Split(s[p..]) == [s[a..b]] + rest;
      assert Tail([s[a..b]] + rest) == rest by {
        assert ([s[a..b]] + rest)[1..] == rest;
      }
      if b < |s| && s[b] == Sep {
        SplitAtSep(s, b);
        assert Resume(s, p) == b + 1;
      } else {
        SplitAtEnd(s, b);
        assert Resume(s, p) == b;
      }
    }
  }

  /** After n calls, the directories still to come are those after the n-th. */
  lemma {:induction false} CursorSplit(s: seq<char>, n: nat)
    ensures Split(s[Cursor(s, n)..]) == Drop(Split(s), n)
  {
    if n == 0 {
      assert s[0..] == s;
    } else {
      var c := Cursor(s, n - 1);
      CursorSplit(s, n - 1);
      assert Split(s[Resume(s, c)..]) == Tail(Split(s[c..])) by {
        ResumeSplit(s, c);
      }
    }
  }

  /** The n-th call returns the n-th directory of Split, and None once they are used up. */
  lemma CursorToken(s: seq<char>, n: nat)
    ensures Strtok(s, Cursor(s, n)).token == Nth(s, n)
  {
    CursorSplit(s, n);
    ResumeSplit(s, Cursor(s, n));
    DropIs(Split(s), n);
  }

  lemma {:induction false} CursorGrows(s: seq<char>, m: nat, n: nat)
    requires m <= n
    ensures Cursor(s, m) <= Cursor(s, n)
    decreases n
  {
    if m < n {
      CursorGrows(s, m, n - 1);
    }
  }

  /** Moving `stop` over positions that close no field changes nothing. */
  lemma WrittenSame(s: seq<char>, c: nat, q: nat)
    requires c <= q
    requires forall i :: c <= i < q && i < |s| ==> !EndsField(s, i)
    ensures Written(s, q) == Written(s, c)
  {
    var w, v := Written(s, c), Written(s, q);
    assert forall i :: 0 <= i < |s| ==> v[i] == w[i];
  }

  /** Moving `stop` past one closing delimiter writes NUL over that delimiter only. */
  lemma WrittenOneMore(s: seq<char>, c: nat, b: nat)
    requires c <= b < |s| && EndsField(s, b)
    requires forall i :: c <= i < b ==> !EndsField(s, i)
    ensures Written(s, b + 1) == Written(s, c)[b := NUL]
  {
    var w, v := Written(s, c)[b := NUL], Written(s, b + 1);
    assert forall i :: 0 <= i < |s| ==> v[i] == w[i];
  }

  /** The delimiters a call resuming at a resumable `c` skips close no field. */
  lemma SkippedCloseNothing(s: seq<char>, c: nat)
    requires c <= |s| && Resumable(s, c)
    ensures forall i :: c <= i < SkipFrom(s, c) ==> !EndsField(s, i)
  {
    forall i | c <= i < SkipFrom(s, c) ensures !EndsField(s, i) {
      if i > c { assert s[i - 1] == Sep; }
    }
  }

  /**
   * The walk step: a call resuming at `c`, on the buffer the earlier calls
   * have written, behaves as it would on the untouched buffer and writes
   * exactly one more closing delimiter (if there is one).
   */
  lemma WrittenStep(s: seq<char>, c: nat)
    requires c <= |s| && Resumable(s, c)
    ensures Strtok(Written(s, c), c) == Step(Strtok(s, c).token, Written(s, Resume(s, c)), Resume(s, c))
  {
    var w := Written(s, c);
    var a := SkipFrom(s, c);
    SkippedCloseNothing(s, c);
    SkipFromIs(w, c, a);
    if a == |s| || s[a] == NUL {
      WrittenSame(s, c, a);
    } else {
      var b := FieldEnd(s, a);
      FieldEndIs(w, a, b);
      assert w[a..b] == s[a..b];
      assert forall i :: c <= i < b ==> !EndsField(s, i);
      if b < |s| && s[b] == Sep {
        assert EndsField(s, b);
        WrittenOneMore(s, c, b);
      } else {
        WrittenSame(s, c, b);
      }
    }
  }

  /** The n-th call of the walk, on the buffer the earlier calls have written, returns the n-th directory. */
  lemma NextOnWritten(s: seq<char>, n: nat)
    ensures Strtok(Written(s, Cursor(s, n)), Cursor(s, n))
         == Step(Nth(s, n), Written(s, Cursor(s, n + 1)), Cursor(s, n + 1))
  {
    CursorToken(s, n);
    CursorResumable(s, n);
    WrittenStep(s, Cursor(s, n));
  }

  /** Written leaves the leading delimiters and the first field as they are. */
  lemma WrittenLead(s: seq<char>, stop: nat)
    ensures SkipFrom(Written(s, stop), 0) == SkipFrom(s, 0)
    ensures Split(Written(s, stop)) == Split(Written(s, stop)[SkipFrom(s, 0)..])
  {
    var w := Written(s, stop);
    var a := SkipFrom(s, 0);
    assert forall i :: 0 <= i < a ==> !EndsField(s, i) by {
      forall i | 0 <= i < a ensures !EndsField(s, i) {
        if i > 0 { assert s[i - 1] == Sep; }
      }
    }
    SkipFromIs(w, 0, a);
    assert w[0..] == w;
    SplitFrom(w, 0);
  }

  /** Once the walk is past the first field, the buffer read as a C string holds that field only. */
  lemma WrittenKeepsFirst(s: seq<char>, stop: nat)
    requires Resume(s, 0) <= stop
    ensures Split(Written(s, stop)) == FirstOnly(Split(s))
  {
    var w := Written(s, stop);
    var a := SkipFrom(s, 0);
    WrittenLead(s, stop);
    assert s[0..] == s;
    SplitFrom(s, 0);
    if a == |s| || s[a] == NUL {
      assert w[a..] == [] || w[a..][0] == NUL;
    } else {
      WrittenKeepsField(s, stop, a);
    }
  }

  lemma WrittenKeepsField(s: seq<char>, stop: nat, a: nat)
    requires a < |s| && s[a] != Sep && s[a] != NUL
    requires var b := FieldEnd(s, a); b < |s| && s[b] == Sep ==> b < stop
    ensures Split(Written(s, stop)[a..]) == [Split(s[a..])[0]]
  {
    var w := Written(s, stop);
    var b := FieldEnd(s, a);
    WrittenFieldIntact(s, stop, a);
    FieldEndIs(w, a, b);
    FieldSplit(w, a);
    SplitAtEnd(w, b);
    FieldSplit(s, a);
  }

  /** Written leaves a field as it is and, once past it, shows a terminator after it. */
  lemma WrittenFieldIntact(s: seq<char>, stop: nat, a: nat)
    requires a < |s| && s[a] != Sep && s[a] != NUL
    requires var b := FieldEnd(s, a); b < |s| && s[b] == Sep ==> b < stop
    ensures var w, b := Written(s, stop), FieldEnd(s, a);
      w[a..b] == s[a..b] && (b < |s| ==> w[b] == NUL)
      && forall i :: a <= i < b ==> w[i] != Sep && w[i] != NUL
  {
    var w := Written(s, stop);
    var b := FieldEnd(s, a);
    if b < |s| && s[b] == Sep {
      assert EndsField(s, b);
    }
    assert w[a..b] == s[a..b];
  }

  /**
   * After any search that made at least one strtok call over `s`, the buffer
   * read as a C string holds one directory at most: the first.
   */
  lemma SearchLeavesFirstDirectory(s: seq<char>, n: nat)
    requires n >= 1
    ensures Split(Written(s, Cursor(s, n))) == FirstOnly(Split(s))
  {
    CursorGrows(s, 1, n);
    WrittenKeepsFirst(s, Cursor(s, n));
  }
}
