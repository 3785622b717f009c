// The PATH value as a C string, and the directories strtok(PATH, ":") hands out.

module Wrappers {
  datatype Option<T> = None | Some(value: T)
}

module SearchPath {
  /** The terminator of a C string. */
  const NUL: char := '\0'
  /** The delimiter between directories in PATH. */
  const Sep: char := ':'

  /** Length of the leading run of `t` that holds neither a delimiter nor the terminator. */
  function FieldLen(t: seq<char>): (n: nat)
    ensures n <= |t|
    ensures forall i :: 0 <= i < n ==> t[i] != Sep && t[i] != NUL
    ensures n < |t| ==> t[n] == Sep || t[n] == NUL
  {
    if t == [] || t[0] == Sep || t[0] == NUL then 0 else 1 + FieldLen(t[1..])
  }

  /** The text of a NUL-terminated buffer: everything before the first NUL. */
  function CString(t: seq<char>): (s: seq<char>)
    ensures |s| <= |t|
  {
    if t == [] || t[0] == NUL then [] else [t[0]] + CString(t[1..])
  }

  /** CString stops at the first NUL: it is a prefix of the buffer, holds no NUL, and a NUL follows it unless the buffer ends. */
  lemma {:induction false} CStringStopsAtNul(t: seq<char>)
    ensures CString(t) <= t
    ensures NUL !in CString(t)
    ensures |CString(t)| < |t| ==> t[|CString(t)|] == NUL
  {
    if t != [] && t[0] != NUL {
      CStringStopsAtNul(t[1..]);
      assert t == [t[0]] + t[1..];
    }
  }

  /**
   * The directories a strtok(…, ":") walk over `t` yields, in order: the
   * non-empty runs between delimiters, up to the terminator.
   */
  function Split(t: seq<char>): (dirs: seq<string>)
    ensures forall i :: 0 <= i < |dirs| ==> dirs[i] != []
    decreases |t|
  {
    if t == [] || t[0] == NUL then []
    else if t[0] == Sep then Split(t[1..])
    else
      var n := FieldLen(t);
      [t[..n]] + Split(t[n..])
  }

  /** Every directory Split yields is free of delimiters and of the terminator. */
  lemma {:induction false} SplitDirsClean(t: seq<char>)
    ensures forall i :: 0 <= i < |Split(t)| ==> Sep !in Split(t)[i] && NUL !in Split(t)[i]
    decreases |t|
  {
    if t == [] || t[0] == NUL {
    } else if t[0] == Sep {
      SplitDirsClean(t[1..]);
    } else {
      var n := FieldLen(t);
      SplitDirsClean(t[n..]);
      assert Sep !in t[..n] && NUL !in t[..n] by {
        forall i | 0 <= i < n ensures t[..n][i] != Sep && t[..n][i] != NUL {
        }
      }
    }
  }

  /** Reference definition: every piece of the C string between delimiters, empty ones included. */
  function Fields(t: seq<char>): (fs: seq<string>)
    ensures |fs| >= 1
    decreases |t|
  {
    var n := FieldLen(t);
    if n < |t| && t[n] == Sep then [t[..n]] + Fields(t[n + 1..]) else [t[..n]]
  }

  /** The pieces glued back together with the delimiter. */
  function Join(fs: seq<string>): string
    requires |fs| >= 1
  {
    if |fs| == 1 then fs[0] else fs[0] + [Sep] + Join(fs[1..])
  }

  /** The pieces that are not empty, in order. */
  function NonEmpty(fs: seq<string>): seq<string>
  {
    if fs == [] then [] else (if fs[0] == [] then [] else [fs[0]]) + NonEmpty(fs[1..])
  }

  /** Fields is a faithful splitting: joining the pieces gives back the C string. */
  lemma {:induction false} FieldsJoin(t: seq<char>)
    ensures Join(Fields(t)) == CString(t)
    decreases |t|
  {
    var n := FieldLen(t);
    CStringSplitAt(t);
    if n < |t| && t[n] == Sep {
      FieldsJoin(t[n + 1..]);
      JoinCons(t[..n], Fields(t[n + 1..]));
    } else {
      assert Fields(t) == [t[..n]];
    }
  }

  /** The C string of `t`, cut where the first field ends. */
  lemma {:induction false} CStringSplitAt(t: seq<char>)
    ensures var n := FieldLen(t);
      n < |t| && t[n] == Sep ==> CString(t) == t[..n] + [Sep] + CString(t[n + 1..])
    ensures var n := FieldLen(t);
      !(n < |t| && t[n] == Sep) ==> CString(t) == t[..n]
  {
    if t == [] || t[0] == NUL || t[0] == Sep {
    } else {
      var n := FieldLen(t);
      CStringSplitAt(t[1..]);
      assert t[1..][..n - 1] == t[1..n];
      assert [t[0]] + t[1..n] == t[..n];
      if n < |t| && t[n] == Sep {
        assert t[1..][n..] == t[n + 1..];
      }
    }
  }

  lemma JoinCons(f: string, fs: seq<string>)
    requires |fs| >= 1
    ensures Join([f] + fs) == f + [Sep] + Join(fs)
  {
    assert ([f] + fs)[1..] == fs;
  }

  /** strtok skips empty fields: Split keeps exactly the non-empty pieces of Fields. */
  lemma {:induction false} SplitSkipsEmptyFields(t: seq<char>)
    ensures Split(t) == NonEmpty(Fields(t))
    decreases |t|
  {
    var n := FieldLen(t);
    if t == [] || t[0] == NUL {
      assert Fields(t) == [[]];
    } else if t[0] == Sep {
      assert n == 0;
      SplitSkipsEmptyFields(t[1..]);
    } else {
      if n < |t| && t[n] == Sep {
        SplitSkipsEmptyFields(t[n + 1..]);
        assert t[n..][1..] == t[n + 1..];
      }
    }
  }

  /** A field, then a delimiter or the terminator: the field is the first directory. */
  lemma FieldLenIs(t: seq<char>, k: nat)
    requires k <= |t|
    requires forall i :: 0 <= i < k ==> t[i] != Sep && t[i] != NUL
    requires k < |t| ==> t[k] == Sep || t[k] == NUL
    ensures FieldLen(t) == k
  {
  }

  /** Split yields nothing exactly when the C string is made of delimiters only. */
  lemma {:induction false} SplitEmptyIff(t: seq<char>)
    ensures Split(t) == [] <==> forall i :: 0 <= i < |CString(t)| ==> CString(t)[i] == Sep
    decreases |t|
  {
    if t == [] || t[0] == NUL {
      assert CString(t) == [];
    } else if t[0] == Sep {
      SplitEmptyIff(t[1..]);
      assert CString(t) == [Sep] + CString(t[1..]);
      assert forall i :: 0 < i < |CString(t)| ==> CString(t)[i] == CString(t[1..])[i - 1];
      assert forall k :: 0 <= k < |CString(t[1..])| ==> CString(t[1..])[k] == CString(t)[k + 1];
    } else {
      assert CString(t) == [t[0]] + CString(t[1..]);
      assert CString(t)[0] != Sep;
      assert Split(t) == [t[..FieldLen(t)]] + Split(t[FieldLen(t)..]);
    }
  }

  /** A directory written in front of PATH, then a delimiter, becomes the first directory searched. */
  lemma SplitPrepend(d: string, p: seq<char>)
    requires d != [] && Sep !in d && NUL !in d
    ensures Split(d + [Sep] + p) == [d] + Split(p)
  {
    var t := d + [Sep] + p;
    FieldLenIs(t, |d|);
    assert t[..|d|] == d;
    assert t[|d|..][1..] == p;
  }
}
