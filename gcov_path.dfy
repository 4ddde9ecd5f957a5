/** The output path of a .gcda file (gcov_process_path in
    libs/libbuiltin/libgcc/gcov.c): the components of GCOV_PREFIX, then the
    components of the object file's path with the first `strip` of them
    dropped (or only its file name when none is left), each directory on the
    way checked with access and created with mkdir when missing. */
module GcovPath {

  datatype Option<T> = None | Some(value: T)

  /** The result codes of gcov_process_path. */
  datatype Status =
    | Ok
    | Invalid                   // -EINVAL: the path has no component
    | NameTooLong               // -ENAMETOOLONG: the 64-entry token table is full
    | MkdirFailed(errno: nat)   // -errno of a failed mkdir

  /** The size of the token table. */
  const MaxTokens := 64

  // ---------------------------------------------------------------------
  // Splitting on '/' as strtok does

  /** The length of the leading run of non-'/' characters. */
  function SegmentLength(s: string): (n: nat)
    ensures n <= |s| && (forall j :: 0 <= j < n ==> s[j] != '/')
    ensures n < |s| ==> s[n] == '/'
    ensures |s| > 0 && s[0] != '/' ==> n > 0
  {
    if |s| == 0 || s[0] == '/' then 0 else 1 + SegmentLength(s[1..])
  }

  /** The tokens strtok(s, "/") returns one by one: the maximal runs of
      non-'/' characters, empty components skipped. */
  function Tokens(s: string): seq<string>
    decreases |s|
  {
    if |s| == 0 then []
    else if s[0] == '/' then Tokens(s[1..])
    else
      var n := SegmentLength(s);
      [s[..n]] + Tokens(s[n..])
  }

  /** A path component as strtok produces it. */
  ghost predicate IsComponent(t: string) {
    |t| > 0 && forall j :: 0 <= j < |t| ==> t[j] != '/'
  }

  ghost predicate AllComponents(ts: seq<string>) {
    forall i :: 0 <= i < |ts| ==> IsComponent(ts[i])
  }

  /** The absolute path "/c0/c1/.../cn" built by the strcat calls. */
  function Slashed(ts: seq<string>): string {
    if |ts| == 0 then "" else "/" + ts[0] + Slashed(ts[1..])
  }

  lemma {:induction false} TokensAreComponents(s: string)
    ensures AllComponents(Tokens(s))
    decreases |s|
  {
    if |s| == 0 {
    } else if s[0] == '/' {
      TokensAreComponents(s[1..]);
    } else {
      var n := SegmentLength(s);
      TokensAreComponents(s[n..]);
      assert Tokens(s) == [s[..n]] + Tokens(s[n..]);
    }
  }

  lemma {:induction false} SegmentOf(t: string, rest: string)
    requires IsComponent(t) && (|rest| == 0 || rest[0] == '/')
    ensures SegmentLength(t + rest) == |t|
    decreases |t|
  {
    if |t| > 1 {
      assert (t + rest)[1..] == t[1..] + rest;
      SegmentOf(t[1..], rest);
    } else {
      assert (t + rest)[1..] == rest;
    }
  }

  lemma {:induction false} TokensSkipSlash(s: string)
    requires |s| > 0 && s[0] == '/'
    ensures Tokens(s) == Tokens(s[1..])
  {
  }

  /** Splitting an absolute path built from components gives the components
      back: strtok undoes the strcat calls. */
  lemma {:induction false} TokensOfSlashed(ts: seq<string>)
    requires AllComponents(ts)
    ensures Tokens(Slashed(ts)) == ts
  {
    if |ts| > 0 {
      var t, rest := ts[0], Slashed(ts[1..]);
      assert IsComponent(ts[0]);
      assert rest == "" || rest[0] == '/';
      var s := Slashed(ts);
      assert s == "/" + (t + rest);
      TokensSkipSlash(s);
      assert s[1..] == t + rest;
      SegmentOf(t, rest);
      assert (t + rest)[..|t|] == t && (t + rest)[|t|..] == rest;
      TokensOfSlashed(ts[1..]);
    }
  }

  /** Appending one component is one more "/" and the component. */
  lemma {:induction false} SlashedSnoc(ts: seq<string>, t: string)
    ensures Slashed(ts + [t]) == Slashed(ts) + "/" + t
  {
    if |ts| > 0 {
      assert (ts + [t])[1..] == ts[1..] + [t];
      SlashedSnoc(ts[1..], t);
    }
  }

  // ---------------------------------------------------------------------
  // The planned path

  /** The index of the first path component gcov_process_path keeps among
      the first n: components at level `strip` or deeper. */
  function KeepFrom(strip: int, n: nat): (k: nat)
    ensures k <= n
  {
    if strip <= 0 then 0 else if strip >= n then n else strip
  }

  /** The components of the new path: the prefix's, then the kept path
      components, or the file name (the last path component) when none is
      kept. */
  function Planned(pre: seq<string>, parts: seq<string>, strip: int): seq<string>
    requires |parts| > 0
  {
    var kept := parts[KeepFrom(strip, |parts|)..];
    if |kept| == 0 then pre + [parts[|parts| - 1]] else pre + kept
  }

  /** The planned path starts with the prefix and ends with the file name. */
  lemma {:induction false} PlannedShape(pre: seq<string>, parts: seq<string>, strip: int)
    requires |parts| > 0
    ensures var all := Planned(pre, parts, strip);
      |all| > |pre| && all[..|pre|] == pre && all[|all| - 1] == parts[|parts| - 1]
    ensures strip <= 0 ==> Planned(pre, parts, strip) == pre + parts
    ensures strip >= |parts| ==> Planned(pre, parts, strip) == pre + [parts[|parts| - 1]]
  {
    var all := Planned(pre, parts, strip);
    assert all[..|pre|] == pre;
    assert strip <= 0 ==> parts[KeepFrom(strip, |parts|)..] == parts;
  }

  /** The directories checked, in order: every proper leading part of the
      new path, "/c0", "/c0/c1", .... */
  function Dirs(all: seq<string>): (ds: seq<string>)
    requires |all| > 0
    ensures |ds| == |all| - 1
  {
    seq(|all| - 1, i requires 0 <= i < |all| - 1 => Slashed(all[..i + 1]))
  }

  /** Each checked directory is a leading part of the new path and names the
      first components of it. */
  lemma {:induction false} DirsArePrefixes(all: seq<string>, i: nat)
    requires AllComponents(all) && i < |all| - 1
    ensures Dirs(all)[i] <= Slashed(all)
    ensures Tokens(Dirs(all)[i]) == all[..i + 1]
  {
    PrefixSlashed(all[..i + 1], all[i + 1..]);
    assert all[..i + 1] + all[i + 1..] == all;
    assert AllComponents(all[..i + 1]);
    TokensOfSlashed(all[..i + 1]);
  }

  lemma {:induction false} PrefixSlashed(a: seq<string>, b: seq<string>)
    ensures Slashed(a + b) == Slashed(a) + Slashed(b)
  {
    if |a| > 0 {
      assert (a + b)[1..] == a[1..] + b;
      PrefixSlashed(a[1..], b);
    } else {
      assert a + b == b;
    }
  }

  /** The directories, in order, for which access fails, so mkdir is called. */
  function Missing(ds: seq<string>, dirExists: string -> bool): (ms: seq<string>)
    ensures |ms| <= |ds|
  {
    if |ds| == 0 then []
    else Missing(ds[..|ds| - 1], dirExists) +
         (if dirExists(ds[|ds| - 1]) then [] else [ds[|ds| - 1]])
  }

  /** Every directory of ds exists or is created. */
  ghost predicate Creatable(ds: seq<string>, dirExists: string -> bool, mkdirErrno: string -> nat) {
    forall i :: 0 <= i < |ds| ==> dirExists(ds[i]) || mkdirErrno(ds[i]) == 0
  }

  /** The first |ts| entries of the token table hold ts. */
  ghost predicate Holds(tokens: array<Option<string>>, ts: seq<string>)
    reads tokens
  {
    |ts| <= tokens.Length && forall j :: 0 <= j < |ts| ==> tokens[j] == Some(ts[j])
  }

  /** The strtok loop over the prefix: its tokens fill the table from slot 0. */
  method StorePrefix(tokens: array<Option<string>>, pre: seq<string>) returns (tokenCount: nat)
    requires |pre| <= tokens.Length
    modifies tokens
    ensures tokenCount == |pre| && Holds(tokens, pre)
    ensures forall j :: |pre| <= j < tokens.Length ==> tokens[j] == old(tokens[j])
  {
    tokenCount := 0;
    while tokenCount < |pre|
      invariant tokenCount <= |pre| && Holds(tokens, pre[..tokenCount])
      invariant forall j :: tokenCount <= j < tokens.Length ==> tokens[j] == old(tokens[j])
    {
      tokens[tokenCount] := Some(pre[tokenCount]);
      tokenCount := tokenCount + 1;
    }
    assert pre[..tokenCount] == pre;
  }

  /** The kept components among the first n path components. */
  function KeptUpTo(parts: seq<string>, strip: int, n: nat): seq<string>
    requires n <= |parts|
  {
    parts[KeepFrom(strip, n)..n]
  }

  /** Level n is kept exactly when n >= strip; once one level is kept, all
      later ones are, and a full table at a kept level means the plan does
      not fit. */
  lemma {:induction false} KeptStep(parts: seq<string>, strip: int, n: nat)
    requires n < |parts|
    ensures KeptUpTo(parts, strip, n + 1) ==
      KeptUpTo(parts, strip, n) + (if n >= strip then [parts[n]] else [])
    ensures n >= strip ==>
      |KeptUpTo(parts, strip, n)| + 1 <= |parts[KeepFrom(strip, |parts|)..]|
  {
  }

  /** The strtok loop over the path: from slot |pre| on, the table receives
      the components at level `strip` or deeper, with a bound check before
      each store; `full` reports the -ENAMETOOLONG return. */
  method StoreKept(tokens: array<Option<string>>, pre: seq<string>, parts: seq<string>, strip: int)
    returns (full: bool, tokenCount: nat, filename: string)
    requires tokens.Length == MaxTokens && |parts| > 0 && Holds(tokens, pre)
    modifies tokens
    ensures full <==> |pre| + |parts[KeepFrom(strip, |parts|)..]| > MaxTokens
    ensures !full ==>
      var stored := pre + parts[KeepFrom(strip, |parts|)..];
      tokenCount == |stored| && Holds(tokens, stored)
    ensures filename == parts[|parts| - 1]
    ensures forall j :: 0 <= j < tokens.Length && (j < |pre| || tokenCount <= j) ==>
      tokens[j] == old(tokens[j])
  {
    tokenCount := |pre|;
    filename := parts[0];
    var level := 0;
    ghost var stored := pre;
    while level < |parts|
      invariant level <= |parts|
      invariant stored == pre + KeptUpTo(parts, strip, level)
      invariant tokenCount == |stored| <= MaxTokens && Holds(tokens, stored)
      invariant level > 0 ==> filename == parts[level - 1]
      invariant forall j :: 0 <= j < tokens.Length && (j < |pre| || tokenCount <= j) ==>
        tokens[j] == old(tokens[j])
    {
      KeptStep(parts, strip, level);
      filename := parts[level];
      if level >= strip {
        if tokenCount >= MaxTokens {
          return true, tokenCount, parts[|parts| - 1];
        }
        tokens[tokenCount] := Some(parts[level]);
        tokenCount := tokenCount + 1;
        stored := stored + [parts[level]];
      }
      level := level + 1;
    }
    full := false;
  }

  /** The strtok loop over the path and the file-name fallback, with a bound
      check before each store, followed by the bound check for the NULL
      terminator: the table receives all planned components when they leave
      room for the terminator, and the call fails otherwise. */
  method StorePath(tokens: array<Option<string>>, pre: seq<string>, parts: seq<string>, strip: int)
    returns (fits: bool, tokenCount: nat, filename: string)
    requires tokens.Length == MaxTokens && |parts| > 0 && Holds(tokens, pre)
    modifies tokens
    ensures fits <==> |Planned(pre, parts, strip)| < MaxTokens
    ensures fits ==> tokenCount == |Planned(pre, parts, strip)| && Holds(tokens, Planned(pre, parts, strip))
    ensures filename == parts[|parts| - 1]
    ensures forall j :: 0 <= j < tokens.Length && (j < |pre| || tokenCount <= j) ==>
      tokens[j] == old(tokens[j])
  {
    ghost var all := Planned(pre, parts, strip);
    var full;
    full, tokenCount, filename := StoreKept(tokens, pre, parts, strip);
    if full {
      return false, tokenCount, filename;
    }
    ghost var stored := pre + parts[KeepFrom(strip, |parts|)..];
    if tokenCount == |pre| {
      if tokenCount >= MaxTokens {
        return false, tokenCount, filename;
      }
      tokens[tokenCount] := Some(filename);
      tokenCount := tokenCount + 1;
      stored := stored + [filename];
    }
    assert stored == all;
    fits := tokenCount < MaxTokens;
  }

  /** The directory loop and the final strcat: each proper leading part of
      the new path is checked, and created when missing, until a mkdir
      fails. */
  method MakeDirs(tokens: array<Option<string>>, tokenCount: nat, filename: string,
                  dirExists: string -> bool, mkdirErrno: string -> nat, ghost all: seq<string>)
    returns (status: Status, newPath: string, checked: seq<string>, made: seq<string>)
    requires tokenCount == |all| > 0 && Holds(tokens, all) && filename == all[|all| - 1]
    ensures status == Ok || status.MkdirFailed?
    ensures status == Ok <==> Creatable(Dirs(all), dirExists, mkdirErrno)
    ensures status == Ok ==>
      newPath == Slashed(all) && checked == Dirs(all) && made == Missing(checked, dirExists)
    ensures status.MkdirFailed? ==>
      0 < |checked| <= |Dirs(all)| && checked == Dirs(all)[..|checked|] &&
      newPath == checked[|checked| - 1] && !dirExists(newPath) &&
      mkdirErrno(newPath) == status.errno > 0 &&
      Creatable(checked[..|checked| - 1], dirExists, mkdirErrno) &&
      made == Missing(checked, dirExists)
  {
    newPath := "";
    checked, made := [], [];
    for i := 0 to tokenCount - 1
      invariant newPath == Slashed(all[..i])
      invariant checked == Dirs(all)[..i] && made == Missing(checked, dirExists)
      invariant Creatable(checked, dirExists, mkdirErrno)
    {
      NextDir(all, i);
      newPath := newPath + "/" + tokens[i].value;
      CheckedSnoc(checked, newPath, dirExists, mkdirErrno);
      checked := checked + [newPath];
      if !dirExists(newPath) {
        made := made + [newPath];
        var errno := mkdirErrno(newPath);
        if errno != 0 {
          assert !Creatable(Dirs(all), dirExists, mkdirErrno) by {
            assert Dirs(all)[i] == newPath;
          }
          return MkdirFailed(errno), newPath, checked, made;
        }
      }
    }
    assert checked == Dirs(all);
    LastComponent(all, filename);
    newPath := newPath + "/" + filename;
    status := Ok;
  }

  /** The i-th directory extends the path built so far by one component. */
  lemma {:induction false} NextDir(all: seq<string>, i: nat)
    requires i < |all| - 1
    ensures Slashed(all[..i]) + "/" + all[i] == Dirs(all)[i]
    ensures Dirs(all)[..i] + [Dirs(all)[i]] == Dirs(all)[..i + 1]
  {
    SlashedSnoc(all[..i], all[i]);
    assert all[..i + 1] == all[..i] + [all[i]];
  }

  /** The final strcat of the file name completes the path. */
  lemma {:induction false} LastComponent(all: seq<string>, filename: string)
    requires |all| > 0 && filename == all[|all| - 1]
    ensures Slashed(all[..|all| - 1]) + "/" + filename == Slashed(all)
  {
    SlashedSnoc(all[..|all| - 1], filename);
    assert all[..|all| - 1] + [filename] == all;
  }

  /** Checking one more directory d: the earlier ones are a prefix, mkdir is
      called for d exactly when it is missing, and all of them exist or are
      created when d does or is. */
  lemma {:induction false} CheckedSnoc(ds: seq<string>, d: string, dirExists: string -> bool,
                                       mkdirErrno: string -> nat)
    ensures (ds + [d])[..|ds|] == ds
    ensures Missing(ds + [d], dirExists) == Missing(ds, dirExists) + (if dirExists(d) then [] else [d])
    ensures Creatable(ds + [d], dirExists, mkdirErrno) <==>
      Creatable(ds, dirExists, mkdirErrno) && (dirExists(d) || mkdirErrno(d) == 0)
  {
    assert (ds + [d])[..|ds|] == ds;
    if Creatable(ds, dirExists, mkdirErrno) && (dirExists(d) || mkdirErrno(d) == 0) {
      forall j | 0 <= j < |ds + [d]|
        ensures dirExists((ds + [d])[j]) || mkdirErrno((ds + [d])[j]) == 0
      {
        if j < |ds| {
          assert (ds + [d])[j] == ds[j];
        }
      }
    }
    if Creatable(ds + [d], dirExists, mkdirErrno) {
      assert (ds + [d])[|ds|] == d;
      forall j | 0 <= j < |ds| ensures dirExists(ds[j]) || mkdirErrno(ds[j]) == 0 {
        assert (ds + [d])[j] == ds[j];
      }
    }
  }

  /** gcov_process_path, with the token table bounded on every store.
      `dirExists` is the result of access(F_OK) and `mkdirErrno` the errno
      of mkdir (0 for success) for each directory; `newPath0` is the content
      of new_path on entry. `checked` lists the directories passed to access
      and `made` those passed to mkdir, in order. */
  method ProcessPath(prefix: string, strip: int, path: string, newPath0: string,
                     dirExists: string -> bool, mkdirErrno: string -> nat)
    returns (status: Status, newPath: string, checked: seq<string>, made: seq<string>)
    requires |Tokens(prefix)| <= MaxTokens
    ensures status == Invalid <==> |Tokens(path)| == 0
    ensures status == NameTooLong <==>
      |Tokens(path)| > 0 && |Planned(Tokens(prefix), Tokens(path), strip)| >= MaxTokens
    ensures status == Invalid || status == NameTooLong ==>
      newPath == newPath0 && checked == [] && made == []
    ensures status == Ok <==>
      |Tokens(path)| > 0 && |Planned(Tokens(prefix), Tokens(path), strip)| < MaxTokens &&
      Creatable(Dirs(Planned(Tokens(prefix), Tokens(path), strip)), dirExists, mkdirErrno)
    ensures status == Ok ==>
      var all := Planned(Tokens(prefix), Tokens(path), strip);
      newPath == Slashed(all) && Tokens(newPath) == all &&
      checked == Dirs(all) && made == Missing(checked, dirExists)
    ensures status.MkdirFailed? ==>
      var all := Planned(Tokens(prefix), Tokens(path), strip);
      0 < |checked| <= |Dirs(all)| && checked == Dirs(all)[..|checked|] &&
      newPath == checked[|checked| - 1] && !dirExists(newPath) &&
      mkdirErrno(newPath) == status.errno > 0 &&
      Creatable(checked[..|checked| - 1], dirExists, mkdirErrno) &&
      made == Missing(checked, dirExists)
  {
    var tokens := new Option<string>[MaxTokens](_ => None);
    var pre := Tokens(prefix);
    var tokenCount := StorePrefix(tokens, pre);
    var parts := Tokens(path);
    if |parts| == 0 {
      return Invalid, newPath0, [], [];
    }
    var fits, filename;
    fits, tokenCount, filename := StorePath(tokens, pre, parts, strip);
    if !fits {
      return NameTooLong, newPath0, [], [];
    }
    ghost var all := Planned(pre, parts, strip);
    tokens[tokenCount] := None;
    status, newPath, checked, made := MakeDirs(tokens, tokenCount, filename, dirExists, mkdirErrno, all);
    if status == Ok {
      TokensAreComponents(path);
      TokensAreComponents(prefix);
      PlannedComponents(pre, parts, strip);
      TokensOfSlashed(all);
    }
  }

  lemma {:induction false} PlannedComponents(pre: seq<string>, parts: seq<string>, strip: int)
    requires |parts| > 0 && AllComponents(pre) && AllComponents(parts)
    ensures AllComponents(Planned(pre, parts, strip))
  {
    var all := Planned(pre, parts, strip);
    forall i | 0 <= i < |all| ensures IsComponent(all[i]) {
      if i >= |pre| {
        var kept := parts[KeepFrom(strip, |parts|)..];
        if |kept| > 0 {
          assert all[i] == parts[KeepFrom(strip, |parts|) + i - |pre|];
        } else {
          assert all[i] == parts[|parts| - 1];
        }
      } else {
        assert all[i] == pre[i];
      }
    }
  }

  // ---------------------------------------------------------------------
  // The token table as written

  /** The path loop as written: the token count it reaches from `tokenCount`
      at `level`, or None when its bound check returns -ENAMETOOLONG. */
  function AsWrittenLoop(tokenCount: nat, parts: seq<string>, level: nat, strip: int): Option<nat>
    requires level <= |parts|
    decreases |parts| - level
  {
    if level == |parts| then Some(tokenCount)
    else if level >= strip then
      if tokenCount >= MaxTokens then None
      else AsWrittenLoop(tokenCount + 1, parts, level + 1, strip)
    else AsWrittenLoop(tokenCount, parts, level + 1, strip)
  }

  /** As written, the index of the NULL terminator store: the count after
      the file-name fallback, which is stored without a bound check. */
  function AsWrittenTerminatorSlot(prefixCount: nat, parts: seq<string>, strip: int): Option<nat> {
    match AsWrittenLoop(prefixCount, parts, 0, strip)
    case None => None
    case Some(n) => Some(if n == prefixCount then n + 1 else n)
  }

  function Max(a: int, b: int): int {
    if a < b then b else a
  }

  /** The loop stores one entry per kept component from `level` on, and fails
      exactly when the table is full before the last of them. */
  lemma {:induction false} AsWrittenLoopCount(tokenCount: nat, parts: seq<string>, level: nat, strip: int)
    requires level <= |parts|
    ensures var k := |parts| - Max(level, KeepFrom(strip, |parts|));
      AsWrittenLoop(tokenCount, parts, level, strip) ==
        if k > 0 && tokenCount + k > MaxTokens then None else Some(tokenCount + k)
    decreases |parts| - level
  {
    if level < |parts| {
      AsWrittenLoopCount(if level >= strip then tokenCount + 1 else tokenCount, parts, level + 1, strip);
    }
  }

  /** As written, the terminator goes to slot |Planned| whenever the path
      loop's own check passed, which happens when the kept components exactly
      fill the table: then the slot is 64, past the end of tokens. */
  lemma {:induction false} AsWrittenTerminator(pre: seq<string>, parts: seq<string>, strip: int)
    requires |parts| > 0
    ensures var kept := |parts| - KeepFrom(strip, |parts|);
      AsWrittenTerminatorSlot(|pre|, parts, strip) ==
        if kept > 0 && |pre| + kept > MaxTokens then None else Some(|Planned(pre, parts, strip)|)
  {
    AsWrittenLoopCount(|pre|, parts, 0, strip);
  }

  /** With an empty prefix, no stripping and a path of 64 components, the
      code as written stores the terminator in tokens[64]; ProcessPath
      returns NameTooLong for the same call. */
  lemma TerminatorPastTable()
    ensures var path := Slashed(seq(64, _ => "a"));
      AsWrittenTerminatorSlot(|Tokens("")|, Tokens(path), 0) == Some(MaxTokens) &&
      |Tokens(path)| > 0 && |Planned(Tokens(""), Tokens(path), 0)| >= MaxTokens
  {
    var parts := seq(64, _ => "a");
    assert AllComponents(parts) by {
      forall i | 0 <= i < |parts| ensures IsComponent(parts[i]) {
        assert parts[i] == "a";
      }
    }
    TokensOfSlashed(parts);
    AsWrittenTerminator([], parts, 0);
    PlannedShape([], parts, 0);
  }
}
