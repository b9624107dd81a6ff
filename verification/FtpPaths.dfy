/**
  The current directory of an FTP connection (cmds.c, and the CWD and CDUP cases of ftpd.c): C strings
  edited in place, and the stack of directory names that they stand for.
 */
module FtpPaths {
  import opened Bytes

  const DIR_SIZE := 4096
  const SPARE_SIZE := 256

  // ------------------------------------------------------------------ on strings

  /** The last slash after position 0, or 0. */
  function LastSlash(s: string): (n: nat)
    ensures n < |s| || n == 0
    ensures n > 0 ==> s[n] == '/' && forall i :: n < i < |s| ==> s[i] != '/'
    ensures n == 0 ==> forall i :: 0 < i < |s| ==> s[i] != '/'
  {
    if |s| <= 1 then 0
    else if s[|s| - 1] == '/' then |s| - 1
    else LastSlash(s[..|s| - 1])
  }

  /** do_step_down. */
  function StepDown(s: string): string {
    if LastSlash(s) > 0 then s[..LastSlash(s)] else "/"
  }

  predicate Dots(path: string) {
    ".." <= path
  }

  /** do_full_path: the path that an argument names, and the current directory afterwards, which an
      argument that begins with two dots changes as well, dropping whatever follows them. */
  function FullPath(cur: string, path: string): (string, string) {
    if path != "" && path[0] == '/' then (path, cur)
    else if cur == "/" then (path, cur)
    else if Dots(path) then (StepDown(cur), StepDown(cur))
    else (cur + "/" + path, cur)
  }

  // ------------------------------------------------------------------ the stack of names

  /** A directory name that CWD takes as one step down the tree. */
  predicate IsName(s: string) {
    s != "" && '/' !in s && !(".." <= s)
  }

  predicate AllNames(names: seq<string>) {
    forall n :: n in names ==> IsName(n)
  }

  /** How the server writes a stack of names: the root is "/", anything else has no leading slash. */
  function Shown(names: seq<string>): string {
    if names == [] then "/"
    else if |names| == 1 then names[0]
    else Shown(names[..|names| - 1]) + "/" + names[|names| - 1]
  }

  /** CWD, CDUP, and the commands that name a file or directory (RETR, STOR, SIZE, MKD, RMD, DELE). */
  datatype Change = Cwd(name: string) | Cdup | Use(path: string)

  function Stack(names: seq<string>, c: Change): seq<string> {
    match c
    case Cwd(name) => names + [name]
    case Cdup => Up(names)
    case Use(path) => if Dots(path) then Up(names) else names
  }

  function Up(names: seq<string>): seq<string> {
    if names == [] then [] else names[..|names| - 1]
  }

  /** What the server does to its string. */
  function Changed(cur: string, c: Change): string {
    match c
    case Cwd(name) => FullPath(cur, name).0
    case Cdup => StepDown(cur)
    case Use(path) => FullPath(cur, path).1
  }

  function Stacks(names: seq<string>, changes: seq<Change>): seq<string> {
    if changes == [] then names else Stack(Stacks(names, changes[..|changes| - 1]), changes[|changes| - 1])
  }

  function ChangedAll(cur: string, changes: seq<Change>): string {
    if changes == [] then cur else Changed(ChangedAll(cur, changes[..|changes| - 1]), changes[|changes| - 1])
  }

  lemma {:induction false} LastSlashIs(s: string, n: nat)
    requires 0 < n < |s| && s[n] == '/' && forall i :: n < i < |s| ==> s[i] != '/'
    ensures LastSlash(s) == n
  {
    if n < |s| - 1 {
      LastSlashIs(s[..|s| - 1], n);
    }
  }

  lemma LastSlashAfter(a: string, b: string)
    requires a != "" && '/' !in b
    ensures LastSlash(a + "/" + b) == |a|
  {
    LastSlashIs(a + "/" + b, |a|);
  }

  lemma LastSlashOfName(s: string)
    requires '/' !in s
    ensures LastSlash(s) == 0
  {
  }

  lemma {:induction false} ShownNotRoot(names: seq<string>)
    requires AllNames(names) && names != []
    ensures Shown(names) != "" && Shown(names) != "/" && (Shown(names)[0] != '/')
  {
    assert names[|names| - 1] in names;
    if |names| == 1 {
      assert names[0][0] in names[0];
    } else {
      ShownNotRoot(names[..|names| - 1]);
    }
  }

  lemma StepDownPops(names: seq<string>)
    requires AllNames(names)
    ensures StepDown(Shown(names)) == Shown(Up(names)) && AllNames(Up(names))
  {
    if |names| == 1 {
      assert names[0] in names;
      LastSlashOfName(names[0]);
    } else if |names| > 1 {
      var shorter := names[..|names| - 1];
      assert names[|names| - 1] in names;
      ShownNotRoot(shorter);
      LastSlashAfter(Shown(shorter), names[|names| - 1]);
      assert Shown(names)[..|Shown(shorter)|] == Shown(shorter);
    }
  }

  /** Each change of directory is a push or a pop on the stack the string stands for. A command that only
      names a file leaves it alone, unless its argument begins with two dots: that is a pop as well. */
  lemma ChangeIsStackStep(names: seq<string>, c: Change)
    requires AllNames(names) && (c.Cwd? ==> IsName(c.name))
    ensures Changed(Shown(names), c) == Shown(Stack(names, c))
    ensures AllNames(Stack(names, c))
  {
    if names != [] {
      ShownNotRoot(names);
    }
    if c.Cwd? {
      assert c.name[0] in c.name;
      assert (names + [c.name])[..|names|] == names;
    } else {
      StepDownPops(names);
    }
  }

  /** The directory after any sequence of changes is the one a stack would give. */
  lemma {:induction false} DirectoryIsStack(names: seq<string>, changes: seq<Change>)
    requires AllNames(names) && forall c :: c in changes && c.Cwd? ==> IsName(c.name)
    ensures ChangedAll(Shown(names), changes) == Shown(Stacks(names, changes)) && AllNames(Stacks(names, changes))
  {
    if changes != [] {
      DirectoryIsStack(names, changes[..|changes| - 1]);
      ChangeIsStackStep(Stacks(names, changes[..|changes| - 1]), changes[|changes| - 1]);
    }
  }

  // ------------------------------------------------------------------ absolute arguments

  /** CWD with an argument that begins with a slash goes there from anywhere; a command that only names
      such a path leaves the directory alone. */
  lemma AbsoluteIsTaken(cur: string, path: string)
    requires "/" <= path
    ensures Changed(cur, Cwd(path)) == path && Changed(cur, Use(path)) == cur
  {
    assert path[0] == '/';
  }

  lemma {:induction false} ChangedAllConcat(cur: string, first: seq<Change>, more: seq<Change>)
    ensures ChangedAll(cur, first + more) == ChangedAll(ChangedAll(cur, first), more)
    decreases |more|
  {
    if more == [] {
      assert first + more == first;
    } else {
      assert (first + more)[..|first + more| - 1] == first + more[..|more| - 1];
      ChangedAllConcat(cur, first, more[..|more| - 1]);
    }
  }

  lemma {:induction false} StacksFrom(names: seq<string>, first: Change, more: seq<Change>)
    ensures Stacks(names, [first] + more) == Stacks(Stack(names, first), more)
    decreases |more|
  {
    if more == [] {
      assert [first] + more == [first] && [first][..0] == [];
    } else {
      assert ([first] + more)[..|more|] == [first] + more[..|more| - 1];
      StacksFrom(names, first, more[..|more| - 1]);
    }
  }

  /** "CWD /" forgets everything: whatever follows goes on from the empty stack. */
  lemma RootForgets(cur: string, changes: seq<Change>)
    requires forall c :: c in changes && c.Cwd? ==> IsName(c.name)
    ensures ChangedAll(cur, [Cwd("/")] + changes) == Shown(Stacks([], changes))
  {
    AbsoluteIsTaken(cur, "/");
    assert [Cwd("/")][..0] == [];
    assert ChangedAll(cur, [Cwd("/")]) == "/" == Shown([]);
    ChangedAllConcat(cur, [Cwd("/")], changes);
    DirectoryIsStack([], changes);
  }

  /** After "CWD /a/b" the string has a leading slash, which the names pushed by "CWD a", "CWD b" do not
      give it. It stays until the root has been reached, and is then gone. */
  function Written(slash: bool, names: seq<string>): string {
    if slash && names != [] then "/" + Shown(names) else Shown(names)
  }

  predicate StaysBelow(names: seq<string>, changes: seq<Change>)
    decreases |changes|
  {
    names != [] && (changes != [] ==> StaysBelow(Stack(names, changes[0]), changes[1..]))
  }

  lemma LastSlashUnder(s: string)
    requires s != "" && s[0] != '/'
    ensures LastSlash("/" + s) == if LastSlash(s) > 0 then LastSlash(s) + 1 else 0
  {
    var t, n := "/" + s, LastSlash(s);
    if n > 0 {
      LastSlashIs(t, n + 1);
    } else {
      assert forall i :: 0 < i < |t| ==> t[i] == s[i - 1];
    }
  }

  lemma AbsolutePops(names: seq<string>)
    requires AllNames(names) && names != []
    ensures StepDown("/" + Shown(names)) == Written(true, Up(names))
  {
    var s, n := Shown(names), |Shown(Up(names))|;
    ShownNotRoot(names);
    LastSlashUnder(s);
    UpShorter(names);
    if |names| > 1 {
      ShownNotRoot(Up(names));
      assert StepDown("/" + s) == ("/" + s)[..n + 1] == "/" + s[..n];
    }
  }

  lemma AbsolutePushes(names: seq<string>, name: string)
    requires AllNames(names) && names != [] && IsName(name)
    ensures FullPath("/" + Shown(names), name).0 == Written(true, names + [name])
  {
    ShownNotRoot(names);
    assert name[0] in name;
    assert (names + [name])[..|names|] == names;
    assert "/" + Shown(names + [name]) == ("/" + Shown(names)) + "/" + name;
  }

  lemma AbsoluteStep(names: seq<string>, c: Change)
    requires AllNames(names) && names != [] && (c.Cwd? ==> IsName(c.name))
    ensures Changed("/" + Shown(names), c) == Written(true, Stack(names, c)) && AllNames(Stack(names, c))
  {
    ShownNotRoot(names);
    ChangeIsStackStep(names, c);
    if c.Cwd? {
      AbsolutePushes(names, c.name);
    } else {
      AbsolutePops(names);
    }
  }

  /** Where the last slash of a directory is. */
  lemma UpShorter(names: seq<string>)
    requires AllNames(names) && names != []
    ensures LastSlash(Shown(names)) == if |names| == 1 then 0 else |Shown(Up(names))|
    ensures |names| > 1 ==> |Shown(Up(names))| < |Shown(names)|
    ensures |names| > 1 ==> Shown(names)[..|Shown(Up(names))|] == Shown(Up(names))
  {
    assert names[|names| - 1] in names;
    if |names| == 1 {
      LastSlashOfName(names[0]);
    } else {
      ShownNotRoot(names[..|names| - 1]);
      LastSlashAfter(Shown(names[..|names| - 1]), names[|names| - 1]);
    }
  }

  /** So an absolute path works as a stack too: from "/a/b" any changes lead to the names the stack gives,
      with the slash in front exactly as long as the root has not been passed. */
  lemma {:induction false} AbsoluteIsStack(names: seq<string>, changes: seq<Change>)
    requires AllNames(names) && names != [] && forall c :: c in changes && c.Cwd? ==> IsName(c.name)
    ensures ChangedAll("/" + Shown(names), changes) == Written(StaysBelow(names, changes), Stacks(names, changes))
    decreases |changes|
  {
    var cur := "/" + Shown(names);
    if changes != [] {
      var first, more := changes[0], changes[1..];
      assert changes == [first] + more;
      ChangedAllConcat(cur, [first], more);
      assert [first][..0] == [];
      assert ChangedAll(cur, [first]) == Changed(cur, first);
      AbsoluteStep(names, first);
      StacksFrom(names, first, more);
      if Stack(names, first) == [] {
        DirectoryIsStack([], more);
      } else {
        AbsoluteIsStack(Stack(names, first), more);
      }
    }
  }

  // ------------------------------------------------------------------ the 256-byte buffer

  /** What a change puts into spare_buf. */
  function Spare(cur: string, c: Change): string {
    match c
    case Cwd(name) => FullPath(cur, name).0
    case Cdup => cur
    case Use(path) => FullPath(cur, path).0
  }

  predicate FitsSpare(cur: string, changes: seq<Change>, i: nat)
    requires i < |changes|
  {
    |Spare(ChangedAll(cur, changes[..i]), changes[i])| < 256
  }

  /** It fits at every change. */
  ghost predicate FitsAll(cur: string, changes: seq<Change>) {
    forall i: nat :: i < |changes| ==> FitsSpare(cur, changes, i)
  }

  /** The length of a directory: its names, and a slash between any two. */
  function Length(names: seq<string>): nat {
    if names == [] then 1
    else if |names| == 1 then |names[0]|
    else Length(names[..|names| - 1]) + 1 + |names[|names| - 1]|
  }

  lemma {:induction false} ShownLength(names: seq<string>)
    ensures |Shown(names)| == Length(names)
  {
    if |names| > 1 {
      ShownLength(names[..|names| - 1]);
    }
  }

  /** The same in terms of the stack. */
  function SpareLength(names: seq<string>, c: Change): nat {
    match c
    case Cwd(name) => Length(names + [name])
    case Cdup => Length(names)
    case Use(path) =>
      if names == [] || (path != "" && path[0] == '/') then |path|
      else if Dots(path) then Length(Up(names))
      else Length(names + [path])
  }

  lemma SpareHasLength(names: seq<string>, c: Change)
    requires AllNames(names) && (c.Cwd? ==> IsName(c.name))
    ensures |Spare(Shown(names), c)| == SpareLength(names, c)
  {
    match c
    case Cwd(name) =>
      ChangeIsStackStep(names, c);
      ShownLength(names + [name]);
    case Cdup =>
      ShownLength(names);
    case Use(path) =>
      ShownLength(names + [path]);
      if names != [] {
        ShownNotRoot(names);
        StepDownPops(names);
        ShownLength(Up(names));
        assert (names + [path])[..|names|] == names;
      }
  }

  /** The i-th change fits, by the length of the stack it finds. */
  predicate FitsAt(names: seq<string>, changes: seq<Change>, i: nat)
    requires i < |changes|
  {
    SpareLength(Stacks(names, changes[..i]), changes[i]) < SPARE_SIZE
  }

  lemma FitsAtIs(names: seq<string>, changes: seq<Change>, i: nat)
    requires AllNames(names) && forall c :: c in changes && c.Cwd? ==> IsName(c.name)
    requires i < |changes|
    ensures FitsAt(names, changes, i) <==> FitsSpare(Shown(names), changes, i)
  {
    DirectoryIsStack(names, changes[..i]);
    SpareHasLength(Stacks(names, changes[..i]), changes[i]);
  }

  /** Exactly when a sequence of changes fits the buffer: the lengths on the stack tell. */
  lemma FitsAllIff(names: seq<string>, changes: seq<Change>)
    requires AllNames(names) && forall c :: c in changes && c.Cwd? ==> IsName(c.name)
    ensures FitsAll(Shown(names), changes) <==> forall i: nat :: i < |changes| ==> FitsAt(names, changes, i)
  {
    forall i: nat | i < |changes|
      ensures FitsAt(names, changes, i) <==> FitsSpare(Shown(names), changes, i)
    {
      FitsAtIs(names, changes, i);
    }
  }

  // ------------------------------------------------------------------ consequences

  function Ups(m: nat): seq<Change> {
    if m == 0 then [] else Ups(m - 1) + [Cdup]
  }

  lemma {:induction false} StackAfterUps(names: seq<string>, m: nat)
    ensures Stacks(names, Ups(m)) == names[..Max(|names| - m, 0)]
    ensures forall c :: c in Ups(m) ==> c == Cdup
  {
    if m > 0 {
      StackAfterUps(names, m - 1);
      assert Ups(m)[..|Ups(m)| - 1] == Ups(m - 1);
    }
  }

  /** m times CDUP drops the last m names, and stays at the root once there. */
  lemma UpsDropNames(names: seq<string>, m: nat)
    requires AllNames(names)
    ensures ChangedAll(Shown(names), Ups(m)) == Shown(names[..Max(|names| - m, 0)])
  {
    StackAfterUps(names, m);
    DirectoryIsStack(names, Ups(m));
  }

  /** Slashes that CDUP can stop at. */
  function InnerSlashes(s: string): nat {
    if |s| <= 1 then 0 else InnerSlashes(s[..|s| - 1]) + if s[|s| - 1] == '/' then 1 else 0
  }

  lemma {:induction false} LastSlashCounts(s: string)
    ensures InnerSlashes(s) == if LastSlash(s) == 0 then 0 else 1 + InnerSlashes(s[..LastSlash(s)])
  {
    if |s| > 1 && s[|s| - 1] != '/' {
      LastSlashCounts(s[..|s| - 1]);
      assert s[..|s| - 1][..LastSlash(s)] == s[..LastSlash(s)];
    }
  }

  function StepDowns(s: string, m: nat): string
    decreases m
  {
    if m == 0 then s else StepDowns(StepDown(s), m - 1)
  }

  /** From any path at all: CDUP has got to the root exactly after one step more than there are inner
      slashes, or, for a path that begins with two slashes, after as many; and it stays there. */
  lemma {:induction false} RootIsReachedIff(s: string, m: nat)
    requires m > 0
    ensures StepDowns(s, m) == "/"
       <==> m > InnerSlashes(s) || (|s| >= 2 && s[0] == '/' && s[1] == '/' && m == InnerSlashes(s))
    decreases m
  {
    LastSlashCounts(s);
    var n := LastSlash(s);
    if m > 1 {
      RootIsReachedIff(StepDown(s), m - 1);
    } else if n > 0 {
      LastSlashCounts(s[..n]);
      assert StepDowns(s, 1) == s[..n];
      assert n > 1 ==> s[..n][1] == s[1];
    }
  }

  /** Exactly when CWD pushes its argument, whatever that is: at the root always, even "..", and
      elsewhere if it is neither absolute nor begins with two dots. */
  lemma CwdPushesIff(names: seq<string>, n: string)
    requires AllNames(names)
    ensures Changed(Shown(names), Cwd(n)) == Shown(names + [n])
       <==> names == [] || !(".." <= n || "/" <= n)
  {
    var cur := Shown(names);
    assert (names + [n])[..|names|] == names;
    assert "/" <= n <==> n != "" && n[0] == '/';
    if names != [] {
      ShownNotRoot(names);
      assert Shown(names + [n]) == cur + "/" + n;
      if n != "" && n[0] == '/' {
        assert |n| < |cur + "/" + n|;
      } else if Dots(n) {
        assert |StepDown(cur)| <= |cur| < |cur + "/" + n|;
      }
    }
  }

  /** What CDUP leaves of a path with a slash past its first character, and of any other. */
  lemma StepDownCuts(a: string, b: string)
    requires '/' !in b
    ensures a != "" ==> StepDown(a + "/" + b) == a
    ensures StepDown("/" + b) == "/" == StepDown(b)
  {
    if a != "" {
      LastSlashAfter(a, b);
      assert (a + "/" + b)[..|a|] == a;
    }
    LastSlashOfName(b);
    assert forall i :: 0 < i < |"/" + b| ==> ("/" + b)[i] == b[i - 1];
  }

  /** Exactly when an argument that begins with two dots, whatever follows them, is CDUP: everywhere but
      at the root. */
  lemma DotsPopIff(names: seq<string>, rest: string)
    requires AllNames(names)
    ensures Changed(Shown(names), Cwd(".." + rest)) == Changed(Shown(names), Cdup) <==> names != []
  {
    if names != [] {
      ShownNotRoot(names);
    }
  }

  /** Away from the root, a relative argument is CDUP exactly if it begins with two dots. */
  lemma CwdIsUpIff(names: seq<string>, n: string)
    requires AllNames(names) && names != [] && !("/" <= n)
    ensures Changed(Shown(names), Cwd(n)) == Changed(Shown(names), Cdup) <==> ".." <= n
  {
    ShownNotRoot(names);
    var cur := Shown(names);
    assert n != "" && n[0] == '/' ==> "/" <= n;
    if !Dots(n) {
      assert Changed(cur, Cwd(n)) == cur + "/" + n;
      assert |StepDown(cur)| <= |cur|;
    }
  }

  // ------------------------------------------------------------------ in place

  /** A buffer holds this C string. */
  ghost predicate Holds(buf: array<char>, s: string)
    reads buf
  {
    |s| < buf.Length && buf[|s|] == '\0' && forall i :: 0 <= i < |s| ==> buf[i] == s[i] && s[i] != '\0'
  }

  method StrLen(buf: array<char>, ghost s: string) returns (n: nat)
    requires Holds(buf, s)
    ensures n == |s|
  {
    n := 0;
    while buf[n] != '\0'
      invariant n <= |s|
      decreases |s| - n
    {
      n := n + 1;
    }
  }

  /** do_step_down: cut at the last slash past the first character, or make it the root. */
  method DoStepDown(path: array<char>, ghost s: string)
    requires Holds(path, s) && path.Length >= 2
    modifies path
    ensures Holds(path, StepDown(s))
  {
    var len := StrLen(path, s);
    var found := false;
    var i := len - 1;
    while i > 0
      invariant i < len && path[..] == old(path[..]) && !found
      invariant forall j :: i < j < len && j > 0 ==> s[j] != '/'
    {
      if path[i] == '/' {
        path[i] := '\0';
        assert LastSlash(s) == i;
        found := true;
        break;
      }
      i := i - 1;
    }
    if !found {
      assert LastSlash(s) == 0;
      path[0] := '/';
      path[1] := '\0';
    }
  }

  /** strcpy. */
  method StrCpy(dst: array<char>, src: array<char>, ghost s: string)
    requires Holds(src, s) && |s| < dst.Length && dst != src
    modifies dst
    ensures Holds(dst, s) && Holds(src, s)
  {
    StrAppend(dst, 0, src, s, "");
    assert "" + s == s;
  }

  /** Copies a C string behind the at characters that a buffer already has. */
  method StrAppend(dst: array<char>, at: nat, src: array<char>, ghost s: string, ghost before: string)
    requires Holds(src, s) && dst != src && at == |before| && at + |s| < dst.Length
    requires forall j :: 0 <= j < at ==> dst[j] == before[j] && before[j] != '\0'
    modifies dst
    ensures Holds(dst, before + s) && Holds(src, s)
  {
    var i := 0;
    while src[i] != '\0'
      invariant i <= |s| && Holds(src, s)
      invariant forall j :: 0 <= j < at + i ==> dst[j] == (before + s)[j]
      decreases |s| - i
    {
      dst[at + i] := src[i];
      i := i + 1;
    }
    dst[at + i] := '\0';
  }

  class Connection {
    const currentDir: array<char>

    constructor ()
      ensures fresh(currentDir) && currentDir.Length == DIR_SIZE && Holds(currentDir, "/")
    {
      currentDir := new char[DIR_SIZE](_ => '\0');
      new;
      currentDir[0] := '/';
    }

    /** do_full_path, for paths that fit the buffers. */
    method DoFullPath(path: array<char>, newPath: array<char>, ghost cur: string, ghost p: string)
      requires Holds(currentDir, cur) && Holds(path, p) && currentDir.Length >= 2
      requires newPath != currentDir && newPath != path && path != currentDir
      requires |FullPath(cur, p).0| < newPath.Length
      modifies newPath, currentDir
      ensures Holds(newPath, FullPath(cur, p).0) && Holds(currentDir, FullPath(cur, p).1) && Holds(path, p)
      ensures "/" <= p ==> Holds(newPath, p) && Holds(currentDir, cur)
    {
      assert "/" <= p ==> p[0] == '/';
      if path[0] == '/' {
        StrCpy(newPath, path, p);
      } else if currentDir[0] == '/' && currentDir[1] == '\0' {
        assert cur == "/";
        StrCpy(newPath, path, p);
      } else if path[0] == '.' && path[1] == '.' {
        DoStepDown(currentDir, cur);
        StrCpy(newPath, currentDir, StepDown(cur));
      } else {
        assert !Dots(p);
        StrCpy(newPath, currentDir, cur);
        var n := StrLen(newPath, cur);
        newPath[n] := '/';
        StrAppend(newPath, n + 1, path, p, cur + "/");
      }
    }

    /** The CWD case: through a 256-byte buffer. */
    method ChangeDir(name: array<char>, ghost cur: string, ghost p: string)
      requires Holds(currentDir, cur) && Holds(name, p) && currentDir.Length == DIR_SIZE
      requires name != currentDir && |FullPath(cur, p).0| < SPARE_SIZE
      modifies currentDir
      ensures Holds(currentDir, Changed(cur, Cwd(p)))
      ensures "/" <= p ==> Holds(currentDir, p)
    {
      var spare := new char[SPARE_SIZE](_ => '\0');
      DoFullPath(name, spare, cur, p);
      assert "/" <= p ==> p[0] == '/';
      StrCpy(currentDir, spare, FullPath(cur, p).0);
    }

    /** The CDUP case. */
    method ChangeUp(ghost cur: string)
      requires Holds(currentDir, cur) && currentDir.Length == DIR_SIZE && |cur| < SPARE_SIZE
      modifies currentDir
      ensures Holds(currentDir, Changed(cur, Cdup))
    {
      var spare := new char[SPARE_SIZE](_ => '\0');
      StrCpy(spare, currentDir, cur);
      DoStepDown(spare, cur);
      StrCpy(currentDir, spare, StepDown(cur));
    }

    /** A command with its argument, from the buffer it was received in. */
    method Perform(c: Change, ghost cur: string)
      requires Holds(currentDir, cur) && currentDir.Length == DIR_SIZE
      requires |Spare(cur, c)| < SPARE_SIZE && NoNulIn(c)
      modifies currentDir
      ensures Holds(currentDir, Changed(cur, c))
    {
      match c {
        case Cwd(name) =>
          var buf := Argument(name);
          ChangeDir(buf, cur, name);
        case Cdup =>
          ChangeUp(cur);
        case Use(path) =>
          var buf := Argument(path);
          var spare := new char[SPARE_SIZE](_ => '\0');
          DoFullPath(buf, spare, cur, path);
      }
    }

    /** Any commands that fit the 256-byte buffer, one after the other. */
    method Serve(changes: seq<Change>, ghost cur: string)
      requires Holds(currentDir, cur) && currentDir.Length == DIR_SIZE
      requires FitsAll(cur, changes) && forall c :: c in changes ==> NoNulIn(c)
      modifies currentDir
      ensures Holds(currentDir, ChangedAll(cur, changes))
      // "CWD /" first: what follows goes on from the empty stack.
      ensures forall more {:trigger Stacks([], more)} ::
        changes == [Cwd("/")] + more && (forall c :: c in more && c.Cwd? ==> IsName(c.name)) ==>
        Holds(currentDir, Shown(Stacks([], more)))
    {
      for k := 0 to |changes|
        invariant Holds(currentDir, ChangedAll(cur, changes[..k]))
      {
        assert FitsSpare(cur, changes, k);
        assert changes[..k + 1][..k] == changes[..k] && changes[k] in changes;
        Perform(changes[k], ChangedAll(cur, changes[..k]));
      }
      assert changes[..|changes|] == changes;
      forall more | changes == [Cwd("/")] + more && forall c :: c in more && c.Cwd? ==> IsName(c.name)
        ensures ChangedAll(cur, changes) == Shown(Stacks([], more))
      {
        RootForgets(cur, more);
      }
    }
  }

  predicate NoNulIn(c: Change) {
    match c
    case Cwd(name) => '\0' !in name
    case Cdup => true
    case Use(path) => '\0' !in path
  }

  /** A string in a buffer of its own. */
  method Argument(p: string) returns (buf: array<char>)
    requires '\0' !in p
    ensures fresh(buf) && Holds(buf, p)
  {
    buf := new char[|p| + 1](i => if 0 <= i < |p| then p[i] else '\0');
  }
}
