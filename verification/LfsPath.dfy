/** The current-directory buffer of extmod/vfs_lfsx.c: make_path, chdir with its
    in-place normalisation, getcwd. */
module LfsPath {
  import opened Paths
  import opened Seqs

  // ----- Paths as components

  /** The components of a text in which each one is closed by a slash. */
  function Comps(s: string): (cs: seq<string>)
    decreases |s|
  {
    if s == "" then []
    else
      var i := SlashIndex(s);
      if i == |s| then [s] else [s[..i]] + Comps(s[i + 1..])
  }

  /** One component applied to a directory. */
  function Enter(dir: seq<string>, c: string): seq<string> {
    if c == "" || c == "." then dir
    else if c == ".." then (if dir == [] then [] else dir[..|dir| - 1])
    else dir + [c]
  }

  function Resolve(dir: seq<string>, cs: seq<string>): seq<string>
    decreases |cs|
  {
    if cs == [] then dir else Resolve(Enter(dir, cs[0]), cs[1..])
  }

  /** A component that names a directory entry. */
  predicate Name(c: string) {
    c != "" && c != "." && c != ".." && '/' !in c
  }

  predicate Clean(dir: seq<string>) { forall i :: 0 <= i < |dir| ==> Name(dir[i]) }

  /** The buffer that stands for a directory: every name followed by a slash. */
  function Render(dir: seq<string>): (s: string)
    ensures s != "" && s[0] == '/' && s[|s| - 1] == '/'
  {
    if dir == [] then "/" else Render(dir[..|dir| - 1]) + dir[|dir| - 1] + "/"
  }

  // ----- Laws of the reference

  lemma {:induction false} ResolveClean(dir: seq<string>, cs: seq<string>)
    requires Clean(dir) && forall i :: 0 <= i < |cs| ==> '/' !in cs[i]
    ensures Clean(Resolve(dir, cs))
    decreases |cs|
  {
    if cs != [] {
      ResolveClean(Enter(dir, cs[0]), cs[1..]);
    }
  }

  lemma {:induction false} CompsNoSlash(s: string)
    ensures forall i :: 0 <= i < |Comps(s)| ==> '/' !in Comps(s)[i]
    decreases |s|
  {
    if s != "" {
      var i := SlashIndex(s);
      if i < |s| {
        CompsNoSlash(s[i + 1..]);
      }
    }
  }

  /** Changing directory twice is changing once along the joined path. */
  lemma {:induction false} ResolveAppend(dir: seq<string>, a: seq<string>, b: seq<string>)
    ensures Resolve(dir, a + b) == Resolve(Resolve(dir, a), b)
    decreases |a|
  {
    if a == [] {
      assert a + b == b;
    } else {
      assert (a + b)[1..] == a[1..] + b;
      ResolveAppend(Enter(dir, a[0]), a[1..], b);
    }
  }

  lemma {:induction false} ResolveNames(dir: seq<string>, names: seq<string>)
    requires Clean(names)
    ensures Resolve(dir, names) == dir + names
    decreases |names|
  {
    if names == [] {
      assert dir + names == dir;
    } else {
      assert Name(names[0]);
      ResolveNames(dir + [names[0]], names[1..]);
      assert dir + [names[0]] + names[1..] == dir + names;
    }
  }

  lemma CompsStep(c: string, s: string)
    requires '/' !in c
    ensures Comps(c + "/" + s) == [c] + Comps(s)
  {
    SlashAt(c, s);
    var t := c + "/" + s;
    assert t[..|c|] == c && t[|c| + 1..] == s;
  }

  lemma TailAssoc(r: string, c: string, s: string)
    requires r != ""
    ensures (r + c + "/")[1..] + s == r[1..] + (c + "/" + s)
  {
  }

  lemma JoinLast<T>(dir: seq<T>, t: seq<T>)
    requires dir != []
    ensures dir[..|dir| - 1] + ([dir[|dir| - 1]] + t) == dir + t
  {
  }

  /** A rendered directory reads back as its names. */
  lemma {:induction false} CompsRender(dir: seq<string>, s: string)
    requires Clean(dir)
    ensures Comps(Render(dir)[1..] + s) == dir + Comps(s)
    decreases |dir|
  {
    if dir == [] {
      assert Render(dir)[1..] + s == s;
      assert dir + Comps(s) == Comps(s);
    } else {
      var last := |dir| - 1;
      var c := dir[last];
      assert Name(c);
      TailAssoc(Render(dir[..last]), c, s);
      hide Comps, Render;
      CompsRender(dir[..last], c + "/" + s);
      CompsStep(c, s);
      JoinLast(dir, Comps(s));
    }
  }

  /** A directory is determined by its buffer. */
  lemma RenderInjective(a: seq<string>, b: seq<string>)
    requires Clean(a) && Clean(b) && Render(a) == Render(b)
    ensures a == b
  {
    CompsRender(a, "");
    CompsRender(b, "");
    assert Comps("") == [];
    assert a + [] == a && b + [] == b;
    assert Render(a)[1..] + "" == Render(b)[1..] + "";
  }

  /** Going down and back up leads nowhere. */
  lemma DownUp(dir: seq<string>, name: string)
    requires Name(name)
    ensures Resolve(dir, [name, ".."]) == dir
  {
    assert [name, ".."][1..] == [".."];
    assert (dir + [name])[..|dir|] == dir;
    assert Resolve(dir, [name, ".."]) == Resolve(dir + [name], [".."]);
    assert Resolve(dir + [name], [".."]) == Resolve(Enter(dir + [name], ".."), [".."][1..]);
  }

  predicate Absolute(path: string) { path != "" && path[0] == '/' }

  /** The directory that `path` names when the current one is `dir`. */
  function Target(dir: seq<string>, path: string): seq<string> {
    if Absolute(path) then Resolve([], Comps(path[1..] + "/")) else Resolve(dir, Comps(path + "/"))
  }

  lemma SplitAt(s: string, i: nat, t: string)
    requires i < |s| && s[i] == '/'
    ensures s + "/" + t == s[..i] + "/" + (s[i + 1..] + "/" + t)
    ensures s + "/" == s[..i] + "/" + (s[i + 1..] + "/")
  {
  }

  lemma CompsLast(s: string)
    requires '/' !in s
    ensures Comps(s + "/") == [s]
  {
    CompsStep(s, "");
    assert s + "/" + "" == s + "/";
  }

  lemma {:induction false} CompsAppend(s: string, t: string)
    ensures Comps(s + "/" + t) == Comps(s + "/") + Comps(t)
    decreases |s|
  {
    hide Comps;
    var i := SlashIndex(s);
    if i == |s| {
      assert '/' !in s;
      CompsStep(s, t);
      CompsLast(s);
    } else {
      var a, b := s[..i], s[i + 1..];
      assert '/' !in a;
      SplitAt(s, i, t);
      CompsStep(a, b + "/" + t);
      CompsStep(a, b + "/");
      CompsAppend(b, t);
      assert [a] + (Comps(b + "/") + Comps(t)) == [a] + Comps(b + "/") + Comps(t);
    }
  }

  /** Two changes of directory are one along the joined path. */
  lemma TargetJoin(dir: seq<string>, a: string, b: string)
    requires a != "" && !Absolute(b)
    ensures Target(Target(dir, a), b) == Target(dir, a + "/" + b)
  {
    hide Comps, Resolve;
    if Absolute(a) {
      assert (a + "/" + b)[1..] + "/" == a[1..] + "/" + (b + "/");
      CompsAppend(a[1..], b + "/");
      ResolveAppend([], Comps(a[1..] + "/"), Comps(b + "/"));
    } else {
      assert a + "/" + b + "/" == a + "/" + (b + "/");
      CompsAppend(a, b + "/");
      ResolveAppend(dir, Comps(a + "/"), Comps(b + "/"));
    }
  }

  lemma TargetClean(dir: seq<string>, path: string)
    requires Clean(dir)
    ensures Clean(Target(dir, path))
  {
    var start, rest := if Absolute(path) then [] else dir, if Absolute(path) then path[1..] + "/" else path + "/";
    CompsNoSlash(rest);
    hide Comps, Resolve;
    ResolveClean(start, Comps(rest));
  }

  /** The directory's name as getcwd gives it. */
  function CwdOf(buf: string): string {
    if |buf| == 1 then "/" else if buf == "" then "" else buf[..|buf| - 1]
  }

  lemma RootTarget(dir: seq<string>)
    ensures Resolve([], Comps("/")) == [] && Target(dir, "/") == []
  {
  }

  lemma CutTail(r: string)
    requires |r| >= 2 && r[|r| - 1] == '/'
    ensures r[..|r| - 1][1..] + "/" == r[1..] + ""
  {
  }

  /** Changing to what getcwd returned, from anywhere, comes back. */
  lemma CwdNames(dir: seq<string>, from: seq<string>)
    requires Clean(dir)
    ensures Absolute(CwdOf(Render(dir))) && Target(from, CwdOf(Render(dir))) == dir
  {
    if dir == [] {
      RootTarget(from);
    } else {
      RenderLong(dir);
      CutTail(Render(dir));
      CompsRender(dir, "");
      assert Comps("") == [];
      hide Render, Comps, Resolve;
      ResolveNames([], dir);
      assert dir + [] == dir && [] + dir == dir;
    }
  }

  lemma RenderLong(dir: seq<string>)
    requires Clean(dir) && dir != []
    ensures |Render(dir)| >= 3
  {
  }

  lemma TailJoin(r: string, path: string)
    requires r != ""
    ensures (r + path)[1..] + "/" == r[1..] + (path + "/")
  {
  }

  /** The full text chdir normalises leads from the root to the target. */
  lemma FullPath(dir: seq<string>, path: string)
    requires Clean(dir)
    ensures var full := if Absolute(path) then path else Render(dir) + path;
      full != "" && full[0] == '/' && Resolve([], Comps(full[1..] + "/")) == Target(dir, path)
  {
    if !Absolute(path) {
      NonEmpty(dir);
      hide Comps, Resolve, Render;
      TailJoin(Render(dir), path);
      CompsRender(dir, path + "/");
      ResolveAppend([], dir, Comps(path + "/"));
      ResolveNames([], dir);
      assert [] + dir == dir;
    }
  }

  lemma StartInv(full: string, goal: seq<string>)
    requires full != "" && full[0] == '/' && Resolve([], Comps(full[1..] + "/")) == goal
    ensures LoopInv(full + "/", 1, [], goal)
    ensures |full| == 1 ==> full == Render(goal) && goal == []
  {
    var buf := full + "/";
    assert buf[1..] == full[1..] + "/";
    assert buf[..1] == "/" == Render([]);
    if |full| == 1 {
      assert full == "/" && full[1..] + "/" == "/";
      RootTarget([]);
    }
  }

  // ----- The buffer operations

  /** vstr_cut_out_bytes. */
  function CutOut(s: string, pos: nat, n: nat): string {
    if pos >= |s| then s
    else if pos + n >= |s| then s[..pos]
    else s[..pos] + s[pos + n..]
  }

  /** The loop state of chdir: `buf[..to]` is done, `buf[to..]` is still to be
      normalised (and empty or closed by a slash). */
  ghost predicate LoopInv(buf: string, to: nat, dir: seq<string>, goal: seq<string>) {
    && Clean(dir)
    && if to <= |buf| then
         && buf[..to] == Render(dir) && Resolve(dir, Comps(buf[to..])) == goal
         && (to < |buf| ==> buf[|buf| - 1] == '/')
       else
         to == |buf| + 1 && buf == Render(dir) && dir == goal
  }

  /** Squeezing out a slash skips an empty component. */
  lemma SkipSlash(dir: seq<string>, s: string)
    requires s != "" && s[0] == '/'
    ensures Resolve(dir, Comps(s)) == Resolve(dir, Comps(s[1..]))
  {
  }

  lemma {:induction false} SkipSlashes(dir: seq<string>, s: string, n: nat)
    requires n <= |s| && forall k :: 0 <= k < n ==> s[k] == '/'
    ensures Resolve(dir, Comps(s)) == Resolve(dir, Comps(s[n..]))
    decreases n
  {
    if n > 0 {
      SkipSlash(dir, s);
      SkipSlashes(dir, s[1..], n - 1);
      assert s[1..][n - 1..] == s[n..];
    }
  }

  /** Taking the next component of the unprocessed text. */
  lemma TakeComponent(dir: seq<string>, s: string, n: nat)
    requires n < |s| && s[n] == '/' && forall k :: 0 <= k < n ==> s[k] != '/'
    ensures Resolve(dir, Comps(s)) == Resolve(Enter(dir, s[..n]), Comps(s[n + 1..]))
  {
    assert SlashIndex(s) == n;
    assert Comps(s)[1..] == Comps(s[n + 1..]);
  }

  lemma RenderPush(dir: seq<string>, c: string)
    ensures Render(dir + [c]) == Render(dir) + c + "/"
  {
  }

  /** The scan back over the last name stops at the parent's end. */
  lemma ParentEnd(dir: seq<string>)
    requires Clean(dir) && dir != []
    ensures var parent := Render(dir[..|dir| - 1]);
      && |parent| + 2 <= |Render(dir)| && Render(dir)[..|parent|] == parent
      && parent[|parent| - 1] == '/'
      && forall k :: |parent| <= k < |Render(dir)| - 1 ==> Render(dir)[k] != '/'
  {
  }

  lemma RenderShort(dir: seq<string>)
    requires Clean(dir) && |Render(dir)| <= 1
    ensures dir == []
  {
  }

  /** Where the parent of a rendered directory ends in the buffer. */
  lemma ParentAt(buf: string, to: nat, dir: seq<string>) returns (end: nat)
    requires Clean(dir) && to <= |buf| && buf[..to] == Render(dir)
    ensures 1 <= end <= to && buf[..end] == Render(Enter(dir, ".."))
    ensures to <= 1 ==> end == to
    ensures to > 1 ==> end < to && buf[end - 1] == '/' && forall k :: end <= k < to - 1 ==> buf[k] != '/'
  {
    NonEmpty(dir);
    assert forall k :: 0 <= k < to ==> buf[k] == Render(dir)[k];
    if to <= 1 {
      RenderShort(dir);
      end := to;
    } else {
      assert |Render([])| == 1;
      ParentEnd(dir);
      end := |Render(dir[..|dir| - 1])|;
      assert buf[..end] == Render(dir)[..end];
    }
  }

  /** Slashes before a component are squeezed out. */
  lemma InvSqueeze(buf: string, to: nat, from: nat, dir: seq<string>, goal: seq<string>)
    requires LoopInv(buf, to, dir, goal) && to <= from <= |buf| && forall k :: to <= k < from ==> buf[k] == '/'
    ensures LoopInv(CutOut(buf, to, from - to), to, dir, goal)
    ensures |CutOut(buf, to, from - to)| == |buf| - (from - to)
    ensures from < |buf| ==> CutOut(buf, to, from - to)[to] == buf[from]
  {
    hide Resolve, Comps, Render, CutOut;
    SkipSlashes(dir, buf[to..], from - to);
    DropDrop(buf, to, from - to);
    CutParts(buf, to, from - to);
  }

  lemma CutParts(buf: string, t: nat, n: nat)
    requires t + n <= |buf|
    ensures var cut := CutOut(buf, t, n);
      && |cut| == |buf| - n && cut[..t] == buf[..t] && cut[t..] == buf[t + n..]
      && (t + n < |buf| ==> cut[t] == buf[t + n] && cut[|cut| - 1] == buf[|buf| - 1])
  {
  }

  /** A dot component is cut out, from `t` (where its effect ends) on. */
  lemma InvCut(buf: string, to: nat, from: nat, dir: seq<string>, goal: seq<string>, t: nat, c: string)
    requires LoopInv(buf, to, dir, goal) && to < from < |buf| && buf[from] == '/'
    requires forall k :: to <= k < from ==> buf[k] != '/'
    requires buf[to..from] == c && (c == "." || c == "..")
    requires t <= to && buf[..t] == Render(Enter(dir, c))
    ensures LoopInv(CutOut(buf, t, from + 1 - t), t, Enter(dir, c), goal)
    ensures |CutOut(buf, t, from + 1 - t)| == |buf| - (from + 1 - t)
  {
    hide Resolve, Comps, Render, CutOut, Clean;
    NextComponent(buf, to, from, dir);
    CutParts(buf, t, from + 1 - t);
    EnterClean(dir, c);
  }

  lemma EnterClean(dir: seq<string>, c: string)
    requires Clean(dir) && (c == "." || c == "..")
    ensures Clean(Enter(dir, c))
  {
  }

  /** The component between `to` and the slash at `from`. */
  lemma NextComponent(buf: string, to: nat, from: nat, dir: seq<string>)
    requires to < from < |buf| && buf[from] == '/' && forall k :: to <= k < from ==> buf[k] != '/'
    ensures Resolve(dir, Comps(buf[to..])) == Resolve(Enter(dir, buf[to..from]), Comps(buf[from + 1..]))
  {
    hide *;
    var rest, n := buf[to..], from - to;
    assert rest[n] == buf[from];
    forall k | 0 <= k < n ensures rest[k] != '/' {
      assert rest[k] == buf[to + k];
    }
    TakeComponent(dir, rest, n);
    DropDrop(buf, to, n + 1);
    assert rest[..n] == buf[to..from];
  }

  lemma LongFront(buf: string, t: nat, dir: seq<string>)
    requires t <= |buf| && buf[..t] == Render(dir)
    ensures t >= 1
  {
  }

  /** A name stays where it is. */
  lemma InvKeep(buf: string, to: nat, from: nat, dir: seq<string>, goal: seq<string>)
    requires LoopInv(buf, to, dir, goal) && to < from < |buf| && buf[from] == '/'
    requires forall k :: to <= k < from ==> buf[k] != '/'
    requires buf[to..from] != "." && buf[to..from] != ".."
    ensures LoopInv(buf, from + 1, dir + [buf[to..from]], goal)
  {
    hide Resolve, Comps, Render;
    var c := buf[to..from];
    NextComponent(buf, to, from, dir);
    RenderPush(dir, c);
    PrefixNext(buf, to, from);
    NameAt(buf, to, from);
  }

  lemma PrefixNext(buf: string, to: nat, from: nat)
    requires to <= from < |buf| && buf[from] == '/'
    ensures buf[..from + 1] == buf[..to] + buf[to..from] + "/"
  {
  }

  lemma NameAt(buf: string, to: nat, from: nat)
    requires to < from <= |buf| && (forall k :: to <= k < from ==> buf[k] != '/')
    requires buf[to..from] != "." && buf[to..from] != ".."
    ensures Name(buf[to..from])
  {
    var c := buf[to..from];
    assert forall k :: 0 <= k < |c| ==> c[k] == buf[to + k];
  }

  lemma DotsAt(buf: string, to: nat, from: nat)
    requires to < from <= |buf|
    ensures buf[to..from] == "." <==> from - to == 1 && buf[to] == '.'
    ensures buf[to..from] == ".." <==> from - to == 2 && buf[to] == '.' && buf[to + 1] == '.'
  {
  }

  lemma NonEmpty(dir: seq<string>)
    ensures |Render(dir)| >= 1
  {
  }

  lemma InvDot(buf: string, to: nat, dir: seq<string>, goal: seq<string>)
    requires LoopInv(buf, to, dir, goal) && to + 1 < |buf| && buf[to] == '.' && buf[to + 1] == '/'
    ensures LoopInv(CutOut(buf, to, 2), to, dir, goal)
    ensures |CutOut(buf, to, 2)| == |buf| - 2
  {
    hide LoopInv, CutOut, Render;
    InvFront(buf, to, dir, goal);
    DotsAt(buf, to, to + 1);
    InvCut(buf, to, to + 1, dir, goal, to, ".");
  }

  lemma InvDots(buf: string, to: nat, dir: seq<string>, goal: seq<string>, t: nat)
    requires LoopInv(buf, to, dir, goal) && to + 2 < |buf|
    requires buf[to] == '.' && buf[to + 1] == '.' && buf[to + 2] == '/'
    requires t <= to && buf[..t] == Render(Enter(dir, ".."))
    ensures LoopInv(CutOut(buf, t, to + 3 - t), t, Enter(dir, ".."), goal)
    ensures |CutOut(buf, t, to + 3 - t)| == |buf| - (to + 3 - t)
    ensures t >= 1
  {
    hide LoopInv, Enter, CutOut, Render;
    DotsAt(buf, to, to + 2);
    LongFront(buf, t, Enter(dir, ".."));
    InvCut(buf, to, to + 2, dir, goal, t, "..");
  }

  lemma InvName(buf: string, to: nat, from: nat, dir: seq<string>, goal: seq<string>)
    requires LoopInv(buf, to, dir, goal) && to < from < |buf| && buf[from] == '/'
    requires forall k :: to <= k < from ==> buf[k] != '/'
    requires !(from - to == 1 && buf[to] == '.') && !(from - to == 2 && buf[to] == '.' && buf[to + 1] == '.')
    ensures LoopInv(buf, from + 1, dir + [buf[to..from]], goal)
  {
    DotsAt(buf, to, from);
    hide LoopInv;
    InvKeep(buf, to, from, dir, goal);
  }

  lemma InvFront(buf: string, to: nat, dir: seq<string>, goal: seq<string>)
    requires LoopInv(buf, to, dir, goal) && to < |buf|
    ensures Clean(dir) && buf[..to] == Render(dir) && buf[|buf| - 1] == '/'
  {
  }

  /** Nothing is left. */
  lemma InvEnd(buf: string, dir: seq<string>, goal: seq<string>)
    requires LoopInv(buf, |buf|, dir, goal)
    ensures LoopInv(buf, |buf| + 1, dir, goal)
  {
  }

  /** MP_VFS_LFSx: just the current-directory buffer. */
  class LfsVfs {
    var curDir: string

    ghost predicate Valid()
      reads this
    {
      exists dir :: Clean(dir) && curDir == Render(dir)
    }

    /** The directory the buffer stands for. */
    ghost function Dir(): (dir: seq<string>)
      reads this
      requires Valid()
      ensures Clean(dir) && curDir == Render(dir)
    {
      var dir :| Clean(dir) && curDir == Render(dir);
      dir
    }

    constructor ()
      ensures Valid() && Dir() == []
    {
      curDir := "/";
      new;
      assert Render([]) == "/";
      assert Clean([]);
      RenderInjective(Dir(), []);
    }

    /** make_path. */
    function MakePath(path: string): (p: string)
      reads this
    {
      if Absolute(path) then path
      else if |curDir| > 0 then curDir + path
      else path
    }

    /** getcwd: without the trailing slash, except at the root. */
    method Getcwd() returns (s: string)
      requires Valid()
      ensures forall from :: Target(from, s) == Dir()
    {
      ghost var dir := Dir();
      forall from ensures Target(from, CwdOf(Render(dir))) == dir { CwdNames(dir, from); }
      NonEmpty(dir);
      if |curDir| == 1 {
        s := "/";
      } else {
        s := curDir[..|curDir| - 1];
      }
      assert s == CwdOf(Render(dir));
    }

    /** chdir: `isDir` is what the file system answers about the full path. */
    method Chdir(path: string, isDir: string -> bool) returns (ok: bool)
      requires Valid()
      modifies this
      ensures Valid()
      ensures ok <==> |old(MakePath(path))| < 2 || isDir(old(MakePath(path)))
      ensures Dir() == if ok then Target(old(Dir()), path) else old(Dir())
    {
      ghost var dir := Dir();
      ghost var goal := Target(dir, path);
      TargetClean(dir, path);
      FullPath(dir, path);
      NonEmpty(dir);
      hide Render, Comps, Resolve, Clean, Target;
      var full := MakePath(path);
      if |full| >= 2 && !isDir(full) {
        return false;
      }
      curDir := full;
      StartInv(full, goal);
      if |curDir| != 1 {
        curDir := curDir + "/";
        Normalise(goal);
      }
      RenderInjective(Dir(), goal);
      ok := true;
    }

    /** Step back over `../`: to the end of the parent directory. */
    method StepBack(to0: nat, ghost dir: seq<string>) returns (to: nat)
      requires Clean(dir) && to0 <= |curDir| && curDir[..to0] == Render(dir)
      ensures to <= to0 && curDir[..to] == Render(Enter(dir, ".."))
    {
      hide Render, Enter, Clean;
      to := to0;
      ghost var end := ParentAt(curDir, to0, dir);
      if to > 1 {
        to := to - 1;
        while to > 1 && curDir[to - 1] != '/'
          invariant end <= to < to0
        {
          to := to - 1;
        }
      }
    }

    /** Squeeze out the slashes before the next component. */
    method Squeeze(to: nat, ghost dir: seq<string>, ghost goal: seq<string>)
      requires to < |curDir| && LoopInv(curDir, to, dir, goal)
      modifies this
      ensures LoopInv(curDir, to, dir, goal) && to <= |curDir| <= old(|curDir|)
      ensures to < |curDir| ==> curDir[to] != '/'
      ensures |curDir| == to ==> old(|curDir|) > to
    {
      hide LoopInv;
      var from := to;
      while from < |curDir| && curDir[from] == '/'
        invariant to <= from <= |curDir|
        invariant forall k :: to <= k < from ==> curDir[k] == '/'
      {
        from := from + 1;
      }
      if from > to {
        InvSqueeze(curDir, to, from, dir, goal);
        curDir := CutOut(curDir, to, from - to);
      }
    }

    /** The next component ends at a slash. */
    method ScanName(to: nat) returns (from: nat)
      requires to < |curDir| && curDir[to] != '/' && curDir[|curDir| - 1] == '/'
      ensures to < from < |curDir| && curDir[from] == '/'
      ensures forall k :: to <= k < from ==> curDir[k] != '/'
    {
      from := to;
      while from < |curDir| && curDir[from] != '/'
        invariant to <= from < |curDir|
        invariant forall k :: to <= k < from ==> curDir[k] != '/'
      {
        from := from + 1;
      }
    }

    /** Handle the component `curDir[to..from]`: a dot, dots or a name. */
    method TakeName(to0: nat, from0: nat, ghost dir0: seq<string>, ghost goal: seq<string>)
        returns (to: nat, ghost dir: seq<string>)
      requires 1 <= to0 < from0 < |curDir| && curDir[from0] == '/'
      requires forall k :: to0 <= k < from0 ==> curDir[k] != '/'
      requires LoopInv(curDir, to0, dir0, goal)
      modifies this
      ensures to >= 1 && LoopInv(curDir, to, dir, goal)
      ensures |curDir| - to < old(|curDir|) - to0
    {
      hide LoopInv, Render, Enter, CutOut, Clean;
      to := to0;
      var from := from0;
      if from - to == 1 && curDir[to] == '.' {
        InvDot(curDir, to, dir0, goal);
        from := from + 1;
        curDir := CutOut(curDir, to, from - to);
        dir := dir0;
      } else if from - to == 2 && curDir[to] == '.' && curDir[to + 1] == '.' {
        InvFront(curDir, to, dir0, goal);
        to := StepBack(to, dir0);
        InvDots(curDir, to0, dir0, goal, to);
        from := from + 1;
        curDir := CutOut(curDir, to, from - to);
        dir := Enter(dir0, "..");
      } else {
        InvName(curDir, to, from, dir0, goal);
        dir := dir0 + [curDir[to..from]];
        from := from + 1;
        to := from;
      }
    }

    /** One round of the normalisation loop. */
    method NormaliseOne(to0: nat, ghost dir0: seq<string>, ghost goal: seq<string>)
        returns (to: nat, ghost dir: seq<string>)
      requires 1 <= to0 < |curDir| && LoopInv(curDir, to0, dir0, goal)
      modifies this
      ensures to >= 1 && LoopInv(curDir, to, dir, goal)
      ensures |curDir| - to < old(|curDir|) - to0
    {
      hide LoopInv;
      Squeeze(to0, dir0, goal);
      if to0 < |curDir| {
        InvFront(curDir, to0, dir0, goal);
        var from := ScanName(to0);
        to, dir := TakeName(to0, from, dir0, goal);
      } else {
        InvEnd(curDir, dir0, goal);
        to, dir := to0 + 1, dir0;
      }
    }

    /** The normalisation of chdir: the buffer, closed by a slash, becomes the
        directory that its components lead to. */
    method Normalise(ghost goal: seq<string>)
      requires LoopInv(curDir, 1, [], goal)
      modifies this
      ensures Clean(goal) && curDir == Render(goal)
    {
      var to := 1;
      ghost var dir := [];
      while to < |curDir|
        invariant to >= 1 && LoopInv(curDir, to, dir, goal)
        decreases |curDir| + 1 - to
      {
        hide Comps, Resolve, Render;
        to, dir := NormaliseOne(to, dir, goal);
      }
      if to == |curDir| {
        InvEnd(curDir, dir, goal);
      }
    }
  }
}
