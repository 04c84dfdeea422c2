/** The mount table of extmod/vfs.c: lookup, mount, umount, chdir. */
module VfsMount {
  import opened Paths

  /** mp_vfs_mount_t; `id` is the record's identity. */
  datatype Mount = Mount(id: nat, str: string, obj: nat) {
    predicate Root() { |str| == 1 }

    /** The mount point without its leading slash. */
    function Name(): string { if str == "" then "" else str[1..] }
  }

  datatype Found = NotFound | VirtualRoot | In(mount: Mount, rest: string)

  datatype Vfs = Vfs(table: seq<Mount>, cur: Current, nextId: nat)

  /** vfs_cur: the virtual root or a mount. */
  datatype Current = AtRoot | At(mount: Mount)

  datatype Outcome = Ok(vfs: Vfs) | Error(code: Errno)

  /** FsError stands for whatever the file system itself raised. */
  datatype Errno = EPERM | ENODEV | EINVAL | FsError

  // ----- Lookup

  /** The mount at `name` holds `path`: equal, or followed by a slash. */
  predicate Covers(name: string, path: string) {
    name <= path && (|path| == |name| || path[|name|] == '/')
  }

  predicate Matches(m: Mount, path: string) {
    m.Root() || Covers(m.Name(), path)
  }

  /** The path within the matching file system. */
  function Rest(m: Mount, path: string, abs: bool): string
    requires Matches(m, path)
  {
    if m.Root() then (if abs then "/" + path else path)
    else if |path| == |m.Name()| then "/"
    else path[|m.Name()|..]
  }

  /** The first entry that matches. */
  function Search(table: seq<Mount>, path: string, abs: bool): Found {
    if table == [] then NotFound
    else if Matches(table[0], path) then In(table[0], Rest(table[0], path, abs))
    else Search(table[1..], path, abs)
  }

  function Lookup(v: Vfs, path: string): Found {
    if (path != "" && path[0] == '/') || v.cur.AtRoot? then
      var abs := path != "" && path[0] == '/';
      var p := if abs then path[1..] else path;
      if p == "" then VirtualRoot else Search(v.table, p, abs)
    else
      In(v.cur.mount, path)
  }

  // ----- Changing the table

  /** The new entry goes in before the first root mount. */
  function Insert(table: seq<Mount>, m: Mount): seq<Mount> {
    if table == [] then [m]
    else if table[0].Root() then [m] + table
    else [table[0]] + Insert(table[1..], m)
  }

  function DoMount(v: Vfs, str: string, obj: nat): Outcome {
    var m := Mount(v.nextId, str, obj);
    var existing := Lookup(v, str);
    if existing.In? && !(!m.Root() && existing.mount.Root()) then Error(EPERM)
    else Ok(Vfs(Insert(v.table, m), v.cur, v.nextId + 1))
  }

  /** What umount is given: a mount point or a file system object. */
  datatype Target = Point(str: string) | Object(obj: nat)

  predicate Hits(m: Mount, t: Target) {
    match t
    case Point(str) => m.str == str
    case Object(obj) => m.obj == obj
  }

  function FirstHit(table: seq<Mount>, t: Target): (k: nat)
    ensures k <= |table| && (k < |table| ==> Hits(table[k], t))
    ensures forall i :: 0 <= i < k ==> !Hits(table[i], t)
  {
    if table == [] || Hits(table[0], t) then 0 else 1 + FirstHit(table[1..], t)
  }

  function DoUmount(v: Vfs, t: Target): Outcome {
    var k := FirstHit(v.table, t);
    if k == |v.table| then Error(EINVAL)
    else
      var cur := if v.cur == At(v.table[k]) then AtRoot else v.cur;
      Ok(Vfs(v.table[..k] + v.table[k + 1..], cur, v.nextId))
  }

  predicate HasRoot(table: seq<Mount>) { exists i :: 0 <= i < |table| && table[i].Root() }

  /** chdir; `accepts` is the answer of the file system that is asked: the one
      found, or for the virtual root the one mounted there, if any. */
  function DoChdir(v: Vfs, path: string, accepts: bool): Outcome {
    match Lookup(v, path)
    case NotFound => Error(ENODEV)
    case VirtualRoot => if HasRoot(v.table) && !accepts then Error(FsError) else Ok(v.(cur := AtRoot))
    case In(m, _) => if accepts then Ok(v.(cur := At(m))) else Error(FsError)
  }

  // ----- Components

  /** The slash-separated parts of a path. */
  function Split(s: string): (parts: seq<string>)
    ensures parts != []
    decreases |s|
  {
    var i := SlashIndex(s);
    if i == |s| then [s] else [s[..i]] + Split(s[i + 1..])
  }

  lemma SplitCons(a: string, b: string)
    requires '/' !in a
    ensures Split(a + "/" + b) == [a] + Split(b)
  {
    SlashAt(a, b);
    var t := a + "/" + b;
    assert t[..|a|] == a && t[|a| + 1..] == b;
  }

  lemma SplitParts(s: string, i: nat)
    requires i == SlashIndex(s) < |s|
    ensures '/' !in s[..i] && s == s[..i] + "/" + s[i + 1..]
    ensures Split(s) == [s[..i]] + Split(s[i + 1..])
  {
    CutAt(s, i);
  }

  lemma CutAt(s: string, i: nat)
    requires i < |s| && s[i] == '/' && forall k :: 0 <= k < i ==> s[k] != '/'
    ensures '/' !in s[..i] && s == s[..i] + "/" + s[i + 1..]
  {
  }

  lemma SplitOne(s: string)
    requires SlashIndex(s) == |s|
    ensures '/' !in s && Split(s) == [s]
  {
  }

  lemma Regroup(a: string, b: string, t: string)
    ensures a + "/" + b + "/" + t == a + "/" + (b + "/" + t)
  {
  }

  lemma {:induction false} SplitJoin(s: string, t: string)
    ensures Split(s + "/" + t) == Split(s) + Split(t)
    decreases |s|
  {
    hide Split;
    var i := SlashIndex(s);
    if i == |s| {
      SplitOne(s);
      SplitCons(s, t);
    } else {
      SplitParts(s, i);
      var a, b := s[..i], s[i + 1..];
      Regroup(a, b, t);
      SplitCons(a, b + "/" + t);
      SplitJoin(b, t);
      assert [a] + (Split(b) + Split(t)) == [a] + Split(b) + Split(t);
    }
  }

  /** A mount point holds a path exactly when its components start the path's. */
  lemma CoversIffPrefix(name: string, path: string)
    ensures Covers(name, path) <==> Split(name) <= Split(path)
  {
    if Covers(name, path) && name != path {
      assert path == name + "/" + path[|name| + 1..];
      SplitJoin(name, path[|name| + 1..]);
    }
    if Split(name) <= Split(path) {
      PrefixCovers(name, path);
    }
  }

  lemma {:induction false} PrefixCovers(name: string, path: string)
    requires Split(name) <= Split(path)
    ensures Covers(name, path)
    decreases |name|
  {
    hide Split;
    var i, j := SlashIndex(name), SlashIndex(path);
    if i == |name| {
      SplitOne(name);
      if j == |path| {
        SplitOne(path);
      } else {
        SplitParts(path, j);
        assert Split(path)[0] == name;
        assert name == path[..j];
      }
    } else {
      SplitParts(name, i);
      var a, b := name[..i], name[i + 1..];
      assert Split(name)[0] == a && |Split(name)| > 1;
      if j == |path| {
        SplitOne(path);
      } else {
        SplitParts(path, j);
        assert Split(path)[0] == a;
        var c := path[j + 1..];
        assert Split(b) == Split(name)[1..] <= Split(path)[1..] == Split(c);
        PrefixCovers(b, c);
        CoversUnder(a, b, c);
      }
    }
  }

  lemma CoversUnder(a: string, b: string, c: string)
    requires Covers(b, c)
    ensures Covers(a + "/" + b, a + "/" + c)
  {
  }

  // ----- What every run keeps

  ghost predicate Inv(v: Vfs) {
    && (forall i :: 0 <= i < |v.table| ==> Entry(v.table[i], v.nextId))
    && Ordered(v.table)
    && (v.cur.At? ==> v.cur.mount in v.table)
  }

  predicate Entry(m: Mount, nextId: nat) { m.str != "" && m.str[0] == '/' && m.id < nextId }

  /** `a` may stand before `b`: two records, roots last and the newest of them
      first, and no earlier mount point a component prefix of a later one. */
  predicate MayPrecede(a: Mount, b: Mount) {
    && a.id != b.id && (a.Root() ==> b.Root() && a.id > b.id)
    && (!a.Root() && !b.Root() ==> !Covers(a.Name(), b.Name()))
  }

  ghost predicate Ordered(table: seq<Mount>) {
    forall i, j :: 0 <= i < j < |table| ==> MayPrecede(table[i], table[j])
  }

  const START := Vfs([], AtRoot, 0)

  datatype Op = MountOp(str: string, obj: nat) | UmountOp(target: Target) | ChdirOp(path: string, accepts: bool)

  /** A call that fails leaves everything as it was. */
  function Step(v: Vfs, op: Op): Vfs {
    var r := match op
      case MountOp(str, obj) => DoMount(v, str, obj)
      case UmountOp(t) => DoUmount(v, t)
      case ChdirOp(path, accepts) => DoChdir(v, path, accepts);
    if r.Ok? then r.vfs else v
  }

  function Run(ops: seq<Op>): Vfs {
    if ops == [] then START else Step(Run(ops[..|ops| - 1]), ops[|ops| - 1])
  }

  predicate WellFormed(op: Op) {
    op.MountOp? ==> op.str != "" && op.str[0] == '/'
  }

  ghost predicate RootsLast(table: seq<Mount>) {
    forall i, j :: 0 <= i < j < |table| && table[i].Root() ==> table[j].Root()
  }

  lemma {:induction false} InsertAt(table: seq<Mount>, m: Mount) returns (k: nat)
    requires RootsLast(table)
    ensures k <= |table| && Placed(table, m, k)
    decreases |table|
  {
    if table == [] || table[0].Root() {
      k := 0;
      assert table[..0] + [m] + table[0..] == [m] + table;
    } else {
      var j := InsertAt(table[1..], m);
      k := j + 1;
      assert table[..k] == [table[0]] + table[1..][..j] && table[k..] == table[1..][j..];
    }
  }

  /** `m` stands at `k`, the non-roots before it and the roots after it. */
  ghost predicate Placed(table: seq<Mount>, m: Mount, k: int)
    requires 0 <= k <= |table|
  {
    && Insert(table, m) == table[..k] + [m] + table[k..]
    && (forall i :: 0 <= i < k ==> !table[i].Root())
    && (forall i :: k <= i < |table| ==> table[i].Root())
  }

  /** Mounting is refused only for a path that some non-root mount holds. */
  lemma {:induction false} SearchNone(table: seq<Mount>, path: string, abs: bool, i: nat)
    requires Ordered(table) && i < |table| && !table[i].Root()
    requires Search(table, path, abs).In? ==> Search(table, path, abs).mount.Root()
    ensures !Covers(table[i].Name(), path)
    decreases |table|
  {
    if i > 0 && !Matches(table[0], path) {
      SearchNone(table[1..], path, abs, i - 1);
    }
  }

  lemma MountKeeps(v: Vfs, str: string, obj: nat)
    requires Inv(v) && str != "" && str[0] == '/' && DoMount(v, str, obj).Ok?
    ensures Inv(DoMount(v, str, obj).vfs)
  {
    var m := Mount(v.nextId, str, obj);
    forall i | 0 <= i < |v.table| && !v.table[i].Root() && !m.Root()
      ensures !Covers(v.table[i].Name(), m.Name())
    {
      SearchNone(v.table, str[1..], true, i);
    }
    assert RootsLast(v.table);
    var k := InsertAt(v.table, m);
    PlacedInv(v, m, k);
  }

  lemma PlacedInv(v: Vfs, m: Mount, k: int)
    requires Inv(v) && Entry(m, v.nextId + 1) && m.id == v.nextId && 0 <= k <= |v.table|
    requires Placed(v.table, m, k)
    requires forall i :: 0 <= i < |v.table| && !v.table[i].Root() && !m.Root() ==> !Covers(v.table[i].Name(), m.Name())
    ensures Inv(Vfs(Insert(v.table, m), v.cur, v.nextId + 1))
  {
    PlacedPrecede(v, m, k);
    InsertOrdered(v.table, m, k);
    hide MayPrecede, Insert, Ordered, Entry;
    var t := v.table[..k] + [m] + v.table[k..];
    forall i | 0 <= i < |t| ensures Entry(t[i], v.nextId + 1) {
      InsertedIn(v.table, m, k, i);
      if t[i] != m {
        var j :| 0 <= j < |v.table| && v.table[j] == t[i];
        LaterEntry(v.table[j], v.nextId);
      }
    }
    if v.cur.At? {
      KeptIn(v.table, m, k, v.cur.mount);
    }
  }

  lemma PlacedPrecede(v: Vfs, m: Mount, k: int)
    requires Inv(v) && m.id == v.nextId && 0 <= k <= |v.table| && Placed(v.table, m, k)
    requires forall i :: 0 <= i < |v.table| && !v.table[i].Root() && !m.Root() ==> !Covers(v.table[i].Name(), m.Name())
    ensures forall i :: 0 <= i < |v.table| ==> if i < k then MayPrecede(v.table[i], m) else MayPrecede(m, v.table[i])
  {
    hide Covers, Ordered;
    forall i | 0 <= i < |v.table| ensures if i < k then MayPrecede(v.table[i], m) else MayPrecede(m, v.table[i]) {
      assert Entry(v.table[i], v.nextId);
    }
  }

  lemma LaterEntry(m: Mount, nextId: nat)
    requires Entry(m, nextId)
    ensures Entry(m, nextId + 1)
  {
  }

  lemma InsertedIn(table: seq<Mount>, m: Mount, k: int, i: int)
    requires 0 <= k <= |table| && 0 <= i <= |table|
    ensures var t := table[..k] + [m] + table[k..]; t[i] == m || t[i] in table
  {
  }

  lemma KeptIn(table: seq<Mount>, m: Mount, k: int, x: Mount)
    requires 0 <= k <= |table| && x in table
    ensures x in table[..k] + [m] + table[k..]
  {
    var i :| 0 <= i < |table| && table[i] == x;
    assert (table[..k] + [m] + table[k..])[if i < k then i else i + 1] == x;
  }

  lemma InsertOrdered(table: seq<Mount>, m: Mount, k: int)
    requires Ordered(table) && 0 <= k <= |table|
    requires forall i :: 0 <= i < |table| ==> if i < k then MayPrecede(table[i], m) else MayPrecede(m, table[i])
    ensures Ordered(table[..k] + [m] + table[k..])
  {
  }

  lemma RemoveOrdered(table: seq<Mount>, k: int)
    requires Ordered(table) && 0 <= k < |table|
    ensures Ordered(table[..k] + table[k + 1..])
  {
  }

  lemma UmountKeeps(v: Vfs, t: Target)
    requires Inv(v) && DoUmount(v, t).Ok?
    ensures Inv(DoUmount(v, t).vfs)
  {
    var k := FirstHit(v.table, t);
    RemoveOrdered(v.table, k);
    hide MayPrecede, FirstHit, Ordered, Entry;
    RemoveIn(v.table, k);
  }

  lemma RemoveIn(table: seq<Mount>, k: int)
    requires 0 <= k < |table|
    ensures forall m :: m in table[..k] + table[k + 1..] ==> m in table
    ensures forall m :: m in table && m != table[k] ==> m in table[..k] + table[k + 1..]
  {
  }

  lemma {:induction false} SearchFinds(table: seq<Mount>, path: string, abs: bool)
    requires Search(table, path, abs).In?
    ensures exists k :: 0 <= k < |table| && FirstMatch(table, path, abs, k)
    decreases |table|
  {
    if Matches(table[0], path) {
      assert FirstMatch(table, path, abs, 0);
    } else {
      SearchFinds(table[1..], path, abs);
      var k :| 0 <= k < |table| - 1 && FirstMatch(table[1..], path, abs, k);
      assert table[1..][k] == table[k + 1];
      forall i | 0 <= i < k + 1 ensures !Matches(table[i], path) {
        if i > 0 {
          assert table[1..][i - 1] == table[i];
        }
      }
      assert FirstMatch(table, path, abs, k + 1);
    }
  }

  ghost predicate FirstMatch(table: seq<Mount>, path: string, abs: bool, k: int)
    requires 0 <= k < |table|
  {
    && Matches(table[k], path) && Search(table, path, abs) == In(table[k], Rest(table[k], path, abs))
    && forall i :: 0 <= i < k ==> !Matches(table[i], path)
  }

  lemma {:induction false} SearchFails(table: seq<Mount>, path: string, abs: bool, i: nat)
    requires Search(table, path, abs).NotFound? && i < |table|
    ensures !Matches(table[i], path)
    decreases |table|
  {
    if i > 0 {
      SearchFails(table[1..], path, abs, i - 1);
    }
  }

  lemma ChdirKeeps(v: Vfs, path: string, accepts: bool)
    requires Inv(v) && DoChdir(v, path, accepts).Ok?
    ensures Inv(DoChdir(v, path, accepts).vfs)
  {
    var r := Lookup(v, path);
    if r.In? && (v.cur.AtRoot? || (path != "" && path[0] == '/')) {
      var abs := path != "" && path[0] == '/';
      SearchFinds(v.table, if abs then path[1..] else path, abs);
    }
  }

  /** After any run of mount, umount and chdir calls the table is in order. */
  lemma {:induction false} RunKeeps(ops: seq<Op>)
    requires forall i :: 0 <= i < |ops| ==> WellFormed(ops[i])
    ensures Inv(Run(ops))
    decreases |ops|
  {
    if ops != [] {
      var before, op := ops[..|ops| - 1], ops[|ops| - 1];
      RunKeeps(before);
      var v := Run(before);
      hide Inv, DoMount, DoUmount, DoChdir;
      match op {
        case MountOp(str, obj) => if DoMount(v, str, obj).Ok? { MountKeeps(v, str, obj); }
        case UmountOp(t) => if DoUmount(v, t).Ok? { UmountKeeps(v, t); }
        case ChdirOp(path, accepts) => if DoChdir(v, path, accepts).Ok? { ChdirKeeps(v, path, accepts); }
      }
    }
  }

  // ----- Lookup is longest-prefix match

  /** The components of a mount point; none for the root. */
  function Depth(m: Mount): seq<string> {
    if m.Root() then [] else Split(m.Name())
  }

  /** Two mount points that hold one path: one holds the other. */
  lemma CoversChain(a: string, b: string, path: string)
    requires Covers(a, path) && Covers(b, path)
    ensures Covers(a, b) || Covers(b, a)
  {
  }

  lemma MatchIffPrefix(m: Mount, p: string)
    ensures Matches(m, p) <==> Depth(m) <= Split(p)
  {
    if !m.Root() {
      CoversIffPrefix(m.Name(), p);
    }
  }

  /** `m` is the deepest mount whose components start the path's, the newest
      one if several roots are mounted. */
  ghost predicate Deepest(table: seq<Mount>, m: Mount, parts: seq<string>) {
    && m in table && Depth(m) <= parts
    && forall f :: f in table && Depth(f) <= parts ==> Depth(f) <= Depth(m) && (Depth(f) == Depth(m) ==> f.id <= m.id)
  }

  /** A path that is not looked up in the current file system. */
  predicate Global(v: Vfs, path: string) { (path != "" && path[0] == '/') || v.cur.AtRoot? }

  /** A path without its leading slash. */
  function Bare(path: string): string {
    if path != "" && path[0] == '/' then path[1..] else path
  }

  /** The leftover: the path itself under the root, else what follows the mount
      point, "/" if nothing does. */
  ghost predicate RestOf(m: Mount, path: string, rest: string) {
    if m.Root() then rest == path
    else rest != "" && rest[0] == '/' &&
         (m.str + rest == "/" + Bare(path) || (rest == "/" && m.str == "/" + Bare(path)))
  }

  /** `r` answers for `path`: the current file system, the virtual root, or the
      deepest mount that holds it. */
  ghost predicate Resolves(v: Vfs, path: string, r: Found) {
    if !Global(v, path) then r == In(v.cur.mount, path)
    else if Bare(path) == "" then r == VirtualRoot
    else
      match r
      case NotFound => forall m :: m in v.table ==> !(Depth(m) <= Split(Bare(path)))
      case VirtualRoot => false
      case In(m, rest) => Deepest(v.table, m, Split(Bare(path))) && RestOf(m, path, rest)
  }

  /** In an ordered table the first match is the longest: its components start
      the path's, every other match's start its own, and the rest is what follows. */
  lemma LookupLongest(v: Vfs, path: string)
    requires Inv(v)
    ensures Resolves(v, path, Lookup(v, path))
  {
    if Global(v, path) && Bare(path) != "" {
      var abs := path != "" && path[0] == '/';
      var p := Bare(path);
      assert Lookup(v, path) == Search(v.table, p, abs) && path == (if abs then "/" + p else p);
      hide Inv, Search, Lookup, Split;
      SearchNeverRoot(v.table, p, abs);
      if Search(v.table, p, abs).In? {
        FoundLongest(v, p, path, abs);
      } else {
        NothingFound(v, p, abs);
      }
    }
  }

  lemma FoundLongest(v: Vfs, p: string, path: string, abs: bool)
    requires Inv(v) && Search(v.table, p, abs).In?
    requires p == Bare(path) && path == if abs then "/" + p else p
    ensures var r := Search(v.table, p, abs);
      Deepest(v.table, r.mount, Split(p)) && RestOf(r.mount, path, r.rest)
  {
    SearchFinds(v.table, p, abs);
    var k :| 0 <= k < |v.table| && FirstMatch(v.table, p, abs, k);
    assert Entry(v.table[k], v.nextId);
    hide Deepest, RestOf, Split, Search, Bare;
    FirstIsDeepest(v, p, abs, k);
    RestIs(v.table[k], p, path, abs);
  }

  lemma NothingFound(v: Vfs, p: string, abs: bool)
    requires Search(v.table, p, abs).NotFound?
    ensures forall m :: m in v.table ==> !(Depth(m) <= Split(p))
  {
    hide Depth, Split, Search;
    forall m | m in v.table ensures !(Depth(m) <= Split(p)) {
      var j :| 0 <= j < |v.table| && v.table[j] == m;
      SearchFails(v.table, p, abs, j);
      MatchIffPrefix(m, p);
    }
  }

  lemma {:induction false} SearchNeverRoot(table: seq<Mount>, path: string, abs: bool)
    ensures !Search(table, path, abs).VirtualRoot?
    decreases |table|
  {
    if table != [] {
      SearchNeverRoot(table[1..], path, abs);
    }
  }

  lemma FirstIsDeepest(v: Vfs, p: string, abs: bool, k: int)
    requires Inv(v) && 0 <= k < |v.table| && FirstMatch(v.table, p, abs, k)
    ensures Deepest(v.table, v.table[k], Split(p))
  {
    hide Depth, Split, Search, Inv;
    MatchIffPrefix(v.table[k], p);
    forall m | m in v.table && Depth(m) <= Split(p)
      ensures Depth(m) <= Depth(v.table[k]) && (Depth(m) == Depth(v.table[k]) ==> m.id <= v.table[k].id)
    {
      MatchIffPrefix(m, p);
      var j :| 0 <= j < |v.table| && v.table[j] == m;
      LongerFirst(v, p, k, j);
    }
  }

  lemma RestIs(m: Mount, p: string, path: string, abs: bool)
    requires m.str != "" && m.str[0] == '/' && Matches(m, p)
    requires p == Bare(path) && path == if abs then "/" + p else p
    ensures RestOf(m, path, Rest(m, p, abs))
  {
  }

  lemma LongerFirst(v: Vfs, p: string, k: nat, j: nat)
    requires Inv(v) && k < |v.table| && j < |v.table| && Matches(v.table[j], p) && Matches(v.table[k], p)
    requires forall i :: 0 <= i < k ==> !Matches(v.table[i], p)
    ensures Depth(v.table[j]) <= Depth(v.table[k])
    ensures Depth(v.table[j]) == Depth(v.table[k]) ==> v.table[j].id <= v.table[k].id
  {
    var a, b := v.table[k], v.table[j];
    if j != k {
      assert k < j && MayPrecede(a, b);
      hide Split, Inv;
      if !b.Root() {
        CoversChain(a.Name(), b.Name(), p);
        CoversIffPrefix(b.Name(), a.Name());
        CoversIffPrefix(a.Name(), b.Name());
      }
    }
  }

  // ----- What a call does

  /** A mount at a point other than "/" that holds `point`. */
  ghost predicate Taken(table: seq<Mount>, point: string) {
    exists m :: m in table && !m.Root() && Depth(m) <= Split(Bare(point))
  }

  /** `after` is `before` and one more entry, behind the points and before the roots. */
  ghost predicate Added(before: seq<Mount>, after: seq<Mount>, m: Mount) {
    exists k :: 0 <= k <= |before| && after == before[..k] + [m] + before[k..]
      && (forall i :: 0 <= i < k ==> !before[i].Root()) && (forall i :: k <= i < |before| ==> before[i].Root())
  }

  /** `after` is `before` without the entry at `k`, and nobody is left in its
      file system. */
  ghost predicate Removed(before: Vfs, after: Vfs, k: int)
    requires 0 <= k < |before.table|
  {
    && after.table == before.table[..k] + before.table[k + 1..] && after.nextId == before.nextId
    && after.cur == if before.cur == At(before.table[k]) then AtRoot else before.cur
  }

  /** What mounting at an absolute `str` has to do. */
  ghost predicate Mounts(v: Vfs, str: string, obj: nat, r: Outcome) {
    match r
    case Error(code) => code == EPERM && str != "/" && Taken(v.table, str)
    case Ok(w) =>
      && (str == "/" || !Taken(v.table, str))
      && Added(v.table, w.table, Mount(v.nextId, str, obj)) && w.cur == v.cur && w.nextId == v.nextId + 1
  }

  /** A mount point is refused exactly if another one, or itself, already holds
      it; "/" never is, whatever is mounted there. */
  lemma MountMeans(v: Vfs, str: string, obj: nat)
    requires Inv(v) && str != "" && str[0] == '/'
    ensures Mounts(v, str, obj, DoMount(v, str, obj))
  {
    var m := Mount(v.nextId, str, obj);
    if |str| > 1 {
      FoundTaken(v, str);
    } else {
      assert str == "/";
    }
    assert RootsLast(v.table);
    hide Inv, Taken, Insert;
    var k := InsertAt(v.table, m);
    assert Added(v.table, Insert(v.table, m), m);
  }

  lemma FoundTaken(v: Vfs, str: string)
    requires Inv(v) && |str| > 1 && str[0] == '/'
    ensures Lookup(v, str).In? && !Lookup(v, str).mount.Root() <==> Taken(v.table, str)
  {
    hide Inv, Lookup, Split;
    LookupLongest(v, str);
    var r := Lookup(v, str);
    if Taken(v.table, str) {
      var f :| f in v.table && !f.Root() && Depth(f) <= Split(Bare(str));
    }
  }

  /** A second root is mounted in front of the first. */
  lemma RootTwice(a: nat, b: nat)
    ensures Run([MountOp("/", a), MountOp("/", b)]).table == [Mount(1, "/", b), Mount(0, "/", a)]
  {
    var ops := [MountOp("/", a), MountOp("/", b)];
    assert ops[..1] == [MountOp("/", a)] && ops[..1][..0] == [];
    assert Run(ops[..1]) == Vfs([Mount(0, "/", a)], AtRoot, 1);
  }

  /** At a new mount point and below it its own file system answers, exactly
      unless an older mount point further down holds the path. */
  lemma MountAnswers(v: Vfs, str: string, obj: nat, x: string)
    requires Inv(v) && |str| > 1 && str[0] == '/' && DoMount(v, str, obj).Ok?
    ensures var w, m := DoMount(v, str, obj).vfs, Mount(v.nextId, str, obj);
      && Lookup(w, str) == In(m, "/")
      && (Lookup(w, str + "/" + x) == In(m, "/" + x) <==> !Taken(v.table, str + "/" + x))
  {
    hide Inv, DoMount, Lookup, Taken, Added, Split;
    var w, m := DoMount(v, str, obj).vfs, Mount(v.nextId, str, obj);
    MountKeeps(v, str, obj);
    MountMeans(v, str, obj);
    AddedIn(v.table, w.table, m);
    var below := str + "/" + x;
    assert Bare(below) == Bare(str) + "/" + x;
    SplitJoin(Bare(str), x);
    NewFound(v, w, m, str);
    NewFound(v, w, m, below);
    NothingFollows(m, Lookup(w, str).rest);
    if Lookup(w, below).mount == m {
      RestFollows(m, x, Lookup(w, below).rest);
    }
  }

  lemma NothingFollows(m: Mount, rest: string)
    requires RestOf(m, m.str, rest) && |m.str| > 1 && m.str[0] == '/'
    ensures rest == "/"
  {
    assert "/" + Bare(m.str) == m.str;
  }

  lemma RestFollows(m: Mount, x: string, rest: string)
    requires RestOf(m, m.str + "/" + x, rest) && |m.str| > 1 && m.str[0] == '/'
    ensures rest == "/" + x
  {
    var path := m.str + "/" + x;
    assert "/" + Bare(path) == path;
    assert m.str + rest == path ==> rest == path[|m.str|..];
    assert path[|m.str|..] == "/" + x;
  }

  lemma AddedIn(before: seq<Mount>, after: seq<Mount>, m: Mount)
    requires Added(before, after, m)
    ensures forall f :: f in after <==> f in before || f == m
  {
  }

  /** The new entry `m` against the older ones. */
  lemma NewFound(v: Vfs, w: Vfs, m: Mount, path: string)
    requires Inv(w) && (forall f :: f in w.table <==> f in v.table || f == m)
    requires !m.Root() && |m.str| > 1 && m.str[0] == '/' && !Taken(v.table, m.str)
    requires |path| > 1 && path[0] == '/' && Split(Bare(m.str)) <= Split(Bare(path))
    ensures var r := Lookup(w, path);
      r.In? && (r.mount == m <==> !Taken(v.table, path)) && RestOf(r.mount, path, r.rest)
  {
    hide Inv, Lookup, Split;
    LookupLongest(w, path);
    assert Depth(m) <= Split(Bare(path));
    var r := Lookup(w, path);
    if Taken(v.table, path) {
      var f :| f in v.table && !f.Root() && Depth(f) <= Split(Bare(path));
      assert Depth(f) <= Depth(r.mount);
    }
  }

  /** With "/a/b" mounted first, "/a" is not asked for what is in "/a/b". */
  lemma DeeperAnswers(a: nat, b: nat)
    ensures var v := Run([MountOp("/a/b", a), MountOp("/a", b)]);
      |v.table| == 2 && Lookup(v, "/a/b") == In(v.table[0], "/") && v.table[0].obj == a
  {
    var ops := [MountOp("/a/b", a), MountOp("/a", b)];
    assert ops[..1] == [MountOp("/a/b", a)] && ops[..1][..0] == [];
    var deep, above := Mount(0, "/a/b", a), Mount(1, "/a", b);
    assert Run(ops[..1]) == Vfs([deep], AtRoot, 1);
    assert deep.Name() == "a/b" && "/a"[1..] == "a" && [deep][1..] == [] && !Covers("a/b", "a");
    assert !Matches(deep, "a") && Search([deep], "a", true) == Search([deep][1..], "a", true) == NotFound;
    assert Insert([deep], above) == [deep, above];
    assert Run(ops) == Vfs([deep, above], AtRoot, 2);
  }

  /** What umount has to do: the first entry that is named goes, and nothing else. */
  ghost predicate Umounts(v: Vfs, t: Target, r: Outcome) {
    match r
    case Error(code) =>
      code == EINVAL && forall m :: m in v.table ==> if t.Point? then m.str != t.str else m.obj != t.obj
    case Ok(w) =>
      exists k :: 0 <= k < |v.table| && Removed(v, w, k)
        && (if t.Point? then v.table[k].str == t.str else v.table[k].obj == t.obj)
        && forall i :: 0 <= i < k ==> if t.Point? then v.table[i].str != t.str else v.table[i].obj != t.obj
  }

  lemma UmountMeans(v: Vfs, t: Target)
    ensures Umounts(v, t, DoUmount(v, t))
  {
    var k := FirstHit(v.table, t);
    if k < |v.table| {
      assert Removed(v, DoUmount(v, t).vfs, k);
    }
  }

  /** Umounting a point takes away every entry at that point and no other. */
  lemma UmountGone(v: Vfs, str: string, m: Mount)
    requires Inv(v) && str != "/" && DoUmount(v, Point(str)).Ok?
    ensures m in DoUmount(v, Point(str)).vfs.table <==> m in v.table && m.str != str
  {
    var k := FirstHit(v.table, Point(str));
    assert Entry(v.table[k], v.nextId);
    forall j | 0 <= j < |v.table| && v.table[j].str == str ensures j == k {
      SamePoint(v, j, k);
    }
    hide Inv, FirstHit;
    WithoutIn(v.table, k, m);
  }

  lemma WithoutIn(table: seq<Mount>, k: nat, m: Mount)
    requires k < |table|
    ensures m in table[..k] + table[k + 1..] <==> exists j :: 0 <= j < |table| && j != k && table[j] == m
  {
    var w := table[..k] + table[k + 1..];
    if m in w {
      var i :| 0 <= i < |w| && w[i] == m;
      assert table[if i < k then i else i + 1] == m;
    }
    if j :| 0 <= j < |table| && j != k && table[j] == m {
      assert w[if j < k then j else j - 1] == m;
    }
  }

  lemma SamePoint(v: Vfs, j: nat, k: nat)
    requires Inv(v) && j < |v.table| && k < |v.table| && v.table[j].str == v.table[k].str && !v.table[k].Root()
    ensures j == k
  {
    assert Covers(v.table[k].Name(), v.table[j].Name());
  }

  /** Umount takes back a mount. */
  lemma MountThenUmount(v: Vfs, str: string, obj: nat)
    requires Inv(v) && str != "" && str[0] == '/' && DoMount(v, str, obj).Ok?
    ensures DoUmount(DoMount(v, str, obj).vfs, Point(str)) == Ok(v.(nextId := v.nextId + 1))
  {
    hide Inv, DoMount, Taken, FirstHit;
    var w, m := DoMount(v, str, obj).vfs, Mount(v.nextId, str, obj);
    MountMeans(v, str, obj);
    var k :| 0 <= k <= |v.table| && w.table == v.table[..k] + [m] + v.table[k..]
      && (forall i :: 0 <= i < k ==> !v.table[i].Root()) && (forall i :: k <= i < |v.table| ==> v.table[i].Root());
    UmountNew(v, w, m, k);
  }

  lemma UmountNew(v: Vfs, w: Vfs, m: Mount, k: nat)
    requires Inv(v) && m.id == v.nextId && (m.str == "/" || !Taken(v.table, m.str))
    requires k <= |v.table| && w == Vfs(v.table[..k] + [m] + v.table[k..], v.cur, v.nextId + 1)
    requires forall i :: 0 <= i < k ==> !v.table[i].Root()
    ensures DoUmount(w, Point(m.str)) == Ok(v.(nextId := v.nextId + 1))
  {
    hide Inv, Taken, FirstHit;
    forall i | 0 <= i < k ensures !Hits(v.table[i], Point(m.str)) {
      NotSame(v, m.str, i);
    }
    Undone(v.table, m, k, Point(m.str));
    NotThere(v, m);
  }

  lemma NotSame(v: Vfs, str: string, i: nat)
    requires Inv(v) && i < |v.table| && !v.table[i].Root() && (str == "/" || !Taken(v.table, str))
    ensures v.table[i].str != str
  {
    assert Entry(v.table[i], v.nextId);
  }

  lemma Undone(table: seq<Mount>, m: Mount, k: nat, t: Target)
    requires k <= |table| && Hits(m, t) && forall i :: 0 <= i < k ==> !Hits(table[i], t)
    ensures var w := table[..k] + [m] + table[k..];
      FirstHit(w, t) == k && w[k] == m && w[..k] + w[k + 1..] == table
  {
    hide Hits;
    var w := table[..k] + [m] + table[k..];
    assert w[k] == m;
    assert w[..k] == table[..k] && w[k + 1..] == table[k..];
    assert w[..k] + w[k + 1..] == table;
  }

  lemma NotThere(v: Vfs, m: Mount)
    requires Inv(v) && m.id == v.nextId
    ensures v.cur != At(m)
  {
  }

  /** What chdir has to do: it moves to the deepest mount that holds the path,
      to the virtual root, or stays in the current file system. */
  ghost predicate Chdirs(v: Vfs, path: string, accepts: bool, r: Outcome) {
    if !Global(v, path) then r == if accepts then Ok(v) else Error(FsError)
    else if Bare(path) == "" then
      r == if accepts || forall m :: m in v.table ==> m.str != "/" then Ok(v.(cur := AtRoot)) else Error(FsError)
    else
      match r
      case Error(ENODEV) => forall m :: m in v.table ==> !(Depth(m) <= Split(Bare(path)))
      case Error(code) => code == FsError && !accepts && exists m :: m in v.table && Depth(m) <= Split(Bare(path))
      case Ok(w) => accepts && w.cur.At? && w == v.(cur := w.cur) && Deepest(v.table, w.cur.mount, Split(Bare(path)))
  }

  lemma ChdirMeans(v: Vfs, path: string, accepts: bool)
    requires Inv(v)
    ensures Chdirs(v, path, accepts, DoChdir(v, path, accepts))
  {
    hide Inv, Lookup, Split, Depth;
    LookupLongest(v, path);
    RootIff(v);
  }

  lemma RootIff(v: Vfs)
    requires Inv(v)
    ensures HasRoot(v.table) <==> exists m :: m in v.table && m.str == "/"
  {
    if HasRoot(v.table) {
      var i :| 0 <= i < |v.table| && v.table[i].Root();
      assert Entry(v.table[i], v.nextId) && v.table[i].str == "/";
    }
  }

  /** From then on a relative path is given unchanged to the file system that
      was found for an absolute one. */
  lemma ChdirThenRelative(v: Vfs, path: string, q: string)
    requires Inv(v) && |path| > 1 && path[0] == '/' && DoChdir(v, path, true).Ok? && (q == "" || q[0] != '/')
    ensures var r := Lookup(DoChdir(v, path, true).vfs, q);
      r.In? && r.rest == q && Deepest(v.table, r.mount, Split(path[1..]))
  {
    ChdirMeans(v, path, true);
    hide Inv, DoChdir, Split;
  }


  lemma FrontOf(table: seq<Mount>, m: Mount, i: nat)
    requires 0 < i <= |table|
    ensures [table[0]] + (table[1..][..i - 1] + [m] + table[1..][i - 1..]) == table[..i] + [m] + table[i..]
  {
  }

  lemma {:induction false} InsertSplit(table: seq<Mount>, m: Mount, i: nat)
    requires i <= |table| && (forall j :: 0 <= j < i ==> !table[j].Root()) && (i < |table| ==> table[i].Root())
    ensures Insert(table, m) == table[..i] + [m] + table[i..]
    decreases i
  {
    if i > 0 {
      InsertSplit(table[1..], m, i - 1);
      FrontOf(table, m, i);
    }
  }

  // ----- The state that the calls change

  class Vm {
    var table: seq<Mount>
    var cur: Current
    var nextId: nat

    ghost function State(): Vfs
      reads this
    {
      Vfs(table, cur, nextId)
    }

    constructor ()
      ensures State() == START
    {
      table, cur, nextId := [], AtRoot, 0;
    }

    /** mp_vfs_lookup_path. */
    method LookupPath(path: string) returns (r: Found)
      ensures r == Lookup(State(), path) && (Inv(State()) ==> Resolves(State(), path, r))
    {
      if Inv(State()) {
        LookupLongest(State(), path);
      }
      hide Inv, Resolves;
      if (path != "" && path[0] == '/') || cur.AtRoot? {
        var p, abs := path, false;
        if p != "" && p[0] == '/' {
          p, abs := p[1..], true;
        }
        if p == "" {
          return VirtualRoot;
        }
        var i := 0;
        while i < |table|
          invariant 0 <= i <= |table|
          invariant Search(table, p, abs) == Search(table[i..], p, abs)
        {
          var m := table[i];
          var name := m.Name();
          if |m.str| == 1 {
            return In(m, if abs then "/" + p else p);
          }
          if name <= p {
            if |p| > |name| && p[|name|] == '/' {
              return In(m, p[|name|..]);
            } else if |p| == |name| {
              return In(m, "/");
            }
          }
          assert !Matches(table[i..][0], p);
          assert table[i..][1..] == table[i + 1..];
          i := i + 1;
        }
        return NotFound;
      }
      return In(cur.mount, path);
    }

    /** mp_vfs_mount, once the file system itself is mounted. */
    method MountAt(str: string, obj: nat) returns (r: Outcome)
      modifies this
      ensures r == DoMount(old(State()), str, obj)
      ensures old(Inv(State())) && str != "" && str[0] == '/' ==> Mounts(old(State()), str, obj, r)
      ensures State() == if r.Ok? then r.vfs else old(State())
    {
      if Inv(State()) && str != "" && str[0] == '/' {
        MountMeans(State(), str, obj);
      }
      hide Inv, Mounts, Resolves;
      var m := Mount(nextId, str, obj);
      var existing := LookupPath(str);
      if existing.In? {
        if !(|m.str| != 1 && |existing.mount.str| == 1) {
          return Error(EPERM);
        }
      }
      var i := 0;
      while i < |table| && |table[i].str| != 1
        invariant 0 <= i <= |table|
        invariant forall j :: 0 <= j < i ==> !table[j].Root()
      {
        i := i + 1;
      }
      InsertSplit(table, m, i);
      table := table[..i] + [m] + table[i..];
      nextId := nextId + 1;
      r := Ok(Vfs(table, cur, nextId));
    }

    /** mp_vfs_umount. */
    method Umount(t: Target) returns (r: Outcome)
      modifies this
      ensures r == DoUmount(old(State()), t) && Umounts(old(State()), t, r)
      ensures State() == if r.Ok? then r.vfs else old(State())
    {
      UmountMeans(State(), t);
      hide Umounts;
      var i := 0;
      while i < |table| && !Hits(table[i], t)
        invariant 0 <= i <= |table|
        invariant forall j :: 0 <= j < i ==> !Hits(table[j], t)
      {
        i := i + 1;
      }
      if i == |table| {
        return Error(EINVAL);
      }
      var vfs := table[i];
      table := table[..i] + table[i + 1..];
      if cur == At(vfs) {
        cur := AtRoot;
      }
      r := Ok(Vfs(table, cur, nextId));
    }

    /** mp_vfs_chdir. */
    method Chdir(path: string, accepts: bool) returns (r: Outcome)
      modifies this
      ensures r == DoChdir(old(State()), path, accepts)
      ensures old(Inv(State())) ==> Chdirs(old(State()), path, accepts, r)
      ensures State() == if r.Ok? then r.vfs else old(State())
    {
      if Inv(State()) {
        ChdirMeans(State(), path, accepts);
      }
      hide Inv, Chdirs, Resolves;
      var found := LookupPath(path);
      match found {
        case NotFound => return Error(ENODEV);
        case VirtualRoot =>
          var i := 0;
          while i < |table| && |table[i].str| != 1
            invariant 0 <= i <= |table|
            invariant forall j :: 0 <= j < i ==> !table[j].Root()
          {
            i := i + 1;
          }
          if i < |table| && !accepts {
            return Error(FsError);
          }
          cur := AtRoot;
        case In(m, _) =>
          if !accepts {
            return Error(FsError);
          }
          cur := At(m);
      }
      r := Ok(Vfs(table, cur, nextId));
    }
  }

  // ----- The calls through a run

  /** A fresh state driven through a run is where the run says, its table in order. */
  method Replay(vm: Vm, ops: seq<Op>)
    requires vm.State() == START
    modifies vm
    ensures vm.State() == Run(ops)
    ensures (forall i :: 0 <= i < |ops| ==> WellFormed(ops[i])) ==> Inv(vm.State())
  {
    for k := 0 to |ops|
      invariant vm.State() == Run(ops[..k])
    {
      assert ops[..k + 1][..k] == ops[..k];
      hide DoMount, DoUmount, DoChdir, Mounts, Umounts, Chdirs;
      var r;
      match ops[k] {
        case MountOp(str, obj) => r := vm.MountAt(str, obj);
        case UmountOp(t) => r := vm.Umount(t);
        case ChdirOp(path, accepts) => r := vm.Chdir(path, accepts);
      }
    }
    assert ops[..|ops|] == ops;
    if forall i :: 0 <= i < |ops| ==> WellFormed(ops[i]) {
      RunKeeps(ops);
    }
  }
}
