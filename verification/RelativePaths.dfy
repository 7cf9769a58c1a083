/**
 What a path handed to a call means, said on the tree: relative paths start at a directory,
 an open one or the working directory, and the calls follow the path from there.
 */
module RelativePaths {
  import opened Bytes
  import opened Paths
  import opened Vfs
  import opened FileTable
  import opened Process

  /* ----- Joining and splitting ----- */

  lemma JoinIs(base: seq<byte>, path: seq<byte>)
    ensures base == [SLASH] ==> Join(base, path) == [SLASH] + path
    ensures |base| > 1 ==> Join(base, path) == base + ([SLASH] + path) == base + [SLASH] + path
  {
  }

  /** A relative path joined to the printed path of a directory is walked from that directory. */
  lemma JoinedWalk(h: Heap, root: int, s: Shape, d: int, path: seq<byte>)
    requires Sound(h, root, s) && d in h && Reached(h, root, s, d)
    ensures Resolve(h, s, root, Join(PathOf(h, root, s, d), path)) == Resolve(h, s, d, ['/' as int] + path)
  {
    hide Resolve, PathOf, Reached, Sound, IsTree, Join;
    SoundIsTree(h, root, s);
    ResolvePathOf(h, root, s, d);
    var base := PathOf(h, root, s, d);
    JoinIs(base, path);
    if d == root {
      PathOfRoot(h, root, s);
    } else {
      ResolveAppend(h, s, root, base, [SLASH] + path);
    }
  }

  /** The directory part and the last component, as one path. */
  function Under(dir: seq<byte>, name: seq<byte>): seq<byte> {
    if dir == [] then name else dir + ['/' as int] + name
  }

  lemma LastSlashIs(front: seq<byte>, name: seq<byte>)
    requires '/' as int !in name
    ensures LastSlash(front + ['/' as int] + name) == |front|
  {
    hide LastSlash;
    var path := front + [SLASH] + name;
    assert path[|front|] == SLASH;
  }

  /** Opening `/dir/name` looks for `name` in what `/dir` leads to. */
  lemma OpenTargetIs(h: Heap, root: int, s: Shape, front: seq<byte>, name: seq<byte>)
    requires Sound(h, root, s) && '/' as int !in name && (front == [] || front[0] == '/' as int)
    ensures var up, r := Resolve(h, s, root, front), OpenTarget(h, s, root, front + ['/' as int] + name);
            if up.Failed? then r == up
            else
              && up.p in h && up.p in s.kids
              && if r.At? then r.p != 0 && FirstCalled(h, s, up.p, name, r.p)
                 else r == Failed(-2) && FirstCalled(h, s, up.p, name, 0)
    ensures Resolve(h, s, root, ParentPath(front + ['/' as int] + name)) == Resolve(h, s, root, front)
  {
    hide Resolve, Find, Sound, LastSlash, FirstCalled;
    var path := front + [SLASH] + name;
    LastSlashIs(front, name);
    assert path[|front| + 1..] == name;
    if front == [] {
      ReachedRoot(h, root, s);
      ResolveRoot(h, root, s);
      ResolveNothing(h, s, root);
      SoundKids(h, root, s, root);
    } else {
      assert path[..|front|] == front;
    }
    var up := Resolve(h, s, root, front);
    if up.At? {
      ResolvedIn(h, s, root, front);
      FindIsFirst(h, root, s, up.p, name);
    }
  }

  lemma JoinMore(base: seq<byte>, dir: seq<byte>, name: seq<byte>)
    ensures Join(base, dir + [SLASH] + name) == Join(base, dir) + [SLASH] + name
  {
  }

  /** The path before the last slash of a relative path joined to the path of `d`. */
  lemma JoinedSplit(h: Heap, root: int, s: Shape, d: int, dir: seq<byte>, name: seq<byte>) returns (front: seq<byte>)
    requires Sound(h, root, s) && d in h && Reached(h, root, s, d)
    ensures Join(PathOf(h, root, s, d), Under(dir, name)) == front + ['/' as int] + name
    ensures front == [] || front[0] == '/' as int
    ensures Resolve(h, s, root, front) == Resolve(h, s, d, ['/' as int] + dir)
  {
    hide Resolve, PathOf, Reached, Sound, IsTree;
    SoundIsTree(h, root, s);
    ResolvePathOf(h, root, s, d);
    PathOfRoot(h, root, s);
    var base := PathOf(h, root, s, d);
    if dir == [] {
      front := if d == root then [] else base;
      JoinIs(base, name);
      ResolveNothing(h, s, d);
      SoundKids(h, root, s, d);
      ResolveSlash(h, s, d, []);
      assert [] + [SLASH] == [SLASH] && [SLASH] + dir == [SLASH];
    } else {
      front := Join(base, dir);
      JoinedWalk(h, root, s, d, dir);
      JoinMore(base, dir, name);
    }
  }

  /* ----- Where relative paths start ----- */

  /** Relative paths start at the directory `d`: the one open as `dirfd`, or else the working directory. */
  ghost predicate From(w: World, st: State, dirfd: Option<nat>, d: int)
    requires Sound(w.tree, w.root, w.s)
  {
    && d in w.tree && Reached(w.tree, w.root, w.s, d) && w.tree[d].inode.value.Directory?
    && if dirfd.None? then st.cwd == PathOf(w.tree, w.root, w.s, d)
       else dirfd.value < |st.open| && st.open[dirfd.value] != 0 && st.open[dirfd.value] in st.files
            && st.files[st.open[dirfd.value]].dentry == d
  }

  lemma AbsoluteIs(w: World, st: State, dirfd: Option<nat>, d: int, path: Str)
    requires Sound(w.tree, w.root, w.s) && From(w, st, dirfd, d) && path != [] && path[0] != '/' as int
    ensures w.Absolute(st, dirfd, path) == Join(PathOf(w.tree, w.root, w.s, d), path)
  {
  }

  /* ----- Opening ----- */

  lemma Regroup(q: nat, n: nat, bit: nat, a: nat, b: nat)
    ensures q * (n * bit) + (a * bit + b) == (q * n + a) * bit + b
  {
  }

  lemma EvenMultiple(q: nat, j: nat, a: nat)
    ensures (q * (2 * j) + a) % 2 == a % 2
  {
    assert q * (2 * j) == 2 * (q * j);
  }

  /** A flag below a power of two is kept modulo that power. */
  lemma BitBelow(x: nat, bit: nat, j: nat)
    requires bit > 0 && j > 0
    ensures 2 * j * bit > 0 && (Has(x % (2 * j * bit), bit) <==> Has(x, bit))
  {
    var n := 2 * j;
    var q, r := x / (n * bit), x % (n * bit);
    Regroup(q, n, bit, r / bit, r % bit);
    QuotientIs(x, bit, q * n + r / bit, r % bit);
    EvenMultiple(q, j, r / bit);
  }

  lemma BitsBelow(x: nat)
    ensures Has(x % U32, 0x08) == Has(x, 0x08) && Has(x % U32, 0x40) == Has(x, 0x40)
    ensures Has(x % 0x80000, 0x08) == Has(x, 0x08) && Has(x % 0x80000, 0x40) == Has(x, 0x40)
  {
    hide Has;
    BitBelow(x, 0x08, 0x1000_0000);
    BitBelow(x, 0x40, 0x200_0000);
    BitBelow(x, 0x08, 0x8000);
    BitBelow(x, 0x40, 0x1000);
  }

  lemma BitIs(flags: nat, bit: nat)
    requires bit > 0
    ensures Has(flags, bit) <==> flags / bit % 2 == 1
  {
  }

  /** Taking O_CLOEXEC away, and all above 32 bits, leaves the flags below it. */
  lemma LowFlags(flags: u64)
    ensures Has(OpenFlags(flags), 0x08) <==> flags / 0x08 % 2 == 1
    ensures Has(OpenFlags(flags), 0x40) <==> flags / 0x40 % 2 == 1
  {
    hide Has;
    var low := flags % U32;
    BitIs(flags, 0x08);
    BitIs(flags, 0x40);
    BitsBelow(flags);
    BitsBelow(low);
    BitsBelow(OpenFlags(flags));
    MoveBit(low, O_CLOEXEC);
  }

  /** A descriptor from 3 on is free. */
  predicate SlotFree(st: State) {
    exists k :: 3 <= k < |st.open| && st.open[k] == 0
  }

  /**
   What `sys_openat` makes of a relative path. It follows the directories from `d` on; then
   the last name must be that of a child there, and the first child of that name is opened.
   -2 if there is none, or -38 if one was to be made; -17 if there must not be one.
   */
  lemma OpenatMeans(w: World, st: State, dirfd: Option<nat>, d: int, dir: Str, name: Str, flags: u64)
    requires Sound(w.tree, w.root, w.s) && |st.open| == MAX_OPEN_FILES && From(w, st, dirfd, d) && SlotFree(st)
    requires '/' as int !in name && Under(dir, name) != [] && Under(dir, name)[0] != '/' as int
    requires |Join(PathOf(w.tree, w.root, w.s, d), Under(dir, name))| < 256
    ensures var path := Under(dir, name);
            var e, target := w.OpenatError(st, dirfd, Some(path), flags), w.Absolute(st, dirfd, path);
            && target != [] && target[0] == '/' as int && |target| < 256
            && var up, r := Resolve(w.tree, w.s, d, ['/' as int] + dir), OpenTarget(w.tree, w.s, w.root, target);
               if up.Failed? then e == up.error
               else
                 && up.p in w.s.kids
                 && if FirstCalled(w.tree, w.s, up.p, name, 0) then e == if flags / 0x40 % 2 == 1 then -38 else -2
                    else
                      && r.At? && r.p != 0 && FirstCalled(w.tree, w.s, up.p, name, r.p)
                      && e == if flags / 0x08 % 2 == 1 then -17 else 0
  {
    hide Resolve, PathOf, Reached, Sound, IsTree, Join, LastSlash, FirstCalled, OpenTarget, ParentPath, OpenFlags, Has;
    hide World.UserError, World.Absolute;
    SoundIsTree(w.tree, w.root, w.s);
    var path := Under(dir, name);
    AbsoluteIs(w, st, dirfd, d, path);
    var front := JoinedSplit(w.tree, w.root, w.s, d, dir, name);
    OpenTargetIs(w.tree, w.root, w.s, front, name);
    JoinLength(PathOf(w.tree, w.root, w.s, d), path);
    LowFlags(flags);
    PathFine(w, st, dirfd, d, path);
    var up := Resolve(w.tree, w.s, w.root, front);
    if up.At? {
      OneFirst(w.tree, w.root, w.s, up.p, name);
    }
  }

  lemma PathFine(w: World, st: State, dirfd: Option<nat>, d: int, path: Str)
    requires Sound(w.tree, w.root, w.s) && |st.open| == MAX_OPEN_FILES && From(w, st, dirfd, d)
    requires path != [] && path[0] != '/' as int && |path| < 256
    requires |Join(PathOf(w.tree, w.root, w.s, d), path)| < 256
    ensures w.UserError(st, dirfd, Some(path)) == 0
  {
    hide PathOf, Reached;
    AbsoluteIs(w, st, dirfd, d, path);
  }

  lemma JoinLength(base: seq<byte>, path: seq<byte>)
    ensures |Join(base, path)| >= |path|
  {
  }

  /** There is a first child of a name, or there is none, but not both. */
  lemma OneFirst(h: Heap, root: int, s: Shape, p: int, name: seq<byte>)
    requires Sound(h, root, s) && p in h && p in s.kids
    ensures FirstCalled(h, s, p, name, 0) ==> forall c :: c != 0 ==> !FirstCalled(h, s, p, name, c)
  {
  }

  /** The same for an absolute path, which no descriptor changes. */
  lemma OpenatAbsolute(w: World, st: State, dirfd: Option<nat>, path: Str, front: seq<byte>, name: seq<byte>,
                       flags: u64)
    requires Sound(w.tree, w.root, w.s) && |st.open| == MAX_OPEN_FILES && SlotFree(st)
    requires path == front + ['/' as int] + name && '/' as int !in name && path[0] == '/' as int && |path| < 256
    ensures w.Absolute(st, dirfd, path) == path
    ensures var e, up := w.OpenatError(st, dirfd, Some(path), flags), Resolve(w.tree, w.s, w.root, front);
            var r := OpenTarget(w.tree, w.s, w.root, path);
            if up.Failed? then e == up.error
            else
              && up.p in w.s.kids
              && if FirstCalled(w.tree, w.s, up.p, name, 0) then e == if flags / 0x40 % 2 == 1 then -38 else -2
                 else
                   && r.At? && r.p != 0 && FirstCalled(w.tree, w.s, up.p, name, r.p)
                   && e == if flags / 0x08 % 2 == 1 then -17 else 0
  {
    hide Resolve, PathOf, Reached, Sound, IsTree, LastSlash, FirstCalled, OpenTarget, ParentPath, OpenFlags, Has;
    SoundIsTree(w.tree, w.root, w.s);
    OpenTargetIs(w.tree, w.root, w.s, front, name);
    LowFlags(flags);
    var up := Resolve(w.tree, w.s, w.root, front);
    if up.At? {
      OneFirst(w.tree, w.root, w.s, up.p, name);
    }
  }

  /**
   The errors before any lookup: -14 for a string that cannot be read, -2 for an empty one, -36
   for one of 256 bytes or more or that is too long once joined, -9 for a descriptor that is
   not open, -20 for one that is no directory.
   */
  lemma PathErrors(w: World, st: State, dirfd: Option<nat>, userPath: Option<Str>)
    requires Sound(w.tree, w.root, w.s) && |st.open| == 32
    requires forall fd :: 0 <= fd < 32 && st.open[fd] != 0 ==> st.open[fd] in st.files
    requires forall f :: f in st.files ==> st.files[f].dentry in w.tree
    ensures var e := w.UserError(st, dirfd, userPath);
            if userPath.None? then e == -14
            else if userPath.value == [] then e == -2
            else if |userPath.value| > 255 then e == -36
            else if userPath.value[0] == '/' as int then e == 0
            else if dirfd.None? then e == if |st.cwd| + Separator(st.cwd) + |userPath.value| > 255 then -36 else 0
            else if dirfd.value >= 32 || st.open[dirfd.value] == 0 then e == -9
            else
              var d := st.files[st.open[dirfd.value]].dentry;
              if !w.tree[d].inode.value.Directory? then e == -20
              else
                var base := PathOf(w.tree, w.root, w.s, d);
                e == if |base| + Separator(base) + |userPath.value| > 255 then -36 else 0
  {
    hide PathOf;
  }

  /** The bytes between a base path and what is joined to it. */
  function Separator(base: seq<byte>): nat {
    if |base| > 1 then 1 else 0
  }

  /* ----- The calls ----- */

  /** `sys_openat` of a relative path, on a machine with memory: exactly the child the path names is opened. */
  method OpenBelow(process: Process, dirfd: Option<nat>, dir: Str, name: Str, flags: u64, ghost d: int)
    returns (result: int, ghost up: Walked)
    requires process.Inv() && !process.fs.scarce && From(process.Around(), process.Now(), dirfd, d)
    requires SlotFree(process.Now())
    requires '/' as int !in name && Under(dir, name) != [] && Under(dir, name)[0] != '/' as int
    requires |Join(PathOf(process.tree, process.fs.root, process.fs.s, d), Under(dir, name))| < 256
    modifies process.fs`h, process.fs`s, process`files, process`open, process`cloexec
    ensures process.Inv() && process.fs.s == old(process.fs.s)
    ensures up == Resolve(process.tree, process.fs.s, d, ['/' as int] + dir)
    ensures up.Failed? ==> result == up.error
    ensures up.At? ==> up.p in process.fs.s.kids
    ensures up.At? && FirstCalled(process.tree, process.fs.s, up.p, name, 0) ==>
              result == if flags / 0x40 % 2 == 1 then -38 else -2
    ensures up.At? && !FirstCalled(process.tree, process.fs.s, up.p, name, 0) && flags / 0x08 % 2 == 1 ==> result == -17
    ensures up.At? && !FirstCalled(process.tree, process.fs.s, up.p, name, 0) && flags / 0x08 % 2 == 0 ==>
              && 3 <= result < MAX_OPEN_FILES && old(process.open)[result] == 0
              && process.open[result] in process.files
              && var file := process.files[process.open[result]];
                 && file.dentry != 0 && FirstCalled(process.tree, process.fs.s, up.p, name, file.dentry)
                 && file.offset == 0
  {
    hide Sound, IsTree, Accounts, Nameable, SameLinks, OpenTarget, PathOf, Has, OpenFlags, Join, Resolve, FirstCalled;
    hide World.UserError, World.OpenatError, Reached;
    ghost var w, st := process.Around(), process.Now();
    up := Resolve(process.tree, process.fs.s, d, ['/' as int] + dir);
    OpenatMeans(w, st, dirfd, d, dir, name, flags);
    ResolveErrors(process.tree, process.fs.s, d, ['/' as int] + dir);
    assert forall x :: x in Under(dir, name) ==> x in dir || x in name || x == '/' as int;
    ghost var at;
    result, at := process.SysOpenat(dirfd, Some(Under(dir, name)), flags);
  }

  lemma ChdirMeans(w: World, st: State, d: int, path: Str)
    requires Sound(w.tree, w.root, w.s) && |st.open| == MAX_OPEN_FILES && From(w, st, None, d)
    requires path != [] && path[0] != '/' as int && |Join(PathOf(w.tree, w.root, w.s, d), path)| < 256
    ensures var e, to := w.ChdirError(st, Some(path)), Resolve(w.tree, w.s, d, ['/' as int] + path);
            && Resolve(w.tree, w.s, w.root, w.Absolute(st, None, path)) == to
            && if to.Failed? then e == to.error
               else to.p in w.tree && e == if w.tree[to.p].inode.value.Directory? then 0 else -20
  {
    hide Resolve, PathOf, Reached, Join;
    AbsoluteIs(w, st, None, d, path);
    JoinLength(PathOf(w.tree, w.root, w.s, d), path);
    PathFine(w, st, None, d, path);
    JoinedWalk(w.tree, w.root, w.s, d, path);
    var to := Resolve(w.tree, w.s, d, [SLASH] + path);
    if to.At? {
      ResolvedIn(w.tree, w.s, d, [SLASH] + path);
    }
  }

  /** `sys_chdir` of a relative path: the working directory is where the path leads from the one before. */
  method GoTo(process: Process, path: Str, ghost d: int) returns (result: int, ghost to: Walked)
    requires process.Inv() && !process.fs.scarce && process.Canonical(d)
    requires path != [] && path[0] != '/' as int
    requires |Join(PathOf(process.tree, process.fs.root, process.fs.s, d), path)| < 256
    modifies process.fs`h, process.fs`s, process`cwd
    ensures process.Inv() && process.fs.s == old(process.fs.s)
    ensures to == Resolve(process.tree, process.fs.s, d, ['/' as int] + path)
    ensures to.Failed? ==> result == to.error && process.cwd == old(process.cwd)
    ensures to.At? ==>
              && to.p in process.tree
              && if process.tree[to.p].inode.value.Directory? then result == 0 && process.Canonical(to.p)
                 else result == -20 && process.cwd == old(process.cwd)
  {
    hide Sound, IsTree, Accounts, Nameable, SameLinks, PathOf, Join, Resolve, World.ChdirError, Reached;
    to := Resolve(process.tree, process.fs.s, d, ['/' as int] + path);
    ChdirMeans(process.Around(), process.Now(), d, path);
    ghost var at;
    result, at := process.SysChdir(Some(path));
  }

  /** Two dots lead from the working directory to its parent, and stay at the root. */
  method GoUp(process: Process, ghost d: int) returns (result: int)
    requires process.Inv() && !process.fs.scarce && process.Canonical(d) && |process.cwd| < 252
    modifies process.fs`h, process.fs`s, process`cwd
    ensures process.Inv() && process.fs.s == old(process.fs.s) && result == 0
    ensures d in process.tree && (d != process.fs.root ==> process.tree[d].parent in process.tree)
    ensures process.Canonical(if d == process.fs.root then d else process.tree[d].parent)
  {
    hide Resolve, PathOf, Accounts, Nameable, SameLinks, Reached, Sound, IsTree;
    ghost var h, root, s := process.tree, process.fs.root, process.fs.s;
    var up: Str := [DOT, DOT];
    SoundKids(h, root, s, d);
    ResolveNothing(h, s, d);
    ResolveMeans(h, root, s, d, [], up);
    assert [] + [SLASH] + up == [SLASH] + up;
    if d != root {
      UpThere(h, root, s, d);
    }
    UpIsDirectory(h, root, s, d);
    assert |Join(process.cwd, up)| < 256;
    ghost var to;
    result, to := GoTo(process, up, d);
  }

  lemma UpIsDirectory(h: Heap, root: int, s: Shape, d: int)
    requires Sound(h, root, s) && d in h && h[d].inode.value.Directory?
    ensures d != root ==> h[d].parent in h && h[h[d].parent].inode.Some? && h[h[d].parent].inode.value.Directory?
  {
    if d != root {
      assert Placed(h, s, d);
    }
  }
}
