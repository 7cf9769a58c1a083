/**
 The file system calls of a process: opening, closing and duplicating descriptors, the
 close-on-exec and exit sweeps, and changing the working directory.
 */
module Process {
  import opened Bytes
  import opened Paths
  import opened DentryLists
  import opened Vfs
  import opened FileTable

  const EBADF: int := -9
  const ENFILE: int := -24
  const EFAULT: int := -14
  const EEXIST: int := -17
  const ENOSYS: int := -38
  const PATH_SIZE: nat := 256

  /** The numbers a program sees: errors, sizes and flags. */
  lemma AbiNumbers()
    ensures EBADF == -9 && ENFILE == -24 && EFAULT == -14 && EEXIST == -17 && ENOSYS == -38 && EINVAL == -22
    ensures ENOENT == -2 && ENOMEM == -12 && ENOTDIR == -20 && ENAMETOOLONG == -36
    ensures MAX_OPEN_FILES == 32 && PATH_SIZE == 256 && NAME_SIZE == 256
    ensures O_EXCL == 0x08 && O_CREAT == 0x40 && O_APPEND == 0x400 && O_CLOEXEC == 0x80000
  {
  }

  /* ----- Paths of open files ----- */

  lemma {:induction false} ResolveSame(h: Heap, h': Heap, s: Shape, cur: int, path: seq<byte>)
    requires SameLinks(h, h')
    ensures Resolve(h', s, cur, path) == Resolve(h, s, cur, path)
    decreases |path|
  {
    hide Resolve, SkipSlashes, ComponentLength, Find;
    ResolveUnfold(h, s, cur, path);
    ResolveUnfold(h', s, cur, path);
    var at := SkipSlashes(path);
    if cur in h && cur in s.kids && at != [] {
      SkipFacts(path);
      ComponentUnfold(at);
      var n := ComponentLength(at);
      FindSame(h, h', s.kids[cur], at[..n]);
      if n < NAME_SIZE && Step(h, s, cur, at[..n]).At? {
        ResolveSame(h, h', s, Step(h, s, cur, at[..n]).p, at[n..]);
      }
    }
  }

  lemma {:induction false} PathOfStr(h: Heap, root: int, s: Shape, p: int)
    requires IsTree(h, root, s) && p in h
    ensures 0 !in PathOf(h, root, s, p)
    decreases (TreeAt(h, root, s, p); s.depth[p])
  {
    hide IsTree, PathOf;
    TreeAt(h, root, s, p);
    if p == root {
      PathOfRoot(h, root, s);
    } else {
      PathOfKid(h, root, s, p);
      PathOfStr(h, root, s, h[p].parent);
    }
  }

  /** `p` is what a lookup of its name in a reached directory gives. */
  ghost predicate Found(h: Heap, root: int, s: Shape, p: int)
    requires Sound(h, root, s) && p in h
  {
    p == root ||
    (assert Placed(h, s, p);
     var up := h[p].parent;
     Reached(h, root, s, up) && h[up].inode.value.Directory?
     && Find(h, s.kids[up], h[p].name) == p && SLASH !in h[p].name)
  }

  /** The dentry's printed path fits the buffers. */
  ghost predicate Nameable(h: Heap, root: int, s: Shape, p: int)
    requires Sound(h, root, s)
  {
    p in h && |PathOf(h, root, s, p)| < PATH_SIZE && s.depth[p] <= 128 && Found(h, root, s, p)
  }

  /** A last component that is empty or made of dots alone leads anywhere but to the entry of that name. */
  lemma ImproperLeadsAway(h: Heap, root: int, s: Shape, up: int, p: int, name: seq<byte>)
    requires Sound(h, root, s) && up in h && p in h && p != root && h[p].parent == up
    requires name == [] || name == [DOT] || name == [DOT, DOT]
    ensures Resolve(h, s, up, [SLASH] + name) != At(p)
  {
    hide Resolve, SkipSlashes, ComponentLength, Find, Threaded;
    assert Placed(h, s, p);
    assert up != root ==> Placed(h, s, up);
    ResolveUnfold(h, s, up, [SLASH] + name);
    if name == [] {
      assert [SLASH] + name == [SLASH] && [SLASH][1..] == [];
      SkipUnfold([SLASH]);
      SkipUnfold([]);
    } else {
      NameAfterSlash(name);
      NoSlashComponent(name);
      assert name[..|name|] == name && name[|name|..] == [];
      var next := Step(h, s, up, name).p;
      ResolveEnd(h, root, s, next);
    }
  }

  /** The printed path of a dentry found leads back to it exactly if its name can be walked. */
  lemma PrintedLeadsBack(h: Heap, root: int, s: Shape, p: int)
    requires Sound(h, root, s) && p in h && Found(h, root, s, p)
    ensures Reached(h, root, s, p) <==> p == root || Proper(h[p].name)
    ensures Resolve(h, s, root, PathOf(h, root, s, p)) == At(p) <==> p == root || Proper(h[p].name)
  {
    hide Resolve, Find, PathOf, Threaded;
    if p == root {
      ResolvePathOf(h, root, s, p);
    } else {
      assert Placed(h, s, p);
      var up, name := h[p].parent, h[p].name;
      if Proper(name) {
        ResolvePathOf(h, root, s, p);
      } else {
        ResolvePathOf(h, root, s, up);
        PathOfKid(h, root, s, p);
        PathOfRoot(h, root, s);
        ImproperLeadsAway(h, root, s, up, p, name);
        if up == root {
          assert [SLASH] + [] + name == [SLASH] + name;
        } else {
          ResolveAppend(h, s, root, PathOf(h, root, s, up), [SLASH] + name);
          assert PathOf(h, root, s, up) + [SLASH] + name == PathOf(h, root, s, up) + ([SLASH] + name);
        }
      }
    }
  }

  /* ----- Splitting a path ----- */

  function ParentPath(path: seq<byte>): seq<byte>
    requires path != [] && path[0] == SLASH
  {
    if LastSlash(path) == 0 then [SLASH] else path[..LastSlash(path)]
  }

  function BaseName(path: seq<byte>): seq<byte>
    requires path != [] && path[0] == SLASH
  {
    path[LastSlash(path) + 1..]
  }

  /** What `vfs::open` looks for: the last component, as it stands, in the directory before it. */
  function OpenTarget(h: Heap, s: Shape, root: int, path: seq<byte>): Walked
    requires path != [] && path[0] == SLASH
  {
    match Resolve(h, s, root, ParentPath(path))
    case Failed(error) => Failed(error)
    case At(up) =>
      if up !in s.kids then Failed(ENOENT)
      else
        var p := Find(h, s.kids[up], BaseName(path));
        if p == 0 then Failed(ENOENT) else At(p)
  }

  /** The error of `vfs::open`, 0 if it succeeds; only memory running out can change it. */
  function OpenError(h: Heap, s: Shape, root: int, path: seq<byte>, flags: u32): int {
    if path == [] || path[0] != SLASH then EINVAL
    else if |path| >= PATH_SIZE then ENAMETOOLONG
    else match OpenTarget(h, s, root, path)
      case At(_) => if Has(flags, O_EXCL) then EEXIST else 0
      case Failed(error) =>
        if Has(flags, O_CREAT) && Resolve(h, s, root, ParentPath(path)).At? then ENOSYS else error
  }

  lemma FoundNameable(h: Heap, root: int, s: Shape, up: int, p: int, length: nat)
    requires Sound(h, root, s) && up in h && p in h && p != root && h[p].parent == up && SLASH !in h[p].name
    requires Reached(h, root, s, up) && Within(h, root, s, up, length) && Find(h, s.kids[up], h[p].name) == p
    requires length + 1 + |h[p].name| < PATH_SIZE
    ensures Nameable(h, root, s, p)
  {
    hide Find, PathOf, Reached, Threaded;
    PathOfKid(h, root, s, p);
    assert p in s.kids[up];
  }

  /** Anything opened by a path under 256 bytes has a printed path that fits as well. */
  lemma OpenNameable(h: Heap, root: int, s: Shape, path: seq<byte>)
    requires Sound(h, root, s) && path != [] && path[0] == SLASH && |path| < PATH_SIZE
    ensures OpenTarget(h, s, root, path).At? ==> Nameable(h, root, s, OpenTarget(h, s, root, path).p)
  {
    hide Resolve, Find, PathOf, Reached, Sound, Nameable;
    SoundIsTree(h, root, s);
    ReachedRoot(h, root, s);
    if LastSlash(path) == 0 {
      ResolveRoot(h, root, s);
    } else {
      WalkReaches(h, root, s, root, ParentPath(path), 0);
    }
    var w := Resolve(h, s, root, ParentPath(path));
    if w.At? {
      SoundAt(h, root, s, w.p);
      FindKid(h, root, s, w.p, BaseName(path));
      var p := Find(h, s.kids[w.p], BaseName(path));
      if p != 0 {
        FoundNameable(h, root, s, w.p, p, LastSlash(path));
      }
    }
  }

  lemma ReachedRoot(h: Heap, root: int, s: Shape)
    requires Sound(h, root, s)
    ensures root in h && Reached(h, root, s, root) && Within(h, root, s, root, 0)
  {
  }

  /* ----- Flags and slots ----- */

  const O_EXCL: nat := 0x08
  const O_CREAT: nat := 0x40
  const O_APPEND: nat := 0x400
  const O_CLOEXEC: nat := 0x80000

  predicate Has(flags: nat, bit: nat)
    requires bit > 0
  {
    flags / bit % 2 == 1
  }

  lemma MoveBit(flags: nat, bit: nat)
    requires bit > 0
    ensures Has(flags, bit) ==> flags >= bit && !Has(flags - bit, bit) && (flags - bit) % bit == flags % bit
    ensures Has(flags, bit) ==> (flags - bit) / bit / 2 == flags / bit / 2
    ensures !Has(flags, bit) ==> Has(flags + bit, bit) && (flags + bit) % bit == flags % bit
    ensures !Has(flags, bit) ==> (flags + bit) / bit / 2 == flags / bit / 2
  {
    var q, m := flags / bit, flags % bit;
    assert flags == q * bit + m;
    QuotientIs(flags + bit, bit, q + 1, m);
    if q > 0 {
      QuotientIs(flags - bit, bit, q - 1, m);
    }
  }

  lemma QuotientIs(n: nat, bit: nat, q: nat, m: nat)
    requires bit > 0 && m < bit && n == q * bit + m
    ensures n / bit == q && n % bit == m
  {
    var d := n / bit - q;
    assert d * bit == m - n % bit;
    assert d >= 1 ==> d * bit >= bit;
    assert d <= -1 ==> d * bit + bit <= 0;
  }

  /** The flags a file is opened with: the low 32 bits but for O_CLOEXEC. */
  function OpenFlags(flags: u64): (r: u32)
    ensures !Has(r, O_CLOEXEC)
  {
    var low := flags % U32;
    MoveBit(low, O_CLOEXEC);
    if Has(low, O_CLOEXEC) then low - O_CLOEXEC else low
  }

  lemma RoomForBit(flags: u32)
    requires !Has(flags, O_APPEND)
    ensures flags + O_APPEND < U32
  {
    var q := flags / O_APPEND;
    assert flags == q * O_APPEND + flags % O_APPEND;
    assert q <= U32 / O_APPEND - 1;
  }

  /** `flags` with O_APPEND as in `argument`. */
  function Appending(flags: u32, argument: nat): (r: u32)
    ensures Has(r, O_APPEND) <==> Has(argument, O_APPEND)
    ensures r % O_APPEND == flags % O_APPEND && r / O_APPEND / 2 == flags / O_APPEND / 2
  {
    MoveBit(flags, O_APPEND);
    if Has(flags, O_APPEND) == Has(argument, O_APPEND) then flags
    else if Has(flags, O_APPEND) then flags - O_APPEND
    else
      RoomForBit(flags);
      flags + O_APPEND
  }

  /** `fd` is the lowest empty slot from `minimum` on, or the error that there is none. */
  ghost predicate LowestFree(open: seq<int>, minimum: nat, fd: int)
    requires |open| == MAX_OPEN_FILES
  {
    if minimum >= MAX_OPEN_FILES then fd == EBADF
    else if fd < 0 then fd == ENFILE && forall k :: minimum <= k < MAX_OPEN_FILES ==> open[k] != 0
    else minimum <= fd < MAX_OPEN_FILES && open[fd] == 0 && forall k :: minimum <= k < fd ==> open[k] != 0
  }

  /* ----- What a call sees of the process and of the tree ----- */

  /** The descriptors, the open files and the working directory. */
  datatype State = State(open: seq<int>, cloexec: seq<bool>, files: Files, cwd: seq<byte>)

  ghost predicate OpensDirectory(tree: Heap, files: Files, f: int) {
    f in files && files[f].dentry in tree && tree[files[f].dentry].inode.Some? &&
    tree[files[f].dentry].inode.value.Directory?
  }

  /** The dentry tree, whose reference counts alone ever change; `scarce` if memory may run out. */
  datatype World = World(tree: Heap, root: int, s: Shape, scarce: bool) {
    /** The path a call means: as it is, from the working directory, or from an open directory. */
    ghost function Absolute(st: State, dirfd: Option<nat>, path: Str): seq<byte>
      requires IsTree(tree, root, s)
    {
      if path != [] && path[0] == SLASH then path
      else if dirfd.None? then Join(st.cwd, path)
      else if dirfd.value >= |st.open| || st.open[dirfd.value] !in st.files then []
      else
        var dentry := st.files[st.open[dirfd.value]].dentry;
        if dentry in tree then Join(PathOf(tree, root, s, dentry), path) else []
    }

    /** The error of `resolve_user_path`, 0 if it succeeds. */
    ghost function UserError(st: State, dirfd: Option<nat>, userPath: Option<Str>): int
      requires IsTree(tree, root, s) && |st.open| == MAX_OPEN_FILES
    {
      if userPath.None? then EFAULT
      else
        var user := userPath.value;
        if user == [] then ENOENT
        else if |user| >= PATH_SIZE then ENAMETOOLONG
        else if user[0] == SLASH then 0
        else if dirfd.Some? && (dirfd.value >= MAX_OPEN_FILES || st.open[dirfd.value] == 0) then EBADF
        else if dirfd.Some? && !OpensDirectory(tree, st.files, st.open[dirfd.value]) then ENOTDIR
        else if |Absolute(st, dirfd, user)| >= PATH_SIZE then ENAMETOOLONG
        else 0
    }

    /** The error of `sys_openat`, 0 if it succeeds. */
    ghost function OpenatError(st: State, dirfd: Option<nat>, userPath: Option<Str>, flags: u64): int
      requires IsTree(tree, root, s) && |st.open| == MAX_OPEN_FILES
    {
      if forall k :: 3 <= k < MAX_OPEN_FILES ==> st.open[k] != 0 then ENFILE
      else if UserError(st, dirfd, userPath) != 0 then UserError(st, dirfd, userPath)
      else OpenError(tree, s, root, Absolute(st, dirfd, userPath.value), OpenFlags(flags))
    }

    /** The error of `sys_chdir`, 0 if it succeeds. */
    ghost function ChdirError(st: State, userPath: Option<Str>): int
      requires IsTree(tree, root, s) && |st.open| == MAX_OPEN_FILES
    {
      if UserError(st, None, userPath) != 0 then UserError(st, None, userPath)
      else match Resolve(tree, s, root, Absolute(st, None, userPath.value))
        case Failed(error) => error
        case At(p) => if p in tree && tree[p].inode.Some? && tree[p].inode.value.Directory? then 0 else ENOTDIR
    }
  }

  /* ----- The process ----- */

  class Process {
    const fs: FileSystem
    var files: Files
    var open: seq<int>
    var cloexec: seq<bool>
    var cwd: seq<byte>
    /** The dentry tree; only its reference counts ever change. */
    ghost var tree: Heap

    ghost predicate Inv()
      reads this, fs
    {
      && fs.Valid() && Sound(tree, fs.root, fs.s) && SameLinks(tree, fs.h)
      && |open| == |cloexec| == MAX_OPEN_FILES
      && Accounts(fs.h, files, open)
      && (forall f :: f in files ==> Nameable(tree, fs.root, fs.s, files[f].dentry))
      && 0 < |cwd| < PATH_SIZE && cwd[0] == SLASH && 0 !in cwd
    }

    /** No descriptor is open and the working directory is the root. */
    constructor (fs: FileSystem)
      requires fs.Valid() && forall p :: p in fs.h ==> fs.h[p].refs == 1
      ensures Inv() && this.fs == fs && files == map[] && cwd == [SLASH] && tree == fs.h
      ensures forall fd :: 0 <= fd < MAX_OPEN_FILES ==> open[fd] == 0
    {
      this.fs := fs;
      files := map[];
      open := seq(MAX_OPEN_FILES, _ => 0);
      cloexec := seq(MAX_OPEN_FILES, _ => false);
      cwd := [SLASH];
      tree := fs.h;
      new;
      assert forall p :: FilesOn(files, p) == {};
    }

    /** `vfs::open`. */
    method VfsOpen(path: Str, flags: u32) returns (f: int, error: int)
      requires fs.Valid() && 0 !in files
      modifies fs`h, fs`s, `files
      ensures fs.s == old(fs.s)
      ensures f == 0 ==> fs.h == old(fs.h) && files == old(files) && error < 0
      ensures f == 0 ==> error == OpenError(old(fs.h), fs.s, fs.root, path, flags) || (fs.scarce && error == ENOMEM)
      ensures f != 0 ==> OpenError(old(fs.h), fs.s, fs.root, path, flags) == 0
      ensures f != 0 ==> path != [] && path[0] == SLASH && |path| < PATH_SIZE && f !in old(files)
      ensures f != 0 ==>
                var w := OpenTarget(old(fs.h), fs.s, fs.root, path);
                && w.At? && w.p in old(fs.h) && fs.h == Bump(old(fs.h), w.p, 1)
                && files == old(files)[f := File(w.p, 0, flags, 1)]
    {
      hide Sound, IsTree, Find, Resolve, Bump, LastSlash, Has;
      if path == [] || path[0] != SLASH {
        return 0, EINVAL;
      }
      if |path| >= PATH_SIZE {
        return 0, ENAMETOOLONG;
      }
      assert forall x :: x in ParentPath(path) || x in BaseName(path) ==> x in path;
      var w := fs.PathWalk(ParentPath(path));
      if w.Failed? {
        return 0, w.error;
      }
      ghost var h0 := old(fs.h);
      SoundAt(h0, fs.root, fs.s, w.p);
      BumpTree(h0, fs.root, fs.s, w.p);
      var target := fs.DLookup(w.p, BaseName(path));
      FindSame(h0, fs.h, fs.s.kids[w.p], BaseName(path));
      if target == 0 {
        fs.DropReference(w.p, h0);
        return 0, if Has(flags, O_CREAT) then ENOSYS else ENOENT;
      }
      if Has(flags, O_EXCL) {
        fs.DropReference(w.p, h0);
        return 0, EEXIST;
      }
      FindKid(h0, fs.root, fs.s, w.p, BaseName(path));
      fs.MoveReference(w.p, target, h0);
      var granted: bool := *;
      if fs.scarce && !granted {
        fs.DropReference(target, h0);
        return 0, ENOMEM;
      }
      ghost var b := FreshAddress(files.Keys);
      assert b !in files;
      f :| f > 0 && f !in files;
      files := files[f := File(target, 0, flags, 1)];
      return f, 0;
    }

    /** `vfs::close`. */
    method VfsClose(f: int)
      requires IsTree(fs.h, fs.root, fs.s) && f in files && files[f].dentry in fs.h && fs.h[files[f].dentry].refs > 1
      modifies fs`h, fs`s, `files
      ensures fs.s == old(fs.s)
      ensures files == CloseFiles(old(files), f) && fs.h == CloseHeap(old(fs.h), old(files), f)
    {
      hide IsTree;
      if files[f].refs == 1 {
        fs.DPut(files[f].dentry, 0);
        files := files - {f};
      } else {
        files := files[f := files[f].(refs := files[f].refs - 1)];
      }
    }

    /** Closes the file in a slot and empties the slot. */
    method CloseSlotAt(fd: nat)
      requires Inv() && fd < MAX_OPEN_FILES && open[fd] != 0
      modifies fs`h, fs`s, `files, `open, `cloexec
      ensures Inv() && fs.s == old(fs.s)
      ensures open == old(open)[fd := 0] && cloexec == old(cloexec)[fd := false]
      ensures files == CloseFiles(old(files), old(open)[fd])
    {
      hide Sound, IsTree, Accounts, Nameable, SameLinks;
      CloseSlot(fs.h, files, open, fd);
      CloseLinks(tree, fs.h, files, open[fd]);
      SoundIsTree(fs.h, fs.root, fs.s);
      VfsClose(open[fd]);
      open := open[fd := 0];
      cloexec := cloexec[fd := false];
      SoundCounts(tree, fs.h, fs.root, fs.s, files, open);
    }

    method SysClose(fd: nat) returns (result: int)
      requires Inv()
      modifies fs`h, fs`s, `files, `open, `cloexec
      ensures Inv() && fs.s == old(fs.s)
      ensures result == 0 <==> 3 <= fd < MAX_OPEN_FILES && old(open)[fd] != 0
      ensures result == 0 ==>
              open == old(open)[fd := 0] && cloexec == old(cloexec)[fd := false]
              && files == CloseFiles(old(files), old(open)[fd])
      ensures result != 0 ==>
              result == EBADF && open == old(open) && cloexec == old(cloexec)
              && files == old(files) && fs.h == old(fs.h)
    {
      if fd < 3 || fd >= MAX_OPEN_FILES || open[fd] == 0 {
        return EBADF;
      }
      CloseSlotAt(fd);
      return 0;
    }

    /** The lowest empty slot from `minimum` on. */
    method FindFreeFd(minimum: nat) returns (fd: int)
      requires |open| == MAX_OPEN_FILES
      ensures LowestFree(open, minimum, fd)
    {
      if minimum >= MAX_OPEN_FILES {
        return EBADF;
      }
      fd := minimum;
      while fd < MAX_OPEN_FILES
        invariant minimum <= fd <= MAX_OPEN_FILES && forall k :: minimum <= k < fd ==> open[k] != 0
      {
        if open[fd] == 0 {
          return fd;
        }
        fd := fd + 1;
      }
      return ENFILE;
    }

    /** `duplicate_fd`, also onto a slot that holds the same file already. */
    method DuplicateFd(oldFd: nat, newFd: nat, exact: bool, closeOnExec: bool) returns (result: int)
      requires Inv()
      modifies fs`h, fs`s, `files, `open, `cloexec
      ensures Inv() && fs.s == old(fs.s)
      ensures oldFd >= MAX_OPEN_FILES || old(open)[oldFd] == 0 ==> result == EBADF
      ensures oldFd < MAX_OPEN_FILES && old(open)[oldFd] != 0 && !exact ==> LowestFree(old(open), newFd, result)
      ensures oldFd < MAX_OPEN_FILES && old(open)[oldFd] != 0 && exact ==>
                result == if newFd >= MAX_OPEN_FILES then EBADF
                          else if newFd == oldFd && closeOnExec then EINVAL
                          else newFd
      ensures result < 0 || result == oldFd ==> open == old(open) && cloexec == old(cloexec) && files == old(files)
      ensures result >= 0 && result != oldFd ==>
                open == old(open)[result := old(open)[oldFd]] && cloexec == old(cloexec)[result := closeOnExec]
      ensures OnlyCounts(old(files), files)
    {
      hide Sound, IsTree, Accounts, Nameable, SameLinks;
      if oldFd >= MAX_OPEN_FILES || open[oldFd] == 0 {
        return EBADF;
      }
      var target := newFd;
      if !exact {
        var free := FindFreeFd(newFd);
        if free < 0 {
          return free;
        }
        target := free;
      } else if newFd >= MAX_OPEN_FILES {
        return EBADF;
      }
      if oldFd == target {
        return if exact && closeOnExec then EINVAL else target;
      }
      var f := open[oldFd];
      if open[target] != 0 {
        FileOpen(fs.h, files, open, target);
        CountsClose(files, files, open[target]);
        CloseSlotAt(target);
      }
      FileOpen(fs.h, files, open, oldFd);
      ShareSlot(fs.h, files, open, target, f);
      files := files[f := files[f].(refs := files[f].refs + 1)];
      open := open[target := f];
      cloexec := cloexec[target := closeOnExec];
      return target;
    }

    /** `sys_fcntl`: F_DUPFD, F_GETFD, F_SETFD, F_GETFL and F_SETFL. */
    method SysFcntl(fd: nat, command: nat, argument: nat) returns (result: int)
      requires Inv()
      modifies fs`h, fs`s, `files, `open, `cloexec
      ensures Inv() && fs.s == old(fs.s)
      ensures fd >= MAX_OPEN_FILES || old(open)[fd] == 0 ==> result == EBADF
      ensures result < 0 ==> open == old(open) && cloexec == old(cloexec) && files == old(files)
      ensures fd < MAX_OPEN_FILES && old(open)[fd] != 0 && command == 0 ==>
                && LowestFree(old(open), argument, result) && OnlyCounts(old(files), files)
                && open == (if result < 0 then old(open) else old(open)[result := old(open)[fd]])
                && cloexec == (if result < 0 then old(cloexec) else old(cloexec)[result := false])
      ensures command != 0 ==> open == old(open) && fs.h == old(fs.h) && (command != 2 ==> cloexec == old(cloexec))
      ensures command != 0 && command != 4 ==> files == old(files)
      ensures fd < MAX_OPEN_FILES && old(open)[fd] != 0 && command == 1 ==> result == if cloexec[fd] then 1 else 0
      ensures fd < MAX_OPEN_FILES && old(open)[fd] != 0 && command == 2 ==>
                && result == (if argument % U32 > 1 then EINVAL else 0)
                && cloexec == if argument % U32 > 1 then old(cloexec) else old(cloexec)[fd := argument % U32 == 1]
      ensures fd < MAX_OPEN_FILES && old(open)[fd] != 0 && command in {3, 4} ==> open[fd] in old(files)
      ensures fd < MAX_OPEN_FILES && old(open)[fd] != 0 && command == 3 ==> result == files[open[fd]].flags
      ensures fd < MAX_OPEN_FILES && old(open)[fd] != 0 && command == 4 ==>
                && result == 0
                && files == old(files)[open[fd] := old(files)[open[fd]].(
                                         flags := Appending(old(files)[open[fd]].flags, argument))]
      ensures fd < MAX_OPEN_FILES && old(open)[fd] != 0 && command > 4 ==> result == EINVAL
    {
      hide Sound, IsTree, Accounts, Nameable, SameLinks;
      if fd >= MAX_OPEN_FILES || open[fd] == 0 {
        return EBADF;
      }
      if command == 0 {
        result := DuplicateFd(fd, argument, false, false);
        return;
      }
      FileOpen(fs.h, files, open, fd);
      if command == 1 {
        return if cloexec[fd] then 1 else 0;
      }
      if command == 2 {
        if argument % U32 > 1 {
          return EINVAL;
        }
        cloexec := cloexec[fd := argument % U32 == 1];
        return 0;
      }
      if command == 3 {
        return files[open[fd]].flags;
      }
      if command == 4 {
        var f := open[fd];
        TouchFile(fs.h, files, open, f, files[f].(flags := Appending(files[f].flags, argument)));
        files := files[f := files[f].(flags := Appending(files[f].flags, argument))];
        return 0;
      }
      return EINVAL;
    }

    /** The sweep after a successful `execve`. */
    method CloseOnExec()
      requires Inv()
      modifies fs`h, fs`s, `files, `open, `cloexec
      ensures Inv() && fs.s == old(fs.s)
      ensures forall fd :: 0 <= fd < MAX_OPEN_FILES ==>
                open[fd] == if fd >= 3 && old(cloexec)[fd] then 0 else old(open)[fd]
      ensures OnlyCounts(old(files), files)
    {
      hide Sound, IsTree, Accounts, Nameable, SameLinks;
      var fd := 3;
      while fd < MAX_OPEN_FILES
        invariant 3 <= fd <= MAX_OPEN_FILES && Inv() && fs.s == old(fs.s)
        invariant forall k :: 0 <= k < MAX_OPEN_FILES ==>
                    open[k] == if 3 <= k < fd && old(cloexec)[k] then 0 else old(open)[k]
        invariant forall k :: fd <= k < MAX_OPEN_FILES ==> cloexec[k] == old(cloexec)[k]
        invariant OnlyCounts(old(files), files)
      {
        if open[fd] != 0 && cloexec[fd] {
          FileOpen(fs.h, files, open, fd);
          CountsClose(old(files), files, open[fd]);
          CloseSlotAt(fd);
        }
        fd := fd + 1;
      }
    }

    /** The sweep of `exit`: every descriptor from 3 on is closed. */
    method CloseAll()
      requires Inv()
      modifies fs`h, fs`s, `files, `open, `cloexec
      ensures Inv() && fs.s == old(fs.s)
      ensures forall fd :: 0 <= fd < MAX_OPEN_FILES ==> open[fd] == if fd >= 3 then 0 else old(open)[fd]
      ensures OnlyCounts(old(files), files)
      ensures (forall fd :: 0 <= fd < 3 ==> old(open)[fd] == 0) ==>
              files == map[] && forall p :: p in fs.h ==> fs.h[p].refs == 1
    {
      hide Sound, IsTree, Accounts, Nameable, SameLinks;
      var fd := 3;
      while fd < MAX_OPEN_FILES
        invariant 3 <= fd <= MAX_OPEN_FILES && Inv() && fs.s == old(fs.s)
        invariant forall k :: 0 <= k < MAX_OPEN_FILES ==> open[k] == if 3 <= k < fd then 0 else old(open)[k]
        invariant OnlyCounts(old(files), files)
      {
        if open[fd] != 0 {
          FileOpen(fs.h, files, open, fd);
          CountsClose(old(files), files, open[fd]);
          CloseSlotAt(fd);
        }
        fd := fd + 1;
      }
      if forall k :: 0 <= k < 3 ==> open[k] == 0 {
        AllClosed(fs.h, files, open);
      }
    }

    ghost function Now(): State
      reads this
    {
      State(open, cloexec, files, cwd)
    }

    ghost function Around(): World
      reads this, fs
    {
      World(tree, fs.root, fs.s, fs.scarce)
    }

    ghost function Absolute(dirfd: Option<nat>, path: Str): seq<byte>
      reads this, fs
      requires Inv()
    {
      Around().Absolute(Now(), dirfd, path)
    }

    ghost predicate IsDirectory(f: int)
      reads `files, `tree
    {
      OpensDirectory(tree, files, f)
    }

    /**
     `resolve_user_path`: an absolute path as it is, a relative one joined to the working
     directory (`dirfd` absent) or to the path of an open directory.
     */
    method ResolveUserPath(dirfd: Option<nat>, userPath: Option<Str>) returns (result: int, path: Str)
      requires Inv()
      ensures result == Around().UserError(Now(), dirfd, userPath)
      ensures result == 0 ==> userPath.Some? && 0 < |path| < PATH_SIZE && path[0] == SLASH
      ensures result == 0 ==> path == Absolute(dirfd, userPath.value)
    {
      hide Sound, IsTree, Accounts, PathOf, SameLinks, Reached;
      path := [];
      if userPath.None? {
        return EFAULT, path;
      }
      var user := userPath.value;
      if user == [] {
        return ENOENT, path;
      }
      if |user| >= PATH_SIZE {
        return ENAMETOOLONG, path;
      }
      if user[0] == SLASH {
        return 0, user;
      }
      var base := cwd;
      if dirfd.Some? {
        if dirfd.value >= MAX_OPEN_FILES || open[dirfd.value] == 0 {
          return EBADF, path;
        }
        FileOpen(fs.h, files, open, dirfd.value);
        var dentry := files[open[dirfd.value]].dentry;
        NameableAt(tree, fs.h, fs.root, fs.s, dentry);
        if !fs.h[dentry].inode.value.Directory? {
          return ENOTDIR, path;
        }
        var printed;
        printed, base := fs.DentryPath(dentry, PATH_SIZE);
        PathOfStr(tree, fs.root, fs.s, dentry);
        if printed < 0 {
          return printed, path;
        }
      }
      if |Join(base, user)| + 1 > PATH_SIZE {
        return ENAMETOOLONG, path;
      }
      assert 0 !in Join(base, user);
      return 0, Join(base, user);
    }

    /** `path` opens the dentry `at`. */
    ghost predicate Names(path: seq<byte>, at: int)
      reads this, fs
    {
      path != [] && path[0] == SLASH && |path| < PATH_SIZE && OpenTarget(tree, fs.s, fs.root, path) == At(at)
    }

    /** `sys_openat`: the lowest free descriptor from 3 on, for the file the path names. */
    method SysOpenat(dirfd: Option<nat>, userPath: Option<Str>, flags: u64) returns (result: int, ghost at: int)
      requires Inv()
      modifies fs`h, fs`s, `files, `open, `cloexec
      ensures Inv() && fs.s == old(fs.s)
      ensures result < 0 ==> open == old(open) && cloexec == old(cloexec) && files == old(files) && fs.h == old(fs.h)
      ensures result < 0 ==>
                result == old(Around().OpenatError(Now(), dirfd, userPath, flags)) || (fs.scarce && result == ENOMEM)
      ensures result >= 0 ==> old(Around().OpenatError(Now(), dirfd, userPath, flags)) == 0
      ensures result >= 0 ==>
                && LowestFree(old(open), 3, result) && open[result] !in old(files) && userPath.Some?
                && open == old(open)[result := open[result]] && cloexec == old(cloexec)[result := Has(flags, O_CLOEXEC)]
                && files == old(files)[open[result] := File(at, 0, OpenFlags(flags), 1)]
                && Names(old(Absolute(dirfd, userPath.value)), at)
    {
      hide Sound, IsTree, Accounts, Nameable, SameLinks, OpenTarget, PathOf, Has, OpenFlags, Join;
      var fd := FindFreeFd(3);
      if fd < 0 {
        return ENFILE, 0;
      }
      var error, path := ResolveUserPath(dirfd, userPath);
      if error < 0 {
        return error, 0;
      }
      AccountsNull(fs.h, files, open);
      ghost var h0, files0 := fs.h, files;
      var f;
      f, error := VfsOpen(path, OpenFlags(flags));
      OpenErrorSame(tree, h0, fs.s, fs.root, path, OpenFlags(flags));
      if f == 0 {
        return error, 0;
      }
      OpenSame(tree, h0, fs.s, fs.root, path);
      OpenNameable(tree, fs.root, fs.s, path);
      ghost var p := OpenTarget(h0, fs.s, fs.root, path).p;
      OpenSlot(h0, files0, open, fd, f, p, files[f]);
      BumpLinks(tree, h0, p);
      open := open[fd := f];
      cloexec := cloexec[fd := Has(flags, O_CLOEXEC)];
      SoundCounts(tree, fs.h, fs.root, fs.s, files, open);
      return fd, p;
    }

    /** The working directory is the printed path of a directory that it leads back to. */
    ghost predicate Canonical(at: int)
      reads this, fs
      requires Inv()
    {
      && at in tree && Reached(tree, fs.root, fs.s, at) && tree[at].inode.value.Directory?
      && cwd == PathOf(tree, fs.root, fs.s, at) && Resolve(tree, fs.s, fs.root, cwd) == At(at)
    }

    /** `sys_chdir`: a failure changes nothing, a success leaves the canonical path of a directory. */
    method SysChdir(userPath: Option<Str>) returns (result: int, ghost at: int)
      requires Inv()
      modifies fs`h, fs`s, `cwd
      ensures Inv() && fs.s == old(fs.s) && fs.h == old(fs.h)
      ensures result < 0 ==> cwd == old(cwd)
      ensures result >= 0 ==> result == 0 && Canonical(at)
      ensures result == old(Around().ChdirError(Now(), userPath))
              || (fs.scarce && result == ENOMEM && old(Around().ChdirError(Now(), userPath)) == ENOENT)
      ensures result == 0 ==>
              userPath.Some? && Resolve(tree, fs.s, fs.root, old(Absolute(None, userPath.value))) == At(at)
    {
      hide Sound, IsTree, Accounts, Nameable, SameLinks, PathOf, Resolve, Reached;
      at := 0;
      var path;
      result, path := ResolveUserPath(None, userPath);
      if result < 0 {
        return;
      }
      ghost var h0 := fs.h;
      var w := fs.PathWalk(path);
      ResolveSame(tree, h0, fs.s, fs.root, path);
      if w.Failed? {
        return w.error, at;
      }
      var dentry := w.p;
      at := dentry;
      WalkedAt(tree, h0, fs.root, fs.s, dentry, path);
      BumpTree(h0, fs.root, fs.s, dentry);
      PrintedSame(tree, fs.h, fs.root, fs.s, dentry);
      if !fs.h[dentry].inode.value.Directory? {
        fs.DropReference(dentry, h0);
        return ENOTDIR, at;
      }
      var printed, text := fs.DentryPath(dentry, PATH_SIZE);
      cwd := text;
      fs.DropReference(dentry, h0);
      return printed, at;
    }

    /** `sys_fchdir`: an open directory becomes the working directory, canonically if its name can be walked. */
    method SysFchdir(fd: nat) returns (result: int, ghost at: int)
      requires Inv()
      modifies `cwd
      ensures Inv()
      ensures result < 0 ==> cwd == old(cwd)
      ensures result == if fd >= MAX_OPEN_FILES || open[fd] == 0 then EBADF
                        else if !IsDirectory(open[fd]) then ENOTDIR
                        else 0
      ensures result >= 0 ==> result == 0 && fd < MAX_OPEN_FILES && open[fd] in files && at == files[open[fd]].dentry
      ensures result >= 0 ==> at in tree && cwd == PathOf(tree, fs.root, fs.s, at)
      ensures result >= 0 ==> (Canonical(at) <==> at == fs.root || Proper(tree[at].name))
      ensures result >= 0 ==>
                (Resolve(tree, fs.s, fs.root, cwd) == At(at) <==> at == fs.root || Proper(tree[at].name))
    {
      hide Sound, IsTree, Accounts, SameLinks, PathOf, Resolve, Reached;
      at := 0;
      if fd >= MAX_OPEN_FILES || open[fd] == 0 {
        return EBADF, at;
      }
      FileOpen(fs.h, files, open, fd);
      var dentry := files[open[fd]].dentry;
      NameableAt(tree, fs.h, fs.root, fs.s, dentry);
      if !fs.h[dentry].inode.value.Directory? {
        return ENOTDIR, at;
      }
      var printed, path := fs.DentryPath(dentry, PATH_SIZE);
      PathOfStr(tree, fs.root, fs.s, dentry);
      cwd := path;
      at := dentry;
      PrintedLeadsBack(tree, fs.root, fs.s, at);
      return 0, at;
    }
  }

  lemma AccountsNull(h: Heap, files: Files, open: seq<int>)
    requires Accounts(h, files, open)
    ensures 0 !in files
  {
  }

  lemma OpenSame(tree: Heap, h: Heap, s: Shape, root: int, path: seq<byte>)
    requires SameLinks(tree, h) && path != [] && path[0] == SLASH
    ensures OpenTarget(h, s, root, path) == OpenTarget(tree, s, root, path)
  {
    hide Resolve, Find;
    ResolveSame(tree, h, s, root, ParentPath(path));
    var w := Resolve(tree, s, root, ParentPath(path));
    if w.At? && w.p in s.kids {
      FindSame(tree, h, s.kids[w.p], BaseName(path));
    }
  }

  lemma OpenErrorSame(tree: Heap, h: Heap, s: Shape, root: int, path: seq<byte>, flags: u32)
    requires SameLinks(tree, h)
    ensures OpenError(h, s, root, path, flags) == OpenError(tree, s, root, path, flags)
  {
    hide Resolve, OpenTarget, SameLinks;
    if path != [] && path[0] == SLASH {
      OpenSame(tree, h, s, root, path);
      ResolveSame(tree, h, s, root, ParentPath(path));
    }
  }

  lemma BumpLinks(tree: Heap, h: Heap, p: int)
    requires SameLinks(tree, h) && p in h
    ensures SameLinks(tree, Bump(h, p, 1))
  {
  }

  lemma {:induction false} PathOfSame(tree: Heap, h: Heap, root: int, s: Shape, p: int)
    requires SameLinks(tree, h) && IsTree(tree, root, s) && IsTree(h, root, s) && p in h
    ensures PathOf(h, root, s, p) == PathOf(tree, root, s, p)
    decreases (TreeAt(tree, root, s, p); s.depth[p])
  {
    hide IsTree, PathOf;
    TreeAt(tree, root, s, p);
    if p == root {
      PathOfRoot(tree, root, s);
      PathOfRoot(h, root, s);
    } else {
      PathOfKid(tree, root, s, p);
      PathOfKid(h, root, s, p);
      PathOfSame(tree, h, root, s, h[p].parent);
    }
  }

  lemma PrintedSame(tree: Heap, h: Heap, root: int, s: Shape, p: int)
    requires SameLinks(tree, h) && Sound(tree, root, s) && IsTree(h, root, s) && p in h
    ensures IsTree(tree, root, s) && PathOf(h, root, s, p) == PathOf(tree, root, s, p)
    ensures h[p].inode == tree[p].inode && h[p].inode.Some?
  {
    hide IsTree, PathOf;
    PathOfSame(tree, h, root, s, p);
  }

  lemma NameableAt(tree: Heap, h: Heap, root: int, s: Shape, p: int)
    requires SameLinks(tree, h) && Sound(tree, root, s) && Sound(h, root, s) && Nameable(tree, root, s, p)
    ensures p in h && IsTree(tree, root, s) && IsTree(h, root, s) && PathOf(h, root, s, p) == PathOf(tree, root, s, p)
    ensures |PathOf(tree, root, s, p)| < PATH_SIZE && p in s.depth && s.depth[p] <= 128
    ensures h[p].inode == tree[p].inode && h[p].inode.Some?
  {
    hide IsTree, PathOf;
    PathOfSame(tree, h, root, s, p);
    TreeRoot(tree, root, s);
  }

  /** What a path under 256 bytes leads to can be printed, and its printed path leads back. */
  lemma WalkedAt(tree: Heap, h: Heap, root: int, s: Shape, p: int, path: seq<byte>)
    requires SameLinks(tree, h) && Sound(tree, root, s) && Sound(h, root, s)
    requires 0 < |path| < PATH_SIZE && path[0] == SLASH && Resolve(tree, s, root, path) == At(p)
    ensures p in tree && p in h && IsTree(tree, root, s) && p in s.depth && s.depth[p] <= 128
    ensures tree[p].inode.Some? && Reached(tree, root, s, p)
    ensures 0 < |PathOf(tree, root, s, p)| < PATH_SIZE
    ensures PathOf(tree, root, s, p)[0] == SLASH && 0 !in PathOf(tree, root, s, p)
    ensures Resolve(tree, s, root, PathOf(tree, root, s, p)) == At(p)
    ensures SameLinks(tree, Bump(h, p, 1))
  {
    hide IsTree, PathOf, Resolve, Reached, Within;
    PathRoundTrip(tree, root, s, path);
    ReachedRoot(tree, root, s);
    WalkReaches(tree, root, s, root, path, 0);
    TreeRoot(tree, root, s);
    PathOfStr(tree, root, s, p);
    BumpLinks(tree, h, p);
  }

  lemma FileOpen(h: Heap, files: Files, open: seq<int>, fd: nat)
    requires Accounts(h, files, open) && fd < |open| && open[fd] != 0
    ensures open[fd] in files
  {
  }

  /** With every slot empty no file is left, and each dentry has the tree's reference alone. */
  lemma AllClosed(h: Heap, files: Files, open: seq<int>)
    requires Accounts(h, files, open) && forall k :: 0 <= k < |open| ==> open[k] == 0
    ensures files == map[] && forall p :: p in h ==> h[p].refs == 1
  {
    forall f
      ensures f !in files
    {
      assert f != 0 ==> f !in open;
      assert f in open <==> f in multiset(open);
    }
    assert forall p :: FilesOn(files, p) == {};
  }

  lemma CloseLinks(tree: Heap, h: Heap, files: Files, f: int)
    requires SameLinks(tree, h) && f in files && files[f].dentry in h
    ensures SameLinks(tree, CloseHeap(h, files, f))
  {
  }

  /** Balanced accounts leave the tree sound. */
  lemma SoundCounts(tree: Heap, h: Heap, root: int, s: Shape, files: Files, open: seq<int>)
    requires Sound(tree, root, s) && SameLinks(tree, h) && Accounts(h, files, open)
    ensures Sound(h, root, s)
  {
    hide IsTree;
    TreeSame(tree, h, root, s);
    TreeRoot(h, root, s);
  }

  /* ----- Runs ----- */

  datatype Call =
    | Openat(dirfd: Option<nat>, path: Option<Str>, flags: u64)
    | Close(fd: nat)
    | Duplicate(oldFd: nat, newFd: nat, exact: bool, closeOnExec: bool)
    | Fcntl(fd: nat, command: nat, argument: nat)
    | Chdir(path: Option<Str>)
    | Fchdir(fd: nat)
    | Execve

  ghost predicate AllProper(tree: Heap, root: int) {
    forall p :: p in tree && p != root ==> Proper(tree[p].name)
  }

  /** What a call may return and do, given the state it is made in. */
  ghost predicate Acts(w: World, st: State, call: Call, result: int, st': State)
    requires IsTree(w.tree, w.root, w.s) && |st.open| == |st.cloexec| == MAX_OPEN_FILES
  {
    match call
    case Openat(dirfd, path, flags) => ActsOpenat(w, st, dirfd, path, flags, result, st')
    case Close(fd) =>
      if 3 <= fd < MAX_OPEN_FILES && st.open[fd] in st.files then
        && result == 0
        && st' == State(st.open[fd := 0], st.cloexec[fd := false], CloseFiles(st.files, st.open[fd]), st.cwd)
      else result == EBADF && st' == st
    case Duplicate(oldFd, newFd, exact, closeOnExec) =>
      ActsDuplicate(st, oldFd, newFd, exact, closeOnExec, result, st')
    case Fcntl(fd, command, argument) => ActsFcntl(st, fd, command, argument, result, st')
    case Chdir(path) =>
      var error := w.ChdirError(st, path);
      && (result == error || (w.scarce && result == ENOMEM && error == ENOENT))
      && if result != 0 then st' == st
         else exists at :: at in w.tree && path.Some?
                           && Resolve(w.tree, w.s, w.root, w.Absolute(st, None, path.value)) == At(at)
                           && st' == st.(cwd := PathOf(w.tree, w.root, w.s, at))
    case Fchdir(fd) =>
      if fd >= MAX_OPEN_FILES || st.open[fd] == 0 then result == EBADF && st' == st
      else if !OpensDirectory(w.tree, st.files, st.open[fd]) then result == ENOTDIR && st' == st
      else result == 0 && st' == st.(cwd := PathOf(w.tree, w.root, w.s, st.files[st.open[fd]].dentry))
    case Execve =>
      && result == 0 && |st'.open| == MAX_OPEN_FILES && OnlyCounts(st.files, st'.files) && st'.cwd == st.cwd
      && forall fd :: 0 <= fd < MAX_OPEN_FILES ==> st'.open[fd] == if fd >= 3 && st.cloexec[fd] then 0 else st.open[fd]
  }

  ghost predicate ActsOpenat(w: World, st: State, dirfd: Option<nat>, path: Option<Str>, flags: u64, result: int,
                             st': State)
    requires IsTree(w.tree, w.root, w.s) && |st.open| == |st.cloexec| == MAX_OPEN_FILES
  {
    var error := w.OpenatError(st, dirfd, path, flags);
    if result < 0 then st' == st && (result == error || (w.scarce && result == ENOMEM))
    else
      && error == 0 && LowestFree(st.open, 3, result) && path.Some?
      && exists at, f: int ::
           && f !in st.files && OpensAt(w, w.Absolute(st, dirfd, path.value), at)
           && st' == State(st.open[result := f], st.cloexec[result := Has(flags, O_CLOEXEC)],
                           st.files[f := File(at, 0, OpenFlags(flags), 1)], st.cwd)
  }

  ghost predicate OpensAt(w: World, path: seq<byte>, at: int) {
    path != [] && path[0] == SLASH && OpenTarget(w.tree, w.s, w.root, path) == At(at)
  }

  ghost predicate ActsDuplicate(st: State, oldFd: nat, newFd: nat, exact: bool, closeOnExec: bool, result: int,
                                st': State)
    requires |st.open| == |st.cloexec| == MAX_OPEN_FILES
  {
    && st'.cwd == st.cwd && OnlyCounts(st.files, st'.files)
    && (if oldFd >= MAX_OPEN_FILES || st.open[oldFd] == 0 then result == EBADF
        else if !exact then LowestFree(st.open, newFd, result)
        else result == if newFd >= MAX_OPEN_FILES then EBADF
                       else if newFd == oldFd && closeOnExec then EINVAL
                       else newFd)
    && (if result < 0 || result == oldFd then st' == st
        else st'.open == st.open[result := st.open[oldFd]] && st'.cloexec == st.cloexec[result := closeOnExec])
  }

  ghost predicate ActsFcntl(st: State, fd: nat, command: nat, argument: nat, result: int, st': State)
    requires |st.open| == |st.cloexec| == MAX_OPEN_FILES
  {
    if fd >= MAX_OPEN_FILES || st.open[fd] !in st.files then result == EBADF && st' == st
    else if command == 0 then ActsDuplicate(st, fd, argument, false, false, result, st')
    else if command == 1 then result == (if st.cloexec[fd] then 1 else 0) && st' == st
    else if command == 2 then
      if argument % U32 > 1 then result == EINVAL && st' == st
      else result == 0 && st' == st.(cloexec := st.cloexec[fd := argument % U32 == 1])
    else if command == 3 then result == st.files[st.open[fd]].flags && st' == st
    else if command == 4 then
      var file := st.files[st.open[fd]];
      result == 0 && st' == st.(files := st.files[st.open[fd] := file.(flags := Appending(file.flags, argument))])
    else result == EINVAL && st' == st
  }

  /** One call of a run. */
  method Serve(process: Process, call: Call, ghost before: int) returns (result: int, ghost at: int)
    requires process.Inv() && process.Canonical(before)
    requires AllProper(process.tree, process.fs.root) || !call.Fchdir?
    modifies process, process.fs
    ensures process.Inv() && process.Canonical(at)
    ensures process.tree == old(process.tree)
    ensures process.fs.s == old(process.fs.s) && process.fs.root == old(process.fs.root)
    ensures process.fs.scarce == old(process.fs.scarce)
    ensures IsTree(process.tree, process.fs.root, process.fs.s)
    ensures Acts(old(process.Around()), old(process.Now()), call, result, process.Now())
  {
    hide Sound, IsTree, Accounts, Nameable, SameLinks, PathOf, Resolve, Reached, OpenTarget, Has, OpenFlags, Join;
    result, at := 0, before;
    SoundIsTree(process.tree, process.fs.root, process.fs.s);
    Handles(process.fs.h, process.files, process.open);
    match call {
      case Openat(dirfd, path, flags) =>
        ghost var found, w, st := 0, process.Around(), process.Now();
        result, found := process.SysOpenat(dirfd, path, flags);
        if result >= 0 {
          ghost var f := process.open[result];
          assert OpensAt(w, w.Absolute(st, dirfd, path.value), found);
          assert process.Now() == State(st.open[result := f], st.cloexec[result := Has(flags, O_CLOEXEC)],
                                        st.files[f := File(found, 0, OpenFlags(flags), 1)], st.cwd);
        }
      case Close(fd) =>
        result := process.SysClose(fd);
      case Duplicate(oldFd, newFd, exact, closeOnExec) =>
        result := process.DuplicateFd(oldFd, newFd, exact, closeOnExec);
      case Fcntl(fd, command, argument) =>
        result := process.SysFcntl(fd, command, argument);
      case Chdir(path) =>
        ghost var there;
        result, there := process.SysChdir(path);
        at := if result >= 0 then there else at;
      case Fchdir(fd) =>
        ghost var there;
        result, there := process.SysFchdir(fd);
        at := if result >= 0 then there else at;
      case Execve =>
        process.CloseOnExec();
    }
  }

  /** A slot that is not empty holds a file. */
  lemma Handles(h: Heap, files: Files, open: seq<int>)
    requires Accounts(h, files, open)
    ensures 0 !in files && forall fd :: 0 <= fd < |open| && open[fd] != 0 ==> open[fd] in files
  {
  }

  /** The states a run went through, one for each call. */
  ghost predicate Follows(w: World, trace: seq<State>, calls: seq<Call>, results: seq<int>)
    requires IsTree(w.tree, w.root, w.s)
  {
    && |trace| == |calls| + 1 && |results| == |calls|
    && (forall i :: 0 <= i < |trace| ==> |trace[i].open| == |trace[i].cloexec| == MAX_OPEN_FILES)
    && (forall i :: 0 <= i < |calls| ==> Acts(w, trace[i], calls[i], results[i], trace[i + 1]))
  }

  /**
   Whatever calls a process makes, in whatever order and with whatever outcome, each returns
   and does what the state before it demands, the accounts of files and dentries balance after
   each of them, and the working directory is always the canonical path of an existing
   directory.
   */
  method Run(process: Process, calls: seq<Call>, ghost start: int)
    returns (results: seq<int>, ghost at: int, ghost trace: seq<State>)
    requires process.Inv() && process.Canonical(start)
    requires AllProper(process.tree, process.fs.root) || forall i :: 0 <= i < |calls| ==> !calls[i].Fchdir?
    modifies process, process.fs
    ensures process.Inv() && process.Canonical(at) && |results| == |calls|
    ensures process.tree == old(process.tree)
    ensures process.fs.s == old(process.fs.s) && process.fs.root == old(process.fs.root)
    ensures IsTree(process.tree, process.fs.root, process.fs.s)
    ensures Follows(process.Around(), trace, calls, results)
    ensures trace[0] == old(process.Now()) && trace[|calls|] == process.Now()
  {
    hide Sound, IsTree, Accounts, Nameable, SameLinks, PathOf, Resolve, Reached, Acts;
    results, at, trace := [], start, [process.Now()];
    SoundIsTree(process.tree, process.fs.root, process.fs.s);
    while |results| < |calls|
      invariant |results| <= |calls|
      invariant process.tree == old(process.tree) && process.fs.scarce == old(process.fs.scarce)
      invariant process.fs.s == old(process.fs.s) && process.fs.root == old(process.fs.root)
      invariant process.Inv() && process.Canonical(at)
      invariant IsTree(process.tree, process.fs.root, process.fs.s)
      invariant Follows(process.Around(), trace, calls[..|results|], results)
      invariant trace[0] == old(process.Now()) && trace[|results|] == process.Now()
    {
      ghost var w := process.Around();
      var result;
      result, at := Serve(process, calls[|results|], at);
      FollowsOne(w, trace, calls, results, result, process.Now());
      results := results + [result];
      trace := trace + [process.Now()];
    }
    assert calls[..|results|] == calls;
  }

  lemma FollowsOne(w: World, trace: seq<State>, calls: seq<Call>, results: seq<int>, result: int, st: State)
    requires IsTree(w.tree, w.root, w.s) && |results| < |calls| && |st.open| == |st.cloexec| == MAX_OPEN_FILES
    requires Follows(w, trace, calls[..|results|], results)
    requires Acts(w, trace[|results|], calls[|results|], result, st)
    ensures Follows(w, trace + [st], calls[..|results| + 1], results + [result])
  {
    hide Acts, IsTree;
    var n := |results|;
    forall i | 0 <= i < n + 1
      ensures Acts(w, (trace + [st])[i], calls[..n + 1][i], (results + [result])[i], (trace + [st])[i + 1])
    {
      if i < n {
        assert calls[..n][i] == calls[i];
        assert Acts(w, trace[i], calls[..n][i], results[i], trace[i + 1]);
      }
    }
  }
}
