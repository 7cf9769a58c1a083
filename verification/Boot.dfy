/** From an archive to a running process. */
module Boot {
  import opened Bytes
  import opened Paths
  import opened DentryLists
  import opened Vfs
  import opened TreeGrowth
  import opened FileTable
  import opened Process
  import Cpio
  import Initramfs

  /** Every name in a loaded tree is one that a path can carry. */
  lemma BuiltProper(h: Heap, root: int, s: Shape, recs: seq<Cpio.Record>, at: seq<int>)
    requires Initramfs.Built(h, root, s, recs, at)
    ensures AllProper(h, root)
  {
    hide IsTree, PathOf, Find, Proper, Initramfs.Matches, Initramfs.NameOf;
    forall p | p in h && p != root
      ensures Proper(h[p].name)
    {
      var i :| 0 <= i < |at| && at[i] == p;
      assert Initramfs.PlacedRecord(h, root, s, recs[i], at[i]);
      ReachedKid(h, root, s, p);
    }
  }

  /**
   Load the archive into a fresh file system, then let a process make any calls: every entry
   is found by its path, all counts balance, and the working directory is always the
   canonical path of an existing directory, whichever calls are made.
   */
  method LoadAndRun(root: int, items: seq<Cpio.Item>, calls: seq<Call>)
    returns (loaded: int, process: Process, results: seq<int>, ghost at: seq<int>, ghost cwd: int,
             ghost trace: seq<State>)
    requires root != 0 && forall i :: 0 <= i < |items| ==> Cpio.Encodable(items[i])
    requires |Cpio.EncodeItems(items)| < 0x8000_0000_0000_0000 && Initramfs.WellFormed(Cpio.ReadItems(items, 0))
    ensures process.Inv() && process.Canonical(cwd) && |results| == |calls|
    ensures IsTree(process.tree, process.fs.root, process.fs.s) && Follows(process.Around(), trace, calls, results)
    ensures trace[0].files == map[] && trace[0].cwd == [SLASH] && trace[|calls|] == process.Now()
    ensures loaded == Initramfs.NamedCount(Cpio.ReadItems(items, 0))
    ensures Initramfs.AllFound(process.tree, process.fs.root, process.fs.s, items, at)
  {
    hide Sound, IsTree, Initramfs.Built, Initramfs.AllFound, Initramfs.WellFormed, Initramfs.NamedCount,
         Cpio.EncodeItems, AllProper;
    var fs := new FileSystem(root, false);
    OneRoot(fs.h, root);
    loaded, at := Initramfs.PackAndLoad(fs, items);
    BuiltProper(fs.h, fs.root, fs.s, Cpio.ReadItems(items, 0), at);
    OneMeans(fs.h);
    process := new Process(fs);
    RootCanonical(process);
    results, cwd, trace := Run(process, calls, fs.root);
  }

  lemma OneRoot(h: Heap, root: int)
    requires h.Keys == {root} && h[root].refs == 1
    ensures Initramfs.OneEach(h)
  {
  }

  lemma OneMeans(h: Heap)
    requires Initramfs.OneEach(h)
    ensures forall p :: p in h ==> h[p].refs == 1
  {
  }

  lemma RootCanonical(process: Process)
    requires process.Inv() && process.cwd == [SLASH]
    ensures process.Canonical(process.fs.root)
  {
    hide Find;
    ResolveRoot(process.tree, process.fs.root, process.fs.s);
  }

  /* ----- A working directory that leads elsewhere ----- */

  /** A nameless entry is opened by the path of its directory and a slash; that path leads to the directory. */
  lemma NamelessOpens(h: Heap, root: int, s: Shape, c: int, inode: Inode, d: int)
    requires CanAdd(h, root, s, c, [], d) && Reached(h, root, s, d) && d != root && Find(h, s.kids[d], []) == 0
    ensures var h', s' := Link(h, c, [], Some(inode), d), LinkShape(s, c, d);
            var path := PathOf(h, root, s, d) + [SLASH];
            && path[0] == SLASH && OpenTarget(h', s', root, path) == At(c) && c in h' && h'[c].name == []
            && h'[c].inode == Some(inode)
  {
    hide IsTree, Find, Reached, PathOf, Resolve;
    AddSound(h, root, s, c, [], inode, d);
    AddReached(h, root, s, c, [], inode, d, d);
    AddPathOf(h, root, s, c, [], inode, d, d);
    AddFind(h, root, s, c, [], inode, d, d, []);
    var h', s' := Link(h, c, [], Some(inode), d), LinkShape(s, c, d);
    ResolvePathOf(h', root, s', d);
    var path := PathOf(h, root, s, d) + [SLASH];
    assert LastSlash(path) == |path| - 1;
    assert ParentPath(path) == PathOf(h, root, s, d) && BaseName(path) == [];
  }

  const D: byte := 100

  /** A directory record with the given name. */
  function DirectoryRecord(raw: Str): Cpio.Record {
    Cpio.Record(raw, Some(Initramfs.S_IFDIR), [], 0)
  }

  lemma Names()
    ensures Initramfs.Normalized([D]) == [D] && Initramfs.DirPart([D]) == [] && Initramfs.BasePart([D]) == [D]
    ensures Initramfs.Normalized([D, SLASH]) == [D, SLASH]
    ensures Initramfs.DirPart([D, SLASH]) == [D] && Initramfs.BasePart([D, SLASH]) == []
  {
    assert LastSlash([D, SLASH]) == 1;
    assert [D][..0] == [];
    assert LastSlash([D]) == -1;
  }

  /** The root has nothing under it, and the new directory `d` is found by its path. */
  lemma FirstDirectory(h: Heap, s: Shape, h': Heap, s': Shape, root: int, d: int)
    requires Initramfs.NewNode(root, Initramfs.Stage(h, s), root, [D], None, Initramfs.Stage(h', s'), d)
    requires h.Keys == {root} && Reached(h, root, s, root)
    ensures d != 0 && Sound(h', root, s') && d in h' && d != root && d in s'.kids && Reached(h', root, s', d)
    ensures PathOf(h', root, s', d) == [SLASH, D] && Resolve(h', s', root, [SLASH, D]) == At(d)
    ensures h'[d].inode.Some? && h'[d].inode.value.Directory? && Find(h', s'.kids[d], []) == 0
  {
    hide IsTree, Find, Reached, Resolve, PathOf;
    var ino: u32 :| h' == Link(h, d, [D], Some(Initramfs.NewInode(ino, None)), root);
    var inode := Initramfs.NewInode(ino, None);
    NoKids(h, root, s);
    AddedReached(h, root, s, d, [D], inode, root);
    PathOfRoot(h, root, s);
    assert Join([SLASH], [D]) == [SLASH, D];
    ResolvePathOf(h', root, s', d);
    FindNone(h', []);
  }

  lemma NoKids(h: Heap, root: int, s: Shape)
    requires Sound(h, root, s) && h.Keys == {root}
    ensures IsTree(h, root, s) && s.kids[root] == [] && Find(h, s.kids[root], [D]) == 0
  {
    assert Threaded(h, root, s.kids[root]);
    if s.kids[root] != [] {
      KidsOf(h, root, s, root, s.kids[root][0]);
    }
  }

  lemma FindNone(h: Heap, name: seq<byte>)
    ensures Find(h, [], name) == 0
  {
  }

  /** The tree that the records `d` and `d/` give: a directory with a nameless one in it. */
  method LoadNameless() returns (fs: FileSystem, ghost at: int)
    ensures fresh(fs) && fs.Valid() && !fs.scarce && Initramfs.OneEach(fs.h)
    ensures OpenTarget(fs.h, fs.s, fs.root, [SLASH, D, SLASH]) == At(at) && at != fs.root
    ensures at in fs.h && fs.h[at].name == [] && fs.h[at].inode.Some? && fs.h[at].inode.value.Directory?
  {
    hide Sound, IsTree, Find, Reached, Resolve, PathOf, Initramfs.OneEach, Initramfs.NewNode, OpenTarget;
    hide Initramfs.Normalized, Initramfs.DirPart, Initramfs.BasePart, Initramfs.Built, Initramfs.Fitting;
    fs := new FileSystem(1, false);
    OneRoot(fs.h, fs.root);
    Names();
    ghost var h0, s0 := fs.h, fs.s;
    ResolveRoot(h0, fs.root, s0);
    SoundRoot(h0, fs.root, s0);
    ReachedRootAgain(h0, fs.root, s0);
    assert [SLASH] + [] == [SLASH];
    assert Initramfs.Kind(DirectoryRecord([D])) == Initramfs.S_IFDIR;
    var counted; ghost var recs;
    counted, recs := Initramfs.LoadRecord(fs, [D], DirectoryRecord([D]), [], []);
    ghost var d := Initramfs.OneAdded(fs.root, Initramfs.Stage(h0, s0), DirectoryRecord([D]),
                                      Initramfs.Stage(fs.h, fs.s), counted, fs.root);
    ghost var h1, s1 := fs.h, fs.s;
    FirstDirectory(h0, s0, h1, s1, fs.root, d);
    assert [SLASH] + [D] == [SLASH, D];
    counted, recs := Initramfs.LoadRecord(fs, [D, SLASH], DirectoryRecord([D, SLASH]), [], []);
    at := Initramfs.OneAdded(fs.root, Initramfs.Stage(h1, s1), DirectoryRecord([D, SLASH]),
                             Initramfs.Stage(fs.h, fs.s), counted, d);
    SecondDirectory(h1, s1, fs.h, fs.s, fs.root, at, d);
  }

  lemma SecondDirectory(h: Heap, s: Shape, h': Heap, s': Shape, root: int, c: int, d: int)
    requires Initramfs.NewNode(root, Initramfs.Stage(h, s), d, [], None, Initramfs.Stage(h', s'), c)
    requires d in s.kids && Reached(h, root, s, d) && d != root && Find(h, s.kids[d], []) == 0
    requires PathOf(h, root, s, d) == [SLASH, D]
    ensures OpenTarget(h', s', root, [SLASH, D, SLASH]) == At(c) && c != root
    ensures c in h' && h'[c].name == [] && h'[c].inode.Some? && h'[c].inode.value.Directory?
  {
    hide IsTree, Find, Reached, Resolve, PathOf, OpenTarget;
    SoundRoot(h, root, s);
    var ino: u32 :| h' == Link(h, c, [], Some(Initramfs.NewInode(ino, None)), d);
    var inode := Initramfs.NewInode(ino, None);
    NamelessOpens(h, root, s, c, inode, d);
    assert [SLASH, D] + [SLASH] == [SLASH, D, SLASH];
  }

  /**
   The half of `sys_fchdir` that fails, on an input: a nameless directory that the loader
   makes of the records `d` and `d/` is opened as `/d/`, and changing to it succeeds and
   leaves a working directory that is not the path of that directory.
   */
  method FchdirGoesAstray() returns (process: Process, fd: int, result: int, ghost at: int)
    ensures process.Inv() && 0 <= fd < MAX_OPEN_FILES && result == 0
    ensures process.open[fd] in process.files && at == process.files[process.open[fd]].dentry
    ensures process.Names([SLASH, D, SLASH], at) && process.IsDirectory(process.open[fd])
    ensures Resolve(process.tree, process.fs.s, process.fs.root, process.cwd) != At(at)
  {
    hide Sound, IsTree, Find, Reached, Resolve, PathOf, OpenTarget, Accounts, Nameable, SameLinks, Initramfs.OneEach;
    var fs;
    ghost var there, found;
    fs, there := LoadNameless();
    OneMeans(fs.h);
    process := new Process(fs);
    var path: Str := [SLASH, D, SLASH];
    assert OpenFlags(0) == 0 && !Has(0, O_EXCL);
    SoundIsTree(process.tree, fs.root, fs.s);
    assert process.open[3] == 0 && process.Absolute(None, path) == path;
    assert process.Around().OpenatError(process.Now(), None, Some(path), 0) == 0;
    fd, found := process.SysOpenat(None, Some(path), 0);
    assert process.Names(path, found) && found == there;
    assert process.IsDirectory(process.open[fd]);
    AccountsNull(fs.h, process.files, process.open);
    result, at := process.SysFchdir(fd);
  }
}
