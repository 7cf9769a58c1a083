/** Loading a cpio archive into the in-memory file system. */
module Initramfs {
  import opened Bytes
  import opened Paths
  import opened DentryLists
  import opened Vfs
  import opened TreeGrowth
  import Cpio

  const S_IFDIR: nat := 0x4000
  const S_IFREG: nat := 0x8000

  /* ----- Names ----- */

  function StripDots(p: seq<byte>): (r: seq<byte>)
    ensures |r| <= |p|
  {
    if |p| >= 2 && p[0] == DOT && p[1] == SLASH then StripDots(p[2..]) else p
  }

  /** `normalize_path`: leading "./"s and one slash go, "." is the root, at most 255 bytes stay. */
  function Normalized(raw: seq<byte>): (r: seq<byte>)
    ensures |r| < NAME_SIZE
  {
    var p := StripDots(raw);
    var q := if p != [] && p[0] == SLASH then p[1..] else p;
    if q == [DOT] then [] else if |q| >= NAME_SIZE then q[..NAME_SIZE - 1] else q
  }

  lemma {:induction false} StripStr(p: Str)
    ensures 0 !in StripDots(p)
    decreases |p|
  {
    if |p| >= 2 && p[0] == DOT && p[1] == SLASH {
      assert forall x :: x in p[2..] ==> x in p;
      StripStr(p[2..]);
    }
  }

  /** The loop of `normalize_path`. */
  method SkipDots(raw: Str) returns (at: nat)
    ensures at <= |raw| && StripDots(raw) == raw[at..]
  {
    hide StripDots;
    at := 0;
    assert raw[0..] == raw;
    while at + 1 < |raw| && raw[at] == DOT && raw[at + 1] == SLASH
      invariant 0 <= at <= |raw| && StripDots(raw) == StripDots(raw[at..])
    {
      StripUnfold(raw[at..]);
      assert raw[at..][2..] == raw[at + 2..];
      at := at + 2;
    }
    StripUnfold(raw[at..]);
  }

  /** The cuts of `normalize_path`. */
  method NormalizePath(raw: Str) returns (name: Str)
    ensures name == Normalized(raw)
  {
    hide StripDots;
    var at := SkipDots(raw);
    var p := raw[at..];
    var q := if p != [] && p[0] == SLASH then p[1..] else p;
    SuffixOf(raw, at, q);
    if q == [DOT] {
      return [];
    }
    if |q| >= NAME_SIZE {
      return q[..NAME_SIZE - 1];
    }
    return q;
  }

  lemma SuffixOf(raw: Str, at: nat, q: seq<byte>)
    requires at <= |raw| && (q == raw[at..] || (at < |raw| && q == raw[at..][1..]))
    ensures 0 !in q && forall n :: 0 <= n <= |q| ==> 0 !in q[..n]
  {
    forall i | 0 <= i < |q|
      ensures q[i] != 0
    {
      assert q[i] in raw;
    }
  }

  lemma StripUnfold(p: seq<byte>)
    ensures StripDots(p) == if |p| >= 2 && p[0] == DOT && p[1] == SLASH then StripDots(p[2..]) else p
  {
  }

  /** `n` times "./". */
  function Dots(n: nat): seq<byte> {
    if n == 0 then [] else Ascii("./") + Dots(n - 1)
  }

  predicate StartsWith(s: seq<byte>, text: seq<byte>) {
    |text| <= |s| && s[..|text|] == text
  }

  lemma {:induction false} StripIs(p: seq<byte>) returns (n: nat)
    ensures p == Dots(n) + StripDots(p) && !StartsWith(StripDots(p), Ascii("./"))
    decreases |p|
  {
    hide StripDots;
    StripUnfold(p);
    var rest := StripDots(p);
    if |p| >= 2 && p[0] == DOT && p[1] == SLASH {
      n := StripIs(p[2..]);
      assert p == Ascii("./") + p[2..];
      assert Ascii("./") + Dots(n) + rest == Ascii("./") + (Dots(n) + rest);
      n := n + 1;
    } else {
      n := 0;
      assert Dots(0) + rest == rest;
      assert Ascii("./") == [DOT, SLASH];
    }
  }

  /**
   What a name in an archive stands for: any number of leading "./" and then one "/" are
   dropped, a single dot is the root, and of anything longer the first 255 bytes are kept.
   */
  lemma NormalizedIs(raw: seq<byte>) returns (n: nat, rest: seq<byte>, name: seq<byte>)
    ensures raw == Dots(n) + rest && !StartsWith(rest, Ascii("./"))
    ensures name == if rest != [] && rest[0] == '/' as int then rest[1..] else rest
    ensures Normalized(raw) == if name == Ascii(".") then [] else if |name| > 255 then name[..255] else name
  {
    hide StripDots;
    n := StripIs(raw);
    rest := StripDots(raw);
    name := if rest != [] && rest[0] == '/' as int then rest[1..] else rest;
    assert Ascii(".") == [DOT];
  }

  /** The directory part of a name, empty for one in the root. */
  function DirPart(name: seq<byte>): seq<byte> {
    if LastSlash(name) < 0 then [] else name[..LastSlash(name)]
  }

  function BasePart(name: seq<byte>): seq<byte> {
    name[LastSlash(name) + 1..]
  }

  /* ----- Creating ----- */

  function NewInode(ino: u32, data: Option<seq<byte>>): Inode {
    if data.None? then Directory(ino) else Regular(ino, data.value)
  }

  /** `create_dir` and `create_file`, under a parent on which the caller holds a reference. */
  method CreateNode(fs: FileSystem, parent: int, name: Str, data: Option<seq<byte>>, ghost hb: Heap) returns (c: int)
    requires Sound(hb, fs.root, fs.s) && parent in hb && fs.h == Bump(hb, parent, 1) && |name| < NAME_SIZE
    modifies fs`h, fs`s, fs`nextIno
    ensures c == 0 ==> fs.h == old(fs.h) && fs.s == old(fs.s) && (fs.scarce || !hb[parent].inode.value.Directory?)
    ensures c != 0 ==> CanAdd(hb, fs.root, old(fs.s), c, name, parent)
    ensures c != 0 ==> fs.h == Bump(Link(hb, c, name, Some(NewInode(old(fs.nextIno), data)), parent), parent, 1)
    ensures c != 0 ==> fs.s == LinkShape(old(fs.s), c, parent)
  {
    hide Sound, IsTree, Link, LinkShape;
    SoundAt(hb, fs.root, fs.s, parent);
    BumpTree(hb, fs.root, fs.s, parent);
    if !fs.h[parent].inode.value.Directory? {
      return 0;
    }
    var granted: bool := *;
    if fs.scarce && !granted {
      return 0;
    }
    var inode := NewInode(fs.nextIno, data);
    fs.nextIno := (fs.nextIno + 1) % U32;
    c := fs.DAlloc(name, Some(inode), parent);
    if c != 0 {
      LinkBump(hb, c, name, Some(inode), parent);
    }
  }

  /** Nothing but the tree itself holds a dentry. */
  ghost predicate OneEach(h: Heap) {
    forall p :: p in h ==> h[p].refs == 1
  }

  lemma LinkOne(h: Heap, c: int, name: Str, inode: Option<Inode>, up: int)
    requires up in h && OneEach(h)
    ensures OneEach(Link(h, c, name, inode, up))
  {
  }

  /** What was reached is still reached, by the same path. */
  ghost predicate KeepsPaths(h: Heap, s: Shape, h': Heap, s': Shape, root: int)
    requires Sound(h, root, s) && Sound(h', root, s')
  {
    forall q :: q in h && Reached(h, root, s, q) ==>
      q in h' && Reached(h', root, s', q) && PathOf(h', root, s', q) == PathOf(h, root, s, q)
  }

  lemma KeepsTrans(h: Heap, s: Shape, h1: Heap, s1: Shape, h2: Heap, s2: Shape, root: int)
    requires Sound(h, root, s) && Sound(h1, root, s1) && Sound(h2, root, s2)
    requires KeepsPaths(h, s, h1, s1, root) && KeepsPaths(h1, s1, h2, s2, root)
    ensures KeepsPaths(h, s, h2, s2, root)
  {
    hide Sound, Reached, PathOf;
  }

  lemma AddKeeps(h: Heap, root: int, s: Shape, c: int, name: Str, inode: Inode, up: int)
    requires CanAdd(h, root, s, c, name, up) && Find(h, s.kids[up], name) == 0
    ensures Sound(h, root, s) && Sound(Link(h, c, name, Some(inode), up), root, LinkShape(s, c, up))
    ensures KeepsPaths(h, s, Link(h, c, name, Some(inode), up), LinkShape(s, c, up), root)
  {
    hide Sound, Reached, PathOf, Find, LinkShape;
    AddSound(h, root, s, c, name, inode, up);
    SoundIsTree(h, root, s);
    SoundIsTree(Link(h, c, name, Some(inode), up), root, LinkShape(s, c, up));
    forall q | q in h && Reached(h, root, s, q)
      ensures q in Link(h, c, name, Some(inode), up)
      ensures Reached(Link(h, c, name, Some(inode), up), root, LinkShape(s, c, up), q)
      ensures PathOf(Link(h, c, name, Some(inode), up), root, LinkShape(s, c, up), q) == PathOf(h, root, s, q)
    {
      AddReached(h, root, s, c, name, inode, up, q);
      AddPathOf(h, root, s, c, name, inode, up, q);
    }
  }

  /** A child found by its proper name in something reached is reached. */
  lemma FoundReached(h: Heap, root: int, s: Shape, up: int, name: seq<byte>)
    requires Sound(h, root, s) && up in h && up in s.kids && Reached(h, root, s, up) && Proper(name)
    requires Find(h, s.kids[up], name) != 0
    ensures var c := Find(h, s.kids[up], name);
            c in h && Reached(h, root, s, c) && PathOf(h, root, s, c) == Join(PathOf(h, root, s, up), name)
  {
    hide Find, Reached, PathOf, Threaded;
    FindKid(h, root, s, up, name);
    DirectoryAbove(h, root, s, up, name);
    ReachedFrom(h, root, s, Find(h, s.kids[up], name));
    PathOfKid(h, root, s, Find(h, s.kids[up], name));
  }

  lemma DirectoryAbove(h: Heap, root: int, s: Shape, up: int, name: seq<byte>)
    requires Sound(h, root, s) && up in h && up in s.kids && Find(h, s.kids[up], name) != 0
    ensures h[up].inode.Some? && h[up].inode.value.Directory?
  {
    assert s.kids[up] != [];
  }

  /* ----- What a record does to any tree ----- */

  datatype Stage = Stage(h: Heap, s: Shape)

  ghost predicate DirectoryAt(t: Stage, p: int) {
    p in t.h && t.h[p].inode.Some? && t.h[p].inode.value.Directory?
  }

  /** A new node `c` under `up`: a file with the data, or a directory. */
  ghost predicate NewNode(root: int, t: Stage, up: int, name: seq<byte>, data: Option<seq<byte>>, t': Stage, c: int) {
    && 0 !in name && CanAdd(t.h, root, t.s, c, name, up)
    && exists ino: u32 :: t' == Stage(Link(t.h, c, name, Some(NewInode(ino, data)), up), LinkShape(t.s, c, up))
  }

  /** One name further down: the child of that name, or a new directory if there is none. */
  ghost predicate Down(root: int, t: Stage, from: int, name: seq<byte>, t': Stage, child: int) {
    && from in t.s.kids
    && var c := Find(t.h, t.s.kids[from], name);
    if c != 0 then t' == t && child == c else NewNode(root, t, from, name, None, t', child)
  }

  /** The names in a path, one for every slash and the end, but for an empty one at the end. */
  function Components(path: seq<byte>): (r: seq<seq<byte>>)
    decreases |path|
  {
    if path == [] then []
    else
      var n := ComponentLength(path);
      if n == |path| then [path] else [path[..n]] + Components(path[n + 1..])
  }

  /** From stage to stage and from dentry to dentry, one name at a time. */
  ghost predicate Ladder(root: int, stages: seq<Stage>, ats: seq<int>, names: seq<seq<byte>>) {
    && 0 < |stages| == |ats| <= |names| + 1
    && forall i :: 0 <= i < |ats| - 1 ==> Down(root, stages[i], ats[i], names[i], stages[i + 1], ats[i + 1])
  }

  /** The way down the whole path to `p`, or, with 0, as far as there was a directory and memory to go on. */
  ghost predicate Climbs(root: int, scarce: bool, t: Stage, path: seq<byte>, t': Stage, p: int,
                         stages: seq<Stage>, ats: seq<int>) {
    && Ladder(root, stages, ats, Components(path))
    && stages[0] == t && ats[0] == root && stages[|ats| - 1] == t'
    && if p != 0 then |ats| == |Components(path)| + 1 && p == ats[|ats| - 1]
       else |ats| <= |Components(path)| && (scarce || !DirectoryAt(t', ats[|ats| - 1]))
  }

  /** The directory a name belongs in: the one its path leads to, or else one with all that was missing above it. */
  ghost predicate ParentMade(root: int, scarce: bool, t: Stage, name: seq<byte>, t': Stage, p: int) {
    var w := Resolve(t.h, t.s, root, [SLASH] + DirPart(name));
    if w.At? then p == w.p && t' == t
    else exists stages: seq<Stage>, ats: seq<int> :: Climbs(root, scarce, t, DirPart(name), t', p, stages, ats)
  }

  function DataOf(r: Cpio.Record): Option<seq<byte>> {
    if Kind(r) == S_IFDIR then None else Some(r.data)
  }

  /** The node a record asks for under `p`, if it is a directory and the record's type is one of the two supported. */
  ghost predicate NodeMade(root: int, scarce: bool, t: Stage, p: int, r: Cpio.Record, t': Stage, counted: bool) {
    if counted then
      && p != 0 && Kind(r) in {S_IFDIR, S_IFREG}
      && exists c: int :: NewNode(root, t, p, BasePart(NameOf(r)), DataOf(r), t', c)
    else t' == t && (p == 0 || Kind(r) !in {S_IFDIR, S_IFREG} || scarce || !DirectoryAt(t, p))
  }

  /** What a named record does, counted or not. */
  ghost predicate RecordDone(root: int, scarce: bool, t: Stage, r: Cpio.Record, t': Stage, counted: bool) {
    exists mid: Stage, p: int ::
      ParentMade(root, scarce, t, NameOf(r), mid, p) && NodeMade(root, scarce, mid, p, r, t', counted)
  }

  /**
   What the mode of a record decides. Counted are records of type 4, a directory, and 8, a
   file with the record's data, under a directory; and all of those, if memory is not short.
   */
  lemma RecordMeans(root: int, scarce: bool, t: Stage, r: Cpio.Record, t': Stage, counted: bool)
    requires RecordDone(root, scarce, t, r, t', counted) && r.mode.Some?
    ensures var kind := r.mode.value / 0x1000 % 16;
            counted ==>
              && kind in {4, 8}
              && exists c :: c !in t.h && c in t'.h && t'.h[c].inode.Some? && t'.h[c].name == BasePart(NameOf(r)) &&
                   if kind == 4 then t'.h[c].inode.value.Directory?
                   else t'.h[c].inode.value.Regular? && t'.h[c].inode.value.data == r.data
    ensures r.mode.value / 0x1000 % 16 !in {4, 8} ==> !counted
    ensures !counted && !scarce && r.mode.value / 0x1000 % 16 in {4, 8} ==>
              exists p: int :: ParentMade(root, scarce, t, NameOf(r), t', p) && (p == 0 || !DirectoryAt(t', p))
  {
    hide ParentMade, Normalized, LastSlash, NewNode, Kind, DirectoryAt;
    KindIs(r);
    var mid: Stage, p: int :|
      ParentMade(root, scarce, t, NameOf(r), mid, p) && NodeMade(root, scarce, mid, p, r, t', counted);
    if counted {
      var c: int :| NewNode(root, mid, p, BasePart(NameOf(r)), DataOf(r), t', c);
      NewNodeIs(root, mid, p, BasePart(NameOf(r)), DataOf(r), t', c);
      ParentKeeps(root, scarce, t, NameOf(r), mid, p);
    }
  }

  lemma KindIs(r: Cpio.Record)
    requires r.mode.Some?
    ensures Kind(r) == S_IFDIR <==> r.mode.value / 0x1000 % 16 == 4
    ensures Kind(r) == S_IFREG <==> r.mode.value / 0x1000 % 16 == 8
  {
  }

  lemma NewNodeIs(root: int, t: Stage, up: int, name: seq<byte>, data: Option<seq<byte>>, t': Stage, c: int)
    requires NewNode(root, t, up, name, data, t', c)
    ensures c !in t.h && c in t'.h && t'.h[c].name == name && t'.h[c].inode.Some?
    ensures if data.None? then t'.h[c].inode.value.Directory?
            else t'.h[c].inode.value.Regular? && t'.h[c].inode.value.data == data.value
  {
    hide Sound;
  }

  lemma {:induction false} LadderGrows(root: int, stages: seq<Stage>, ats: seq<int>, names: seq<seq<byte>>, k: nat)
    requires Ladder(root, stages, ats, names) && k < |stages|
    ensures stages[0].h.Keys <= stages[k].h.Keys
    decreases k
  {
    hide CanAdd;
    if k > 0 {
      LadderGrows(root, stages, ats, names, k - 1);
      assert Down(root, stages[k - 1], ats[k - 1], names[k - 1], stages[k], ats[k]);
      DownGrows(root, stages[k - 1], ats[k - 1], names[k - 1], stages[k], ats[k]);
    }
  }

  lemma DownGrows(root: int, t: Stage, from: int, name: seq<byte>, t': Stage, child: int)
    requires Down(root, t, from, name, t', child)
    ensures t.h.Keys <= t'.h.Keys
  {
    hide Find, Sound;
  }

  lemma ParentKeeps(root: int, scarce: bool, t: Stage, name: seq<byte>, t': Stage, p: int)
    requires ParentMade(root, scarce, t, name, t', p)
    ensures t.h.Keys <= t'.h.Keys
  {
    hide Resolve, Ladder, Components;
    var path := DirPart(name);
    if Resolve(t.h, t.s, root, [SLASH] + path).Failed? {
      var stages: seq<Stage>, ats: seq<int> :| Climbs(root, scarce, t, path, t', p, stages, ats);
      LadderEnds(root, stages, ats, Components(path));
      LadderGrows(root, stages, ats, Components(path), |ats| - 1);
    }
  }

  lemma LadderEnds(root: int, stages: seq<Stage>, ats: seq<int>, names: seq<seq<byte>>)
    requires Ladder(root, stages, ats, names)
    ensures 0 < |stages| == |ats|
  {
  }

  lemma LadderMore(root: int, stages: seq<Stage>, ats: seq<int>, names: seq<seq<byte>>, t: Stage, p: int)
    requires Ladder(root, stages, ats, names) && |ats| <= |names|
    requires Down(root, stages[|ats| - 1], ats[|ats| - 1], names[|ats| - 1], t, p)
    ensures Ladder(root, stages + [t], ats + [p], names)
  {
    hide Down;
  }

  lemma LadderStart(root: int, t: Stage, p: int, names: seq<seq<byte>>)
    ensures Ladder(root, [t], [p], names)
  {
  }

  lemma NoComponents()
    ensures Components([]) == []
  {
  }

  lemma ComponentsAre(path: seq<byte>)
    requires path != []
    ensures var n := ComponentLength(path);
            && n <= |path| && (n == |path| ==> Components(path) == [path])
            && (n < |path| ==> Components(path) == [path[..n]] + Components(path[n + 1..]))
  {
    hide ComponentLength;
  }

  /** One missing or present directory on the way down; the walk's reference moves along. */
  method Descend(fs: FileSystem, current: int, name: Str, ghost hb: Heap) returns (child: int, ghost hb': Heap)
    requires Sound(hb, fs.root, fs.s) && current in hb && fs.h == Bump(hb, current, 1) && |name| < NAME_SIZE
    modifies fs`h, fs`s, fs`nextIno
    ensures Sound(hb', fs.root, fs.s) && KeepsPaths(hb, old(fs.s), hb', fs.s, fs.root)
    ensures OneEach(hb) ==> OneEach(hb')
    ensures child == 0 ==> fs.h == hb' && (fs.scarce || !hb[current].inode.value.Directory?)
    ensures child == 0 ==> hb' == hb && fs.s == old(fs.s)
    ensures child != 0 ==> child in hb' && fs.h == Bump(hb', child, 1)
    ensures child != 0 ==> Down(fs.root, Stage(hb, old(fs.s)), current, name, Stage(hb', fs.s), child)
    ensures child != 0 && Reached(hb, fs.root, old(fs.s), current) && Proper(name) ==>
              Reached(hb', fs.root, fs.s, child)
              && PathOf(hb', fs.root, fs.s, child) == Join(PathOf(hb, fs.root, old(fs.s), current), name)
  {
    hide Sound, IsTree, Find, Link, LinkShape, Reached, PathOf, Proper, KeepsPaths, Join, OneEach;
    SoundAt(hb, fs.root, fs.s, current);
    BumpTree(hb, fs.root, fs.s, current);
    child := fs.DLookup(current, name);
    hb' := hb;
    FindSame(hb, fs.h, fs.s.kids[current], name);
    FindKid(hb, fs.root, fs.s, current, name);
    KeepsSame(hb, fs.s, fs.root);
    if child != 0 {
      if Reached(hb, fs.root, fs.s, current) && Proper(name) {
        FoundReached(hb, fs.root, fs.s, current, name);
      }
      fs.MoveReference(current, child, hb);
      return;
    }
    ghost var ino, s0 := fs.nextIno, fs.s;
    var c := CreateNode(fs, current, name, None, hb);
    if c == 0 {
      fs.DropReference(current, hb);
      return 0, hb;
    }
    hb' := Link(hb, c, name, Some(NewInode(ino, None)), current);
    AddSound(hb, fs.root, s0, c, name, NewInode(ino, None), current);
    AddKeeps(hb, fs.root, s0, c, name, NewInode(ino, None), current);
    if OneEach(hb) {
      LinkOne(hb, c, name, Some(NewInode(ino, None)), current);
    }
    if Reached(hb, fs.root, s0, current) && Proper(name) {
      AddedReached(hb, fs.root, s0, c, name, NewInode(ino, None), current);
    }
    LinkKeeps(hb, c, name, Some(NewInode(ino, None)), current);
    BumpTree(hb', fs.root, fs.s, current);
    child := fs.DLookup(current, name);
    FindSame(hb', fs.h, fs.s.kids[current], name);
    AddFind(hb, fs.root, s0, c, name, NewInode(ino, None), current, current, name);
    fs.MoveReference(current, child, hb');
  }

  lemma KeepsSame(h: Heap, s: Shape, root: int)
    requires Sound(h, root, s)
    ensures KeepsPaths(h, s, h, s, root)
  {
    hide Sound, Reached, PathOf;
  }

  lemma LinkKeeps(h: Heap, c: int, name: Str, inode: Option<Inode>, up: int)
    requires up in h
    ensures up in Link(h, c, name, inode, up) && c in Link(h, c, name, inode, up)
  {
  }

  /** Names separated by single slashes, each of which a path can carry. */
  predicate ProperParts(rest: seq<byte>)
    decreases |rest|
  {
    var n := ComponentLength(rest);
    rest != [] && Proper(rest[..n]) && (n == |rest| || ProperParts(rest[n + 1..]))
  }

  /** Going down by the first name leaves the path to go the same. */
  lemma DownOne(path: seq<byte>, rest: seq<byte>)
    requires ProperParts(rest) && path != []
    ensures var n := ComponentLength(rest);
            && |Join(path, rest[..n])| > 1
            && (n == |rest| ==> Join(path, rest) == Join(path, rest[..n]))
            && (n < |rest| ==> Join(Join(path, rest[..n]), rest[n + 1..]) == Join(path, rest))
  {
    var n := ComponentLength(rest);
    ComponentFacts(rest);
    if n < |rest| {
      assert rest == rest[..n] + [SLASH] + rest[n + 1..];
    }
  }

  /**
   `ensure_parent_dir`: the directory a name belongs in, with one reference. If the walk
   finds it nothing else changes; otherwise missing directories are created on the way, and
   the directory's path then leads to what is returned.
   */
  method EnsureParentDir(fs: FileSystem, path: Str) returns (p: int, ghost hb: Heap)
    requires fs.Valid()
    modifies fs`h, fs`s, fs`nextIno
    ensures Sound(hb, fs.root, fs.s)
    ensures p == 0 ==> fs.h == hb
    ensures p != 0 ==> p in hb && fs.h == Bump(hb, p, 1)
    ensures 0 < |path| < NAME_SIZE && Resolve(old(fs.h), old(fs.s), fs.root, [SLASH] + DirPart(path)).At? ==>
              p == Resolve(old(fs.h), old(fs.s), fs.root, [SLASH] + DirPart(path)).p
              && p != 0 && hb == old(fs.h) && fs.s == old(fs.s)
    ensures KeepsPaths(old(fs.h), old(fs.s), hb, fs.s, fs.root) && (OneEach(old(fs.h)) ==> OneEach(hb))
    ensures p != 0 && (DirPart(path) == [] || ProperParts(DirPart(path))) ==>
            Resolve(hb, fs.s, fs.root, [SLASH] + DirPart(path)) == At(p)
    ensures 0 < |path| < NAME_SIZE ==>
              ParentMade(fs.root, fs.scarce, Stage(old(fs.h), old(fs.s)), path, Stage(hb, fs.s), p)
  {
    hide Climbs, DirectoryAt;
    hide Sound, IsTree, Resolve, LastSlash, Find, Link, LinkShape, Reached, PathOf, Join, ProperParts, KeepsPaths,
         ComponentLength, Proper, OneEach;
    hb := fs.h;
    KeepsSame(hb, fs.s, fs.root);
    if path == [] || |path| >= NAME_SIZE {
      return 0, hb;
    }
    assert DirPart(path) == [] || forall x :: x in DirPart(path) ==> x in path;
    ResolveRoot(fs.h, fs.root, fs.s);
    if LastSlash(path) < 0 {
      assert [SLASH] + DirPart(path) == [SLASH];
      var w := fs.PathWalk([SLASH]);
      SoundAt(hb, fs.root, fs.s, w.p);
      return w.p, hb;
    }
    assert DirPart(path) == [] ==> [SLASH] + DirPart(path) == [SLASH];
    var w := fs.PathWalk([SLASH] + DirPart(path));
    if w.At? {
      SoundAt(hb, fs.root, fs.s, w.p);
      return w.p, hb;
    }
    w := fs.PathWalk([SLASH]);
    SoundAt(hb, fs.root, fs.s, w.p);
    ghost var stages, ats;
    p, hb, stages, ats := MakeDirs(fs, w.p, DirPart(path), hb);
  }

  /** The loop over the names of a directory's path, from the root down. */
  method MakeDirs(fs: FileSystem, start: int, path: Str, ghost h0: Heap)
    returns (p: int, ghost hb: Heap, ghost stages: seq<Stage>, ghost ats: seq<int>)
    requires Sound(h0, fs.root, fs.s) && start == fs.root && start in h0
    requires start != 0 && fs.h == Bump(h0, start, 1) && |path| < NAME_SIZE
    modifies fs`h, fs`s, fs`nextIno
    ensures Sound(hb, fs.root, fs.s) && KeepsPaths(h0, old(fs.s), hb, fs.s, fs.root)
    ensures OneEach(h0) ==> OneEach(hb)
    ensures p == 0 ==> fs.h == hb
    ensures p != 0 ==> p in hb && fs.h == Bump(hb, p, 1)
    ensures p != 0 && ProperParts(path) ==> Resolve(hb, fs.s, fs.root, [SLASH] + path) == At(p)
    ensures Climbs(fs.root, fs.scarce, Stage(h0, old(fs.s)), path, Stage(hb, fs.s), p, stages, ats)
  {
    hide Down, Components, Ladder;
    hide Sound, IsTree, Resolve, Find, Link, LinkShape, Reached, PathOf, Join, ProperParts, KeepsPaths,
         ComponentLength, Proper, OneEach;
    p, hb, stages, ats := start, h0, [Stage(h0, fs.s)], [start];
    var rest, more := path, true;
    LadderStart(fs.root, Stage(h0, fs.s), start, Components(path));
    assert Components(path)[0..] == Components(rest);
    ghost var s0, good := fs.s, ProperParts(path);
    SoundIsTree(hb, fs.root, fs.s);
    KeepsSame(hb, fs.s, fs.root);
    ReachedRootAgain(hb, fs.root, fs.s);
    PathOfRoot(hb, fs.root, fs.s);
    JoinRoot(rest);
    while more && rest != []
      invariant Sound(hb, fs.root, fs.s) && IsTree(hb, fs.root, fs.s) && p in hb && p != 0 && fs.h == Bump(hb, p, 1)
      invariant 0 !in rest && |rest| < NAME_SIZE && KeepsPaths(h0, s0, hb, fs.s, fs.root)
      invariant OneEach(h0) ==> OneEach(hb)
      invariant Ladder(fs.root, stages, ats, Components(path)) && 0 < |stages| == |ats| <= |Components(path)| + 1
      invariant stages[0] == Stage(h0, s0)
      invariant ats[0] == start && stages[|ats| - 1] == Stage(hb, fs.s) && ats[|ats| - 1] == p
      invariant Components(path)[|ats| - 1..] == if more then Components(rest) else []
      invariant good ==> Reached(hb, fs.root, fs.s, p)
      invariant good && more ==> ProperParts(rest) && Join(PathOf(hb, fs.root, fs.s, p), rest) == [SLASH] + path
      invariant good && !more ==> PathOf(hb, fs.root, fs.s, p) == [SLASH] + path
      decreases |rest|, more
    {
      var n := NameLength(rest);
      assert forall x :: x in rest[..n] ==> x in rest;
      if good {
        DownOne(PathOf(hb, fs.root, fs.s, p), rest);
        PartsUnfold(rest);
      }
      ghost var h1, s1 := hb, fs.s;
      ComponentsAre(rest);
      assert Components(path)[|ats| - 1] == rest[..n];
      p, hb := Descend(fs, p, rest[..n], hb);
      KeepsTrans(h0, s0, h1, s1, hb, fs.s, fs.root);
      if p == 0 {
        return;
      }
      LadderMore(fs.root, stages, ats, Components(path), Stage(hb, fs.s), p);
      stages, ats := stages + [Stage(hb, fs.s)], ats + [p];
      assert Components(path)[|ats| - 1..] == Components(path)[|ats| - 2..][1..];
      SoundIsTree(hb, fs.root, fs.s);
      if n < |rest| {
        assert forall x :: x in rest[n + 1..] ==> x in rest;
        rest := rest[n + 1..];
      } else {
        more := false;
      }
    }
    NoComponents();
    if good {
      if more {
        PartsUnfold(rest);
      }
      ResolvePathOf(hb, fs.root, fs.s, p);
    }
  }

  /** The search for the next slash. */
  method NameLength(rest: seq<byte>) returns (n: nat)
    ensures n == ComponentLength(rest) <= |rest|
  {
    ComponentFacts(rest);
    n := 0;
    while n < |rest| && rest[n] != SLASH
      invariant 0 <= n <= ComponentLength(rest)
    {
      n := n + 1;
    }
  }

  lemma PartsUnfold(rest: seq<byte>)
    requires ProperParts(rest)
    ensures var n := ComponentLength(rest);
            n <= |rest| && rest != [] && Proper(rest[..n])
            && (n == |rest| || (ProperParts(rest[n + 1..]) && rest[n + 1..] != []))
  {
    hide ComponentLength, Proper;
    ComponentFacts(rest);
  }

  lemma JoinRoot(rest: seq<byte>)
    ensures Join([SLASH], rest) == [SLASH] + rest
  {
  }

  /* ----- What a well-formed archive builds ----- */

  function Kind(r: Cpio.Record): nat {
    if r.mode.None? then 0 else r.mode.value / 0x1000 % 0x10 * 0x1000
  }

  function NameOf(r: Cpio.Record): seq<byte> {
    Normalized(r.raw)
  }

  /** The dentry holds the directory or the data of the record. */
  predicate Matches(inode: Option<Inode>, r: Cpio.Record) {
    && inode.Some?
    && (Kind(r) == S_IFDIR ==> inode.value.Directory?)
    && (Kind(r) == S_IFREG ==> inode.value.Regular? && inode.value.data == r.data)
  }

  /** The name is new, ends in a proper component, and its directory came before it. */
  predicate Fitting(recs: seq<Cpio.Record>, k: nat)
    requires k < |recs|
  {
    var name := NameOf(recs[k]);
    name == [] ||
    (&& Kind(recs[k]) in {S_IFDIR, S_IFREG}
     && Proper(BasePart(name))
     && (LastSlash(name) < 0 || exists j :: 0 <= j < k && IsDirectory(recs[j], DirPart(name)))
     && forall j :: 0 <= j < k ==> NameOf(recs[j]) != name)
  }

  predicate IsDirectory(r: Cpio.Record, name: seq<byte>) {
    NameOf(r) == name && name != [] && Kind(r) == S_IFDIR
  }

  predicate WellFormed(recs: seq<Cpio.Record>) {
    forall k :: 0 <= k < |recs| ==> Fitting(recs, k)
  }

  function NamedCount(recs: seq<Cpio.Record>): nat {
    if recs == [] then 0 else NamedCount(recs[..|recs| - 1]) + if NameOf(recs[|recs| - 1]) == [] then 0 else 1
  }

  /** The dentry of one record. */
  ghost predicate PlacedRecord(h: Heap, root: int, s: Shape, r: Cpio.Record, p: int)
    requires Sound(h, root, s)
  {
    p in h &&
    if NameOf(r) == [] then p == root
    else p != root && Reached(h, root, s, p) && PathOf(h, root, s, p) == [SLASH] + NameOf(r) && Matches(h[p].inode, r)
  }

  /** The tree is the root and one dentry for each named record. */
  ghost predicate Built(h: Heap, root: int, s: Shape, recs: seq<Cpio.Record>, at: seq<int>) {
    && Sound(h, root, s) && |at| == |recs|
    && (forall i :: 0 <= i < |at| ==> PlacedRecord(h, root, s, recs[i], at[i]))
    && (forall p :: p in h && p != root ==> exists i :: 0 <= i < |at| && at[i] == p)
  }

  lemma SplitName(name: seq<byte>)
    ensures LastSlash(name) < 0 ==> BasePart(name) == name
    ensures LastSlash(name) >= 0 ==> name == DirPart(name) + [SLASH] + BasePart(name)
  {
  }

  /** The directory of the next record stands in the tree, where its path leads. */
  lemma ParentFound(h: Heap, root: int, s: Shape, recs: seq<Cpio.Record>, at: seq<int>, r: Cpio.Record)
    returns (up: int)
    requires Built(h, root, s, recs, at) && Fitting(recs + [r], |recs|) && NameOf(r) != []
    ensures up in h && up in s.kids && up in s.depth && Reached(h, root, s, up) && h[up].inode.value.Directory?
    ensures Resolve(h, s, root, [SLASH] + DirPart(NameOf(r))) == At(up)
    ensures Join(PathOf(h, root, s, up), BasePart(NameOf(r))) == [SLASH] + NameOf(r)
  {
    hide Resolve, PathOf, Reached, IsTree, LastSlash, Normalized, Proper, Find;
    var name, all := NameOf(r), recs + [r];
    TreeRoot(h, root, s);
    SplitName(name);
    if LastSlash(name) < 0 {
      up := root;
      ResolveRoot(h, root, s);
      ReachedRootAgain(h, root, s);
      assert [SLASH] + DirPart(name) == [SLASH];
      assert [SLASH] + [] + name == [SLASH] + name;
    } else {
      var j :| 0 <= j < |recs| && IsDirectory(all[j], DirPart(name));
      up := at[j];
      assert PlacedRecord(h, root, s, recs[j], up);
      ResolvePathOf(h, root, s, up);
      assert [SLASH] + DirPart(name) + [SLASH] + BasePart(name) == [SLASH] + (DirPart(name) + [SLASH] + BasePart(name));
    }
  }

  /** Its own name is not taken there yet. */
  lemma NameFree(h: Heap, root: int, s: Shape, recs: seq<Cpio.Record>, at: seq<int>, r: Cpio.Record, up: int)
    requires Built(h, root, s, recs, at) && Fitting(recs + [r], |recs|) && NameOf(r) != []
    requires up in h && up in s.kids && Join(PathOf(h, root, s, up), BasePart(NameOf(r))) == [SLASH] + NameOf(r)
    ensures Find(h, s.kids[up], BasePart(NameOf(r))) == 0
  {
    hide Find, PathOf, Reached, IsTree, LastSlash;
    var name, all := NameOf(r), recs + [r];
    FindKid(h, root, s, up, BasePart(name));
    var q := Find(h, s.kids[up], BasePart(name));
    if q != 0 {
      PathOfKid(h, root, s, q);
      var i :| 0 <= i < |at| && at[i] == q;
      assert PlacedRecord(h, root, s, recs[i], q);
      assert ([SLASH] + name)[1..] == name && ([SLASH] + NameOf(recs[i]))[1..] == NameOf(recs[i]);
      NotSameName(all, |recs|, i);
    }
  }

  lemma NotSameName(all: seq<Cpio.Record>, k: nat, i: nat)
    requires k < |all| && i < k && Fitting(all, k) && NameOf(all[k]) != []
    ensures NameOf(all[i]) != NameOf(all[k])
  {
    hide LastSlash;
  }

  lemma PlacedStays(h: Heap, root: int, s: Shape, c: int, name: Str, inode: Inode, up: int, r: Cpio.Record, p: int)
    requires CanAdd(h, root, s, c, name, up) && Find(h, s.kids[up], name) == 0 && PlacedRecord(h, root, s, r, p)
    ensures Sound(Link(h, c, name, Some(inode), up), root, LinkShape(s, c, up))
    ensures PlacedRecord(Link(h, c, name, Some(inode), up), root, LinkShape(s, c, up), r, p)
  {
    hide Find, PathOf, Reached, IsTree, Normalized, Sound;
    AddSound(h, root, s, c, name, inode, up);
    if NameOf(r) != [] {
      AddReached(h, root, s, c, name, inode, up, p);
    }
    AddPathOf(h, root, s, c, name, inode, up, p);
  }

  /** Adding the next record's dentry extends what is built by exactly that record. */
  lemma BuiltAdd(h: Heap, root: int, s: Shape, recs: seq<Cpio.Record>, at: seq<int>, r: Cpio.Record, up: int, c: int,
                 name: Str, inode: Inode)
    requires Built(h, root, s, recs, at) && CanAdd(h, root, s, c, name, up) && Reached(h, root, s, up)
    requires Find(h, s.kids[up], name) == 0 && Proper(name) && NameOf(r) != []
    requires Join(PathOf(h, root, s, up), name) == [SLASH] + NameOf(r) && Matches(Some(inode), r)
    ensures Built(Link(h, c, name, Some(inode), up), root, LinkShape(s, c, up), recs + [r], at + [c])
  {
    hide Find, PathOf, Reached, IsTree, Normalized, PlacedRecord, Sound, Proper, Matches;
    var h', s' := Link(h, c, name, Some(inode), up), LinkShape(s, c, up);
    AddSound(h, root, s, c, name, inode, up);
    var more, recs' := at + [c], recs + [r];
    forall i | 0 <= i < |more|
      ensures PlacedRecord(h', root, s', recs'[i], more[i])
    {
      if i < |at| {
        assert recs'[i] == recs[i] && more[i] == at[i];
        PlacedStays(h, root, s, c, name, inode, up, recs[i], at[i]);
      } else {
        AddedPlaced(h, root, s, r, up, c, name, inode);
      }
    }
    forall p | p in h' && p != root
      ensures exists i :: 0 <= i < |more| && more[i] == p
    {
      if p == c {
        assert more[|at|] == p;
      } else {
        assert p in h;
        var i :| 0 <= i < |at| && at[i] == p;
        assert more[i] == p;
      }
    }
  }

  lemma AddedPlaced(h: Heap, root: int, s: Shape, r: Cpio.Record, up: int, c: int, name: Str, inode: Inode)
    requires CanAdd(h, root, s, c, name, up) && Reached(h, root, s, up)
    requires Find(h, s.kids[up], name) == 0 && Proper(name) && NameOf(r) != []
    requires Join(PathOf(h, root, s, up), name) == [SLASH] + NameOf(r) && Matches(Some(inode), r)
    ensures Sound(Link(h, c, name, Some(inode), up), root, LinkShape(s, c, up))
    ensures PlacedRecord(Link(h, c, name, Some(inode), up), root, LinkShape(s, c, up), r, c)
  {
    hide Find, PathOf, Reached, IsTree, Normalized, Proper, Matches;
    TreeRoot(h, root, s);
    AddedReached(h, root, s, c, name, inode, up);
  }

  lemma BuiltSkip(h: Heap, root: int, s: Shape, recs: seq<Cpio.Record>, at: seq<int>, r: Cpio.Record)
    requires Built(h, root, s, recs, at) && NameOf(r) == []
    ensures Built(h, root, s, recs + [r], at + [root])
  {
    hide PathOf, Reached, Normalized;
    var more, recs' := at + [root], recs + [r];
    forall i | 0 <= i < |more|
      ensures PlacedRecord(h, root, s, recs'[i], more[i])
    {
      if i < |at| {
        assert recs'[i] == recs[i] && more[i] == at[i];
        assert PlacedRecord(h, root, s, recs[i], at[i]);
      }
    }
    forall p | p in h && p != root
      ensures exists i :: 0 <= i < |more| && more[i] == p
    {
      var i :| 0 <= i < |at| && at[i] == p;
      assert more[i] == p;
    }
  }

  /** The node for a record under the directory found for it, whose reference is given back. */
  method PlaceNode(fs: FileSystem, parent: int, name: Str, r: Cpio.Record, ghost hb: Heap) returns (c: int)
    requires Sound(hb, fs.root, fs.s) && parent in hb && fs.h == Bump(hb, parent, 1) && |name| < NAME_SIZE
    modifies fs`h, fs`s, fs`nextIno
    ensures fs.Valid() && (OneEach(hb) ==> OneEach(fs.h))
    ensures c == 0 ==> fs.h == hb && fs.s == old(fs.s)
    ensures c == 0 ==>
              Kind(r) !in {S_IFDIR, S_IFREG} || fs.scarce || !DirectoryAt(Stage(hb, old(fs.s)), parent)
    ensures c != 0 ==> Kind(r) in {S_IFDIR, S_IFREG}
    ensures c != 0 ==>
              NewNode(fs.root, Stage(hb, old(fs.s)), parent, BasePart(name), DataOf(r), Stage(fs.h, fs.s), c)
  {
    hide Find, IsTree, Sound, Link, LinkShape, LastSlash, OneEach, NewNode, CanAdd, Kind;
    assert forall x :: x in BasePart(name) ==> x in name;
    if Kind(r) == S_IFDIR || Kind(r) == S_IFREG {
      var data := if Kind(r) == S_IFDIR then None else Some(r.data);
      ghost var ino, s0 := fs.nextIno, fs.s;
      c := CreateNode(fs, parent, BasePart(name), data, hb);
      if c != 0 {
        ghost var inode := NewInode(ino, data);
        AddSound(hb, fs.root, s0, c, BasePart(name), inode, parent);
        LinkKeeps(hb, c, BasePart(name), Some(inode), parent);
        if OneEach(hb) {
          LinkOne(hb, c, BasePart(name), Some(inode), parent);
        }
        fs.DropReference(parent, Link(hb, c, BasePart(name), Some(inode), parent));
        IsNewNode(fs.root, Stage(hb, s0), parent, BasePart(name), data, ino, c);
        return;
      }
    }
    fs.DropReference(parent, hb);
    return 0;
  }

  /** One turn of the loader's loop: the node for one record, in the directory it names. */
  method LoadRecord(fs: FileSystem, name: Str, r: Cpio.Record, ghost recs: seq<Cpio.Record>, ghost at: seq<int>)
    returns (counted: bool, ghost at': seq<int>)
    requires fs.Valid() && name == NameOf(r) && name != [] && r.mode.Some?
    modifies fs`h, fs`s, fs`nextIno
    ensures fs.Valid() && (OneEach(old(fs.h)) ==> OneEach(fs.h))
    ensures RecordDone(fs.root, fs.scarce, Stage(old(fs.h), old(fs.s)), r, Stage(fs.h, fs.s), counted)
    ensures !fs.scarce && Built(old(fs.h), fs.root, old(fs.s), recs, at) && Fitting(recs + [r], |recs|) ==>
              counted && Built(fs.h, fs.root, fs.s, recs + [r], at')
  {
    hide Find, PathOf, Reached, IsTree, Sound, Built, Fitting, Resolve, Link, LinkShape, LastSlash, Matches,
         Normalized, OneEach, KeepsPaths, ProperParts, CanAdd, DirPart, BasePart, Kind;
    hide ParentMade, NewNode, DirectoryAt, NodeMade, RecordDone;
    at' := at;
    ghost var good := !fs.scarce && Built(fs.h, fs.root, fs.s, recs, at) && Fitting(recs + [r], |recs|);
    ghost var up := 0;
    if good {
      up := ParentFound(fs.h, fs.root, fs.s, recs, at, r);
      FittingBase(recs, r);
    }
    NormalizedBound(r.raw);
    var parent; ghost var hb;
    parent, hb := EnsureParentDir(fs, name);
    ghost var t, mid := Stage(old(fs.h), old(fs.s)), Stage(hb, fs.s);
    if parent == 0 {
      DoneNothing(fs.root, fs.scarce, t, r, mid, parent);
      return false, at';
    }
    SoundAt(hb, fs.root, fs.s, parent);
    var c := PlaceNode(fs, parent, name, r, hb);
    counted := c != 0;
    if c != 0 {
      DoneNode(fs.root, fs.scarce, t, r, mid, parent, Stage(fs.h, fs.s), c);
      if good {
        NodeBuilt(mid, fs.root, recs, at, r, parent, Stage(fs.h, fs.s), c);
        at' := at + [c];
      }
    } else {
      DoneNothing(fs.root, fs.scarce, t, r, mid, parent);
      if good {
        ParentIsDirectory(mid, parent);
      }
    }
  }

  /** Where the directory of a record is there already, its node is all that is added. */
  lemma OneAdded(root: int, t: Stage, r: Cpio.Record, t': Stage, counted: bool, p: int) returns (c: int)
    requires RecordDone(root, false, t, r, t', counted) && Kind(r) in {S_IFDIR, S_IFREG}
    requires Resolve(t.h, t.s, root, [SLASH] + DirPart(NameOf(r))) == At(p) && p != 0 && DirectoryAt(t, p)
    ensures counted && NewNode(root, t, p, BasePart(NameOf(r)), DataOf(r), t', c)
  {
    hide NewNode, DirectoryAt, Climbs, Resolve, Kind, DirPart, BasePart;
    var mid: Stage, q: int :|
      ParentMade(root, false, t, NameOf(r), mid, q) && NodeMade(root, false, mid, q, r, t', counted);
    c :| NewNode(root, t, p, BasePart(NameOf(r)), DataOf(r), t', c);
  }

  lemma ParentIsDirectory(t: Stage, p: int)
    requires p in t.h && t.h[p].inode.Some? && t.h[p].inode.value.Directory?
    ensures DirectoryAt(t, p)
  {
  }

  /** The node made for the next record of a well-formed list keeps the tree what the records describe. */
  lemma NodeBuilt(t: Stage, root: int, recs: seq<Cpio.Record>, at: seq<int>, r: Cpio.Record, parent: int, t': Stage,
                  c: int)
    requires Built(t.h, root, t.s, recs, at) && Fitting(recs + [r], |recs|) && NameOf(r) != [] && r.mode.Some?
    requires Resolve(t.h, t.s, root, [SLASH] + DirPart(NameOf(r))) == At(parent)
    requires NewNode(root, t, parent, BasePart(NameOf(r)), DataOf(r), t', c) && Kind(r) in {S_IFDIR, S_IFREG}
    ensures Built(t'.h, root, t'.s, recs + [r], at + [c])
  {
    hide Find, PathOf, Reached, IsTree, Sound, Built, Fitting, Resolve, Link, LinkShape, LastSlash, Matches,
         Normalized, DirPart, BasePart, Kind;
    var up := ParentFound(t.h, root, t.s, recs, at, r);
    var ino: u32 :|
      t' == Stage(Link(t.h, c, BasePart(NameOf(r)), Some(NewInode(ino, DataOf(r))), parent), LinkShape(t.s, c, parent));
    NameFree(t.h, root, t.s, recs, at, r, parent);
    MatchesNew(ino, r);
    FittingBase(recs, r);
    BuiltAdd(t.h, root, t.s, recs, at, r, parent, c, BasePart(NameOf(r)), NewInode(ino, DataOf(r)));
  }

  lemma DoneNothing(root: int, scarce: bool, t: Stage, r: Cpio.Record, mid: Stage, p: int)
    requires ParentMade(root, scarce, t, NameOf(r), mid, p)
    requires p == 0 || Kind(r) !in {S_IFDIR, S_IFREG} || scarce || !DirectoryAt(mid, p)
    ensures RecordDone(root, scarce, t, r, mid, false)
  {
    hide ParentMade, Kind, DirectoryAt;
    assert NodeMade(root, scarce, mid, p, r, mid, false);
  }

  lemma DoneNode(root: int, scarce: bool, t: Stage, r: Cpio.Record, mid: Stage, p: int, t': Stage, c: int)
    requires ParentMade(root, scarce, t, NameOf(r), mid, p) && p != 0 && Kind(r) in {S_IFDIR, S_IFREG}
    requires NewNode(root, mid, p, BasePart(NameOf(r)), DataOf(r), t', c)
    ensures RecordDone(root, scarce, t, r, t', true)
  {
    hide ParentMade, Kind, NewNode, DataOf;
    assert NodeMade(root, scarce, mid, p, r, t', true);
  }

  lemma IsNewNode(root: int, t: Stage, up: int, name: Str, data: Option<seq<byte>>, ino: u32, c: int)
    requires CanAdd(t.h, root, t.s, c, name, up)
    ensures NewNode(root, t, up, name, data,
              Stage(Link(t.h, c, name, Some(NewInode(ino, data)), up), LinkShape(t.s, c, up)), c)
  {
    hide Sound, Link, LinkShape, NewInode;
  }

  lemma NoDirectory(t: Stage, p: int)
    ensures p in t.h && t.h[p].inode.Some? && !t.h[p].inode.value.Directory? ==> !DirectoryAt(t, p)
  {
  }

  lemma NormalizedBound(raw: seq<byte>)
    ensures |Normalized(raw)| < NAME_SIZE
  {
  }

  lemma MatchesNew(ino: u32, r: Cpio.Record)
    requires Kind(r) in {S_IFDIR, S_IFREG}
    ensures Matches(Some(NewInode(ino, if Kind(r) == S_IFDIR then None else Some(r.data))), r)
  {
  }

  lemma FittingBase(recs: seq<Cpio.Record>, r: Cpio.Record)
    requires Fitting(recs + [r], |recs|) && NameOf(r) != []
    ensures Proper(BasePart(NameOf(r))) && Kind(r) in {S_IFDIR, S_IFREG}
  {
    hide LastSlash;
  }

  /** A record fails a check, or one with a name has a mode that is no number. */
  ghost predicate Unreadable(recs: Option<seq<Cpio.Record>>) {
    recs.None? || exists i :: 0 <= i < |recs.value| && BadMode(recs.value[i])
  }

  predicate BadMode(r: Cpio.Record) {
    NameOf(r) != [] && r.mode.None?
  }

  function Counted(counts: seq<bool>): nat {
    if counts == [] then 0 else Counted(counts[..|counts| - 1]) + if counts[|counts| - 1] then 1 else 0
  }

  /** What a record does: nothing if its name comes to nothing. */
  ghost predicate Handled(root: int, scarce: bool, t: Stage, r: Cpio.Record, t': Stage, counted: bool) {
    if NameOf(r) == [] then t' == t && !counted else !BadMode(r) && RecordDone(root, scarce, t, r, t', counted)
  }

  /** The trees a load went through, record by record. */
  ghost predicate Loading(root: int, scarce: bool, stages: seq<Stage>, recs: seq<Cpio.Record>, counts: seq<bool>) {
    && |stages| == |counts| + 1 && |counts| <= |recs|
    && forall i :: 0 <= i < |counts| ==> Handled(root, scarce, stages[i], recs[i], stages[i + 1], counts[i])
  }

  lemma LoadingMore(root: int, scarce: bool, stages: seq<Stage>, recs: seq<Cpio.Record>, counts: seq<bool>, t: Stage,
                    counted: bool)
    requires Loading(root, scarce, stages, recs, counts) && |counts| < |recs|
    requires Handled(root, scarce, stages[|counts|], recs[|counts|], t, counted)
    ensures Loading(root, scarce, stages + [t], recs, counts + [counted])
  {
    hide Handled;
    var stages', counts' := stages + [t], counts + [counted];
    forall i | 0 <= i < |counts'|
      ensures Handled(root, scarce, stages'[i], recs[i], stages'[i + 1], counts'[i])
    {
      if i < |counts| {
        assert Handled(root, scarce, stages[i], recs[i], stages[i + 1], counts[i]);
      }
    }
  }

  lemma CountedMore(counts: seq<bool>, counted: bool)
    ensures Counted(counts + [counted]) == Counted(counts) + if counted then 1 else 0
  {
    assert (counts + [counted])[..|counts|] == counts;
  }

  lemma SomeStep(archive: seq<byte>, offset: nat)
    requires offset + Cpio.HEADER_SIZE <= |archive|
    ensures var r := Cpio.ReadRecord(archive, offset);
            Cpio.ReadSome(archive, offset) ==
            if r.None? || r.value.raw == Cpio.Trailer() then [] else [r.value] + Cpio.ReadSome(archive, r.value.next)
  {
    hide Cpio.ReadRecord, Cpio.Trailer;
    if Cpio.ReadRecord(archive, offset).Some? {
      Cpio.RecordProgress(archive, offset);
    }
  }

  /** Why and where a load stopped. */
  ghost predicate Stopped(archive: seq<byte>, recs: seq<Cpio.Record>, counts: seq<bool>, result: int) {
    if result >= 0 then |counts| == |recs| && result == Counted(counts)
    else if |counts| < |recs| then BadMode(recs[|counts|])
    else |counts| == |recs| && Cpio.ReadAll(archive, 0).None?
  }

  /**
   `initramfs_load`. On any bytes whatever the tree goes from record to record as each of
   them demands and stays sound, the error is returned exactly for an archive that cannot be
   read, and a well-formed one gives exactly the tree it describes.
   */
  method Load(fs: FileSystem, archive: seq<byte>)
    returns (result: int, ghost at: seq<int>, ghost stages: seq<Stage>, ghost counts: seq<bool>)
    requires fs.Valid() && |archive| < 0x8000_0000_0000_0000
    modifies fs`h, fs`s, fs`nextIno
    ensures fs.Valid() && result >= -1 && (OneEach(old(fs.h)) ==> OneEach(fs.h))
    ensures result == -1 <==> |archive| < Cpio.HEADER_SIZE || Unreadable(Cpio.ReadAll(archive, 0))
    ensures |archive| >= Cpio.HEADER_SIZE && old(fs.h.Keys == {fs.root}) && !fs.scarce ==>
              var recs := Cpio.ReadAll(archive, 0);
              recs.Some? && WellFormed(recs.value) ==>
                result == NamedCount(recs.value) && Built(fs.h, fs.root, fs.s, recs.value, at)
    ensures |archive| >= Cpio.HEADER_SIZE ==>
              var recs := Cpio.ReadSome(archive, 0);
              && Loading(fs.root, fs.scarce, stages, recs, counts) && Stopped(archive, recs, counts, result)
              && stages[0] == Stage(old(fs.h), old(fs.s)) && stages[|counts|] == Stage(fs.h, fs.s)
    ensures |archive| < Cpio.HEADER_SIZE ==> fs.h == old(fs.h) && fs.s == old(fs.s)
  {
    hide Cpio.ReadSome, RecordDone, Handled, Counted, Loading, BadMode, NamedCount;
    hide WellFormed;
    hide PathOf, Reached, IsTree, Sound, Built, Fitting, Resolve, LastSlash, Normalized, OneEach;
    hide Cpio.ReadRecord, Cpio.ReadAll, Cpio.Trailer;
    at, stages, counts := [], [Stage(fs.h, fs.s)], [];
    if |archive| < Cpio.HEADER_SIZE {
      return -1, at, stages, counts;
    }
    ghost var recs, known := Cpio.ReadSome(archive, 0), Cpio.ReadAll(archive, 0).Some?;
    NoneCounted();
    LoadingStart(fs.root, fs.scarce, Stage(fs.h, fs.s), recs);
    if known {
      Cpio.SomeIsAll(archive, 0);
    }
    ghost var good := fs.h.Keys == {fs.root} && !fs.scarce && known && WellFormed(recs);
    if good {
      BuiltNothing(fs.h, fs.root, fs.s);
    }
    var offset, count := 0, 0;
    assert recs[..0] == [] && recs[0..] == recs;
    while offset + Cpio.HEADER_SIZE <= |archive|
      invariant fs.Valid() && 0 <= offset <= |archive| && (OneEach(old(fs.h)) ==> OneEach(fs.h))
      invariant |counts| <= |recs| && Cpio.ReadSome(archive, offset) == recs[|counts|..]
      invariant known <==> Cpio.ReadAll(archive, offset).Some?
      invariant forall i :: 0 <= i < |counts| ==> !BadMode(recs[i])
      invariant Loading(fs.root, fs.scarce, stages, recs, counts) && count == Counted(counts)
      invariant |stages| == |counts| + 1 && stages[0] == Stage(old(fs.h), old(fs.s))
      invariant stages[|counts|] == Stage(fs.h, fs.s)
      invariant good ==> Built(fs.h, fs.root, fs.s, recs[..|counts|], at) && count == NamedCount(recs[..|counts|])
      decreases |archive| - offset
    {
      ReadStep(archive, offset);
      SomeStep(archive, offset);
      var r := Cpio.NextRecord(archive, offset);
      if r.None? {
        return -1, at, stages, counts;
      }
      Cpio.RecordProgress(archive, offset);
      if r.value.raw == Cpio.Trailer() {
        break;
      }
      TailOf(recs, |counts|, r.value, Cpio.ReadSome(archive, r.value.next));
      if good {
        ListStep(recs, |counts|, r.value);
      }
      var bad, counted;
      bad, counted, at := LoadNext(fs, r.value, if good then recs[..|counts|] else [], at);
      if bad {
        return -1, at, stages, counts;
      }
      if counted {
        count := count + 1;
      }
      LoadingMore(fs.root, fs.scarce, stages, recs, counts, Stage(fs.h, fs.s), counted);
      CountedMore(counts, counted);
      stages, counts := stages + [Stage(fs.h, fs.s)], counts + [counted];
      offset := r.value.next;
    }
    ReadEnd(archive, offset);
    Cpio.SomeIsAll(archive, offset);
    assert recs[|counts|..] == [] && recs[..|counts|] == recs;
    return count, at, stages, counts;
  }

  /** A record with a name, or one without. */
  method LoadNext(fs: FileSystem, r: Cpio.Record, ghost recs: seq<Cpio.Record>, ghost at: seq<int>)
    returns (bad: bool, counted: bool, ghost at': seq<int>)
    requires fs.Valid()
    modifies fs`h, fs`s, fs`nextIno
    ensures fs.Valid() && (OneEach(old(fs.h)) ==> OneEach(fs.h)) && (bad <==> BadMode(r))
    ensures bad ==> fs.h == old(fs.h) && fs.s == old(fs.s) && at' == at
    ensures !bad ==> Handled(fs.root, fs.scarce, Stage(old(fs.h), old(fs.s)), r, Stage(fs.h, fs.s), counted)
    ensures !bad && !fs.scarce && Built(old(fs.h), fs.root, old(fs.s), recs, at) && Fitting(recs + [r], |recs|) ==>
              (counted <==> NameOf(r) != []) && Built(fs.h, fs.root, fs.s, recs + [r], at')
  {
    hide RecordDone, Handled, Built, Fitting, Sound, OneEach, Normalized;
    counted, at' := false, at;
    var name := NormalizePath(r.raw);
    if name == [] {
      HandledRecord(fs.root, fs.scarce, Stage(fs.h, fs.s), r, Stage(fs.h, fs.s), false);
      if Built(fs.h, fs.root, fs.s, recs, at) {
        BuiltSkip(fs.h, fs.root, fs.s, recs, at, r);
        at' := at + [fs.root];
      }
      return false, false, at';
    }
    if r.mode.None? {
      return true, false, at;
    }
    counted, at' := LoadRecord(fs, name, r, recs, at);
    HandledRecord(fs.root, fs.scarce, Stage(old(fs.h), old(fs.s)), r, Stage(fs.h, fs.s), counted);
    return false, counted, at';
  }

  lemma HandledRecord(root: int, scarce: bool, t: Stage, r: Cpio.Record, t': Stage, counted: bool)
    requires NameOf(r) == [] ==> t' == t && !counted
    requires NameOf(r) != [] ==> r.mode.Some? && RecordDone(root, scarce, t, r, t', counted)
    ensures Handled(root, scarce, t, r, t', counted)
  {
    hide RecordDone;
  }

  lemma LoadingStart(root: int, scarce: bool, t: Stage, recs: seq<Cpio.Record>)
    ensures Loading(root, scarce, [t], recs, [])
  {
  }

  lemma NoneCounted()
    ensures Counted([]) == 0
  {
  }

  lemma ReadStep(archive: seq<byte>, offset: nat)
    requires offset + Cpio.HEADER_SIZE <= |archive|
    ensures var r := Cpio.ReadRecord(archive, offset);
            Cpio.ReadAll(archive, offset) ==
            if r.None? then None
            else if r.value.raw == Cpio.Trailer() then Some([])
            else
              var rest := Cpio.ReadAll(archive, r.value.next);
              if rest.None? then None else Some([r.value] + rest.value)
  {
    hide Cpio.ReadRecord, Cpio.Trailer;
    if Cpio.ReadRecord(archive, offset).Some? {
      Cpio.RecordProgress(archive, offset);
    }
  }

  /** At the end of the input or at the trailer, nothing is left to read. */
  lemma ReadEnd(archive: seq<byte>, offset: nat)
    requires offset + Cpio.HEADER_SIZE > |archive| ||
             (Cpio.ReadRecord(archive, offset).Some? && Cpio.ReadRecord(archive, offset).value.raw == Cpio.Trailer())
    ensures Cpio.ReadAll(archive, offset) == Some([])
  {
    hide Cpio.ReadRecord, Cpio.Trailer;
  }

  lemma BuiltNothing(h: Heap, root: int, s: Shape)
    requires Sound(h, root, s) && h.Keys == {root}
    ensures Built(h, root, s, [], []) && NamedCount([]) == 0
  {
  }

  lemma TailOf(recs: seq<Cpio.Record>, k: nat, r: Cpio.Record, rest: seq<Cpio.Record>)
    requires k <= |recs| && recs[k..] == [r] + rest
    ensures k < |recs| && recs[k] == r && rest == recs[k + 1..]
  {
    assert recs[k] == recs[k..][0];
    assert recs[k + 1..] == recs[k..][1..] == ([r] + rest)[1..] == rest;
  }

  /** The next record of a well-formed list. */
  lemma ListStep(recs: seq<Cpio.Record>, k: nat, r: Cpio.Record)
    requires WellFormed(recs) && k < |recs| && recs[k] == r
    ensures recs[..k] + [r] == recs[..k + 1] && recs[k..] == [r] + recs[k + 1..]
    ensures Fitting(recs[..k] + [r], k) && !BadMode(r)
    ensures NamedCount(recs[..k + 1]) == NamedCount(recs[..k]) + if NameOf(r) == [] then 0 else 1
  {
    hide LastSlash, Normalized;
    assert Fitting(recs, k);
    FittingPrefix(recs, k);
    assert recs[..k + 1][..k] == recs[..k];
  }

  lemma FittingPrefix(recs: seq<Cpio.Record>, k: nat)
    requires k < |recs| && Fitting(recs, k)
    ensures Fitting(recs[..k + 1], k)
  {
    hide LastSlash, Normalized, IsDirectory;
    var all := recs[..k + 1];
    assert forall j :: 0 <= j <= k ==> all[j] == recs[j];
  }

  /* ----- The round trip ----- */

  lemma {:induction false} ReadItemsAt(items: seq<Cpio.Item>, offset: nat, i: nat)
    requires i < |items|
    ensures |Cpio.ReadItems(items, offset)| == |items|
    ensures var r := Cpio.ReadItems(items, offset)[i];
            r.raw == items[i].raw && r.mode == Some(items[i].mode) && r.data == items[i].data
    decreases |items|
  {
    hide Cpio.ItemSize;
    if |items| > 1 {
      ReadItemsAt(items[1..], offset + Cpio.ItemSize(items[0]), if i > 0 then i - 1 else 0);
    }
  }

  /** The signed reading of a 64-bit value. */
  function Signed(w: u64): (r: int)
    ensures -0x8000_0000_0000_0000 <= r < 0x8000_0000_0000_0000 && (r - w) % U64 == 0
  {
    if w < 0x8000_0000_0000_0000 then w else w - U64
  }

  /**
   `ramfs_read`. A size that makes `offset + size` wrap around is not cut at the end of the
   file: the copy then runs past it, which `overrun` reports.
   */
  method RamfsRead(fs: FileSystem, p: int, size: u64, offset: u64) returns (result: int, data: seq<byte>, overrun: bool)
    requires p in fs.h && fs.h[p].inode.Some?
    requires fs.h[p].inode.value.Regular? ==> |fs.h[p].inode.value.data| < 0x8000_0000_0000_0000
    ensures fs.h[p].inode.value.Directory? ==> result == EINVAL && data == [] && !overrun
    ensures fs.h[p].inode.value.Regular? ==>
              var all := fs.h[p].inode.value.data;
              && (overrun <==> offset < |all| && offset + size >= U64)
              && (overrun ==> result == Signed(size) && data == [])
              && (!overrun ==> result == |data| && IsPiece(all, offset, size, data))
  {
    var inode := fs.h[p].inode.value;
    if !inode.Regular? {
      return EINVAL, [], false;
    }
    var total := |inode.data|;
    if total == 0 || offset >= total {
      return 0, [], false;
    }
    var wanted := size;
    if (offset + size) % U64 > total {
      wanted := total - offset;
    }
    if offset + wanted > total {
      return Signed(wanted), [], true;
    }
    return wanted, inode.data[offset..offset + wanted], false;
  }

  /** What is left of `all` from `from` on, up to `size` bytes. */
  ghost predicate IsPiece(all: seq<byte>, from: nat, size: nat, data: seq<byte>) {
    data == if from >= |all| then [] else all[from..Min(from + size, |all|)]
  }

  lemma {:induction false} EncodedSize(items: seq<Cpio.Item>)
    ensures |Cpio.EncodeItems(items)| >= Cpio.HEADER_SIZE
    decreases |items|
  {
    hide Cpio.EncodeItem, Cpio.ItemSize;
    if items == [] {
      Cpio.ItemSizeFacts(Cpio.Item(Cpio.Trailer(), 0, []));
    } else {
      Cpio.ItemSizeFacts(items[0]);
      EncodedSize(items[1..]);
    }
  }

  /** The record of one item, as the loader sees it. */
  function AsRecord(item: Cpio.Item): Cpio.Record {
    Cpio.Record(item.raw, Some(item.mode), item.data, 0)
  }

  /** Every item is found under its name, with its data. */
  ghost predicate AllFound(h: Heap, root: int, s: Shape, items: seq<Cpio.Item>, at: seq<int>) {
    |at| == |items| &&
    forall i :: 0 <= i < |items| && Normalized(items[i].raw) != [] ==>
      at[i] in h && Resolve(h, s, root, [SLASH] + Normalized(items[i].raw)) == At(at[i])
      && Matches(h[at[i]].inode, AsRecord(items[i]))
  }

  lemma BuiltFinds(h: Heap, root: int, s: Shape, items: seq<Cpio.Item>, at: seq<int>)
    requires |Cpio.ReadItems(items, 0)| == |items| && Built(h, root, s, Cpio.ReadItems(items, 0), at)
    ensures AllFound(h, root, s, items, at)
  {
    hide Resolve, PathOf, Reached, IsTree, Normalized, Cpio.ReadItems, Sound;
    var recs := Cpio.ReadItems(items, 0);
    forall i | 0 <= i < |items| && Normalized(items[i].raw) != []
      ensures at[i] in h && Resolve(h, s, root, [SLASH] + Normalized(items[i].raw)) == At(at[i])
      ensures Matches(h[at[i]].inode, AsRecord(items[i]))
    {
      ReadItemsAt(items, 0, i);
      assert PlacedRecord(h, root, s, recs[i], at[i]);
      SoundIsTree(h, root, s);
      ResolvePathOf(h, root, s, at[i]);
    }
  }

  /**
   Packing items and loading the archive into an empty file system counts every named item,
   and the path of each leads to a directory or to a file with exactly its data.
   */
  method PackAndLoad(fs: FileSystem, items: seq<Cpio.Item>) returns (result: int, ghost at: seq<int>)
    requires fs.Valid() && fs.h.Keys == {fs.root} && !fs.scarce
    requires forall i :: 0 <= i < |items| ==> Cpio.Encodable(items[i])
    requires |Cpio.EncodeItems(items)| < 0x8000_0000_0000_0000 && WellFormed(Cpio.ReadItems(items, 0))
    modifies fs`h, fs`s, fs`nextIno
    ensures fs.Valid() && result == NamedCount(Cpio.ReadItems(items, 0)) && (OneEach(old(fs.h)) ==> OneEach(fs.h))
    ensures AllFound(fs.h, fs.root, fs.s, items, at) && Built(fs.h, fs.root, fs.s, Cpio.ReadItems(items, 0), at)
  {
    hide Sound, Built, WellFormed, NamedCount, Cpio.EncodeItems, Cpio.ReadItems, Cpio.ReadAll, Cpio.Encodable,
         AllFound, OneEach;
    EncodedSize(items);
    Cpio.ArchiveRoundTrip([], items);
    var archive := Cpio.EncodeItems(items);
    assert [] + archive == archive;
    ghost var stages, counts;
    result, at, stages, counts := Load(fs, archive);
    ReadItemsCount(items, 0);
    BuiltFinds(fs.h, fs.root, fs.s, items, at);
  }

  lemma {:induction false} ReadItemsCount(items: seq<Cpio.Item>, offset: nat)
    ensures |Cpio.ReadItems(items, offset)| == |items|
    decreases |items|
  {
    hide Cpio.ItemSize;
    if items != [] {
      ReadItemsCount(items[1..], offset + Cpio.ItemSize(items[0]));
    }
  }
}
