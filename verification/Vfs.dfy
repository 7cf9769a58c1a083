/**
 The virtual file system over the in-memory one: reference counts, child lists changed in
 place, the path walk with its temporary dentry, the path printer and the working directory.
 */
module Vfs {
  import opened Bytes
  import opened Paths
  import opened DentryLists

  /** Everything but reference counts is the same. */
  ghost predicate SameLinks(h: Heap, h': Heap) {
    h.Keys == h'.Keys && forall p :: p in h ==> h'[p] == h[p].(refs := h'[p].refs)
  }

  lemma {:induction false} FindSame(h: Heap, h': Heap, list: seq<int>, name: seq<byte>)
    requires SameLinks(h, h')
    ensures Find(h', list, name) == Find(h, list, name)
    decreases |list|
  {
    if list != [] {
      FindSame(h, h', list[1..], name);
    }
  }

  lemma TreeSame(h: Heap, h': Heap, root: int, s: Shape)
    requires SameLinks(h, h') && IsTree(h, root, s)
    ensures IsTree(h', root, s)
  {
    forall p | p in h'
      ensures Threaded(h', p, s.kids[p])
    {
      assert Threaded(h, p, s.kids[p]);
    }
    forall p | p in h' && p != root
      ensures Placed(h', s, p)
    {
      assert Placed(h, s, p);
    }
  }

  /** There is always an address left. */
  lemma {:induction false} FreshAddress(m: set<int>) returns (b: int)
    ensures b > 0 && forall x :: x in m ==> x < b
    decreases |m|
  {
    if x :| x in m {
      b := FreshAddress(m - {x});
      assert forall y :: y in m ==> y == x || y in m - {x};
      if b <= x {
        b := x + 1;
      }
    } else {
      b := 1;
    }
  }

  class FileSystem {
    var h: Heap
    var root: int
    /** The next inode number. */
    var nextIno: u32
    /** Whether the slab allocator may run out. */
    var scarce: bool
    ghost var s: Shape

    ghost predicate Valid()
      reads this
    {
      Sound(h, root, s)
    }

    /** `ramfs::init` and the first `mount`: a root directory named `/`. */
    constructor (root: int, scarce: bool)
      requires root != 0
      ensures Valid() && this.root == root && this.scarce == scarce && h.Keys == {root} && h[root].refs == 1
    {
      this.root, this.scarce, nextIno := root, scarce, 2;
      h := map[root := Dentry([SLASH], Some(Directory(1)), 0, 0, 0, 1)];
      s := Shape(map[root := []], map[root := 0]);
    }

    method DGet(p: int)
      requires p in h
      modifies `h
      ensures h == Bump(old(h), p, 1)
    {
      h := h[p := h[p].(refs := h[p].refs + 1)];
    }

    /** `d_alloc`: fails, or links a fresh dentry at the head of its parent's list. */
    method DAlloc(name: Str, inode: Option<Inode>, up: int) returns (c: int)
      requires IsTree(h, root, s) && up in h
      modifies `h, `s
      ensures IsTree(h, root, s)
      ensures c == 0 ==> scarce && h == old(h) && s == old(s)
      ensures c != 0 ==> c !in old(h) && up in old(s).kids && up in old(s).depth
      ensures c != 0 ==> h == Link(old(h), c, name, inode, up) && s == LinkShape(old(s), c, up)
    {
      var granted: bool := *;
      if scarce && !granted {
        return 0;
      }
      hide IsTree;
      ghost var b := FreshAddress(h.Keys);
      assert b !in h;
      c :| c > 0 && c !in h;
      LinkTree(h, root, s, c, name, inode, up);
      h := h[c := Dentry(Truncated(name), inode, up, 0, h[up].child, 1)][up := h[up].(child := c)];
      s := LinkShape(s, c, up);
    }

    /** The list walk of `dput`, and the release of the dentry. */
    method FreeDentry(p: int, ghost i: nat)
      requires CanUnlink(h, root, s, p, i)
      modifies `h, `s
      ensures IsTree(h, root, s)
      ensures (UnlinkFacts(old(h), root, old(s), p, i);
               h == Unlink(old(h), old(s), p, i) && s == UnlinkShape(old(h), old(s), p, i))
    {
      hide IsTree, UnlinkShape;
      UnlinkFacts(h, root, s, p, i);
      UnlinkTree(h, root, s, p, i);
      var up := h[p].parent;
      ghost var list := s.kids[up];
      var before, cur := 0, h[up].child;
      ghost var k := 0;
      while cur != p
        invariant 0 <= k <= i && cur == list[k]
        invariant before == if k == 0 then 0 else list[k - 1]
        decreases i - k
      {
        before := cur;
        cur := h[cur].sibling;
        k := k + 1;
      }
      if before == 0 {
        h := h[up := h[up].(child := h[p].sibling)];
      } else {
        h := h[before := h[before].(sibling := h[p].sibling)];
      }
      h := h - {p};
      s := UnlinkShape(old(h), s, p, i);
    }

    /** `dput`: the last reference takes the dentry out of its parent's list and frees it. */
    method DPut(p: int, ghost i: nat)
      requires IsTree(h, root, s) && p in h && h[p].refs >= 1
      requires h[p].refs == 1 ==> CanUnlink(h, root, s, p, i)
      modifies `h, `s
      ensures IsTree(h, root, s)
      ensures old(h[p].refs) > 1 ==> h == Bump(old(h), p, -1) && s == old(s)
      ensures old(h[p].refs) == 1 ==>
                (UnlinkFacts(old(h), root, old(s), p, i);
                 h == Unlink(old(h), old(s), p, i) && s == UnlinkShape(old(h), old(s), p, i))
    {
      hide IsTree, Threaded, Unlink, UnlinkShape, Placed;
      ghost var h0 := h;
      h := h[p := h[p].(refs := h[p].refs - 1)];
      TreeSame(h0, h, root, s);
      if h[p].refs == 0 {
        PlacedSame(h0, h, s, p);
        UnlinkFacts(h0, root, s, p, i);
        UnlinkForgets(h0, h, root, s, p, i);
        FreeDentry(p, i);
      }
    }

    /** `d_lookup`. */
    method DLookup(up: int, name: Str) returns (r: int)
      requires IsTree(h, root, s) && up in h
      ensures up in s.kids && r == Find(h, s.kids[up], name)
    {
      hide IsTree;
      TreeAt(h, root, s, up);
      ghost var list := s.kids[up];
      ghost var i := 0;
      r := h[up].child;
      while r != 0
        invariant 0 <= i <= |list| && r == Head(list[i..])
        invariant Find(h, list, name) == Find(h, list[i..], name)
        decreases |list| - i
      {
        if h[r].name == name {
          return;
        }
        assert list[i..][1..] == list[i + 1..];
        r := h[r].sibling;
        i := i + 1;
      }
    }

    /** `ramfs_lookup`: the first child with the name, other than the dentry being looked up. */
    method RamfsLookup(dentry: int, name: Str) returns (r: int)
      requires IsTree(h, root, s) && dentry in h
      ensures h[dentry].parent in h ==>
              h[dentry].parent in s.kids && r == FindOther(h, s.kids[h[dentry].parent], dentry, name)
      ensures h[dentry].parent !in h ==> r == 0
    {
      hide IsTree;
      TreeAt(h, root, s, dentry);
      TreeRoot(h, root, s);
      var up := h[dentry].parent;
      if up == 0 {
        return 0;
      }
      TreeAt(h, root, s, up);
      ghost var list := s.kids[up];
      ghost var i := 0;
      r := h[up].child;
      while r != 0
        invariant 0 <= i <= |list| && r == Head(list[i..])
        invariant FindOther(h, list, dentry, name) == FindOther(h, list[i..], dentry, name)
        decreases |list| - i
      {
        if r != dentry && h[r].name == name {
          return;
        }
        assert list[i..][1..] == list[i + 1..];
        r := h[r].sibling;
        i := i + 1;
      }
    }

    /**
     The slow path of `path_walk`: a temporary dentry is linked, the file system is asked,
     and since it only looks at the same list again, it never finds what `d_lookup` missed.
     */
    method LookupMissing(cur: int, name: Str) returns (next: int, error: int)
      requires IsTree(h, root, s) && cur in h && Find(h, s.kids[cur], name) == 0
      modifies `h, `s
      ensures h == old(h) && s == old(s) && next == 0
      ensures error == ENOENT || (scarce && error == ENOMEM)
    {
      hide IsTree, Unlink, UnlinkShape, Link, LinkShape, Find;
      var temp := DAlloc(name, None, cur);
      if temp == 0 {
        return 0, ENOMEM;
      }
      LinkFacts(old(h), root, old(s), temp, name, None, cur);
      KidsExist(old(h), root, old(s), cur);
      next := RamfsLookup(temp, name);
      FindOtherLinked(old(h), old(s), temp, name, None, cur);
      UnlinkFacts(h, root, s, temp, 0);
      LinkUnlink(old(h), root, old(s), temp, name, None, cur);
      DPut(temp, 0);
      return next, ENOENT;
    }

    /** Moves the walk's one extra reference from `a` to `b`. */
    method MoveReference(a: int, b: int, ghost h0: Heap)
      requires Sound(h0, root, s) && a in h0 && b in h0 && h == Bump(h0, a, 1)
      modifies `h, `s
      ensures h == Bump(h0, b, 1) && s == old(s)
    {
      hide Sound, IsTree;
      BumpTree(h0, root, s, a);
      DGet(b);
      BumpTree2(h0, root, s, a, b);
      DPut(a, 0);
      BumpMove(h0, a, b);
    }

    method DropReference(a: int, ghost h0: Heap)
      requires Sound(h0, root, s) && a in h0 && h == Bump(h0, a, 1)
      modifies `h, `s
      ensures h == h0 && s == old(s)
    {
      hide Sound, IsTree;
      BumpTree(h0, root, s, a);
      DPut(a, 0);
      BumpBack(h0, a);
    }

    /** One component of `path_walk` from `current`, which holds the extra reference. */
    method WalkStep(current: int, name: Str, ghost h0: Heap) returns (w: Walked)
      requires Sound(h0, root, s) && current in h0 && h == Bump(h0, current, 1) && |name| < NAME_SIZE
      modifies `h, `s
      ensures s == old(s) && current in s.kids
      ensures w.At? ==> w == Step(h0, s, current, name) && w.p in h0 && h == Bump(h0, w.p, 1)
      ensures w.Failed? ==> h == h0 && w.error < 0 && Step(h0, s, current, name).Failed?
      ensures w.Failed? ==>
              w == Step(h0, s, current, name)
              || (scarce && w.error == ENOMEM && Step(h0, s, current, name).error == ENOENT)
    {
      hide Sound, IsTree, Find;
      SoundAt(h0, root, s, current);
      BumpTree(h0, root, s, current);
      if name == [DOT] {
        return At(current);
      }
      if name == [DOT, DOT] {
        var up := h[current].parent;
        if up != 0 {
          MoveReference(current, up, h0);
          return At(up);
        }
        return At(current);
      }
      if !h[current].inode.value.Directory? {
        DropReference(current, h0);
        return Failed(ENOTDIR);
      }
      var next := DLookup(current, name);
      FindSame(h0, h, s.kids[current], name);
      if next == 0 {
        var found, error := LookupMissing(current, name);
        DropReference(current, h0);
        return Failed(error);
      }
      FindKid(h0, root, s, current, name);
      MoveReference(current, next, h0);
      return At(next);
    }

    /** The scan of one component, refused beyond 255 bytes. */
    method ScanComponent(path: Str, pos: nat) returns (ok: bool, len: nat)
      requires pos <= |path|
      ensures ok <==> ComponentLength(path[pos..]) < NAME_SIZE
      ensures ok ==> len == ComponentLength(path[pos..]) && pos + len <= |path|
    {
      hide ComponentLength;
      len := 0;
      ComponentUnfold(path[pos..]);
      while pos + len < |path| && path[pos + len] != SLASH
        invariant pos + len <= |path| && len < NAME_SIZE
        invariant ComponentLength(path[pos..]) == len + ComponentLength(path[pos + len..])
      {
        ComponentUnfold(path[pos + len..]);
        assert path[pos + len..][1..] == path[pos + len + 1..];
        if len >= NAME_SIZE - 1 {
          return false, len;
        }
        len := len + 1;
      }
      ComponentUnfold(path[pos + len..]);
      return true, len;
    }

    method ScanSlashes(path: Str, pos: nat) returns (q: nat)
      requires pos <= |path|
      ensures pos <= q <= |path| && path[q..] == SkipSlashes(path[pos..])
      ensures q < |path| ==> path[q] != SLASH
    {
      hide SkipSlashes;
      q := pos;
      while q < |path| && path[q] == SLASH
        invariant pos <= q <= |path| && SkipSlashes(path[pos..]) == SkipSlashes(path[q..])
      {
        SkipUnfold(path[q..]);
        assert path[q..][1..] == path[q + 1..];
        q := q + 1;
      }
      SkipUnfold(path[q..]);
    }

    /**
     `path_walk`: it finds what the path names, and its only lasting effect is one
     reference on the result; on every error the heap is as it was.
     */
    method PathWalk(path: Str) returns (w: Walked)
      requires Valid()
      modifies `h, `s
      ensures s == old(s)
      ensures path == [] || path[0] != SLASH ==> w == Failed(EINVAL)
      ensures w.At? ==> path != [] && path[0] == SLASH && w.p in old(h) && h == Bump(old(h), w.p, 1)
      ensures w.At? ==> Resolve(old(h), s, root, path) == w
      ensures w.Failed? ==> h == old(h) && w.error < 0
      ensures w.Failed? && path != [] && path[0] == SLASH ==>
                w == Resolve(old(h), s, root, path)
                || (scarce && w == Failed(ENOMEM) && Resolve(old(h), s, root, path) == Failed(ENOENT))
    {
      hide Sound, IsTree, Find, Resolve, Step, SkipSlashes, ComponentLength, Bump;
      if path == [] || path[0] != SLASH {
        return Failed(EINVAL);
      }
      SoundRoot(h, root, s);
      var current := root;
      DGet(current);
      var pos := ScanSlashes(path, 0);
      assert path[0..] == path;
      ResolveSkip(old(h), s, root, path);
      while pos < |path|
        invariant 0 <= pos <= |path| && s == old(s) && current in old(h) && h == Bump(old(h), current, 1)
        invariant pos < |path| ==> path[pos] != SLASH
        invariant Resolve(old(h), s, root, path) == Resolve(old(h), s, current, path[pos..])
        decreases |path| - pos
      {
        ResolveHere(old(h), root, s, current, path[pos..]);
        ComponentUnfold(path[pos..]);
        var ok, len := ScanComponent(path, pos);
        if !ok {
          DropReference(current, old(h));
          return Failed(ENAMETOOLONG);
        }
        assert path[pos..][..len] == path[pos..pos + len] && path[pos..][len..] == path[pos + len..];
        assert forall x :: x in path[pos..pos + len] ==> x in path;
        var step := WalkStep(current, path[pos..pos + len], old(h));
        if step.Failed? {
          return step;
        }
        current := step.p;
        var next := ScanSlashes(path, pos + len);
        ResolveSkip(old(h), s, current, path[pos + len..]);
        pos := next;
      }
      ResolveEnd(old(h), root, s, current);
      assert path[pos..] == [];
      return At(current);
    }

    /** `dentry_path`: up to the root, then down again through at most 128 components. */
    method DentryPath(dentry: int, capacity: nat) returns (result: int, path: seq<byte>)
      requires IsTree(h, root, s) && dentry in h
      ensures dentry in s.depth
      ensures result == 0 <==> s.depth[dentry] <= 128 && capacity >= 2 && |PathOf(h, root, s, dentry)| < capacity
      ensures result == 0 ==> path == PathOf(h, root, s, dentry)
      ensures result != 0 ==> result == ENAMETOOLONG
    {
      hide IsTree, Threaded, PathOf;
      TreeAt(h, root, s, dentry);
      TreeRoot(h, root, s);
      path := [];
      var components: seq<int> := [];
      var cur := dentry;
      while h[cur].parent != 0
        invariant cur in h && cur in s.depth && s.depth[cur] + |components| == s.depth[dentry]
        invariant |components| <= 128
        invariant Chain(h, root, s, components, dentry, cur)
        decreases s.depth[cur]
      {
        TreeAt(h, root, s, cur);
        if |components| == 128 {
          return ENAMETOOLONG, path;
        }
        ChainUp(h, root, s, components, dentry, cur);
        components := components + [cur];
        cur := h[cur].parent;
      }
      TreeAt(h, root, s, cur);
      if capacity < 2 {
        return ENAMETOOLONG, path;
      }
      path := [SLASH];
      var count := |components|;
      PathOfRoot(h, root, s);
      while count > 0
        invariant 0 <= count <= |components|
        invariant Chain(h, root, s, components, dentry, root)
        invariant path == PathOf(h, root, s, Above(components, count, root)) && 1 <= |path| < capacity
      {
        count := count - 1;
        ChainDown(h, root, s, components, dentry, count);
        var name := h[components[count]].name;
        var separator := if |path| > 1 then 1 else 0;
        if |name| + separator >= capacity - |path| {
          return ENAMETOOLONG, path;
        }
        if separator == 1 {
          path := path + [SLASH];
        } else {
          assert path + [] == path;
        }
        path := path + name;
      }
      ChainFirst(h, root, s, components, dentry);
      return 0, path;
    }
  }

  /** What `components[count..]` hang from. */
  function Above(components: seq<int>, count: nat, root: int): int {
    if count < |components| then components[count] else root
  }

  /** The dentries from `dentry` up to, but without, `cur`. */
  ghost predicate Chain(h: Heap, root: int, s: Shape, components: seq<int>, dentry: int, cur: int) {
    && IsTree(h, root, s) && dentry in h && cur in h
    && (forall i :: 0 <= i < |components| ==>
          && components[i] in h && components[i] != root
          && h[components[i]].parent == (if i + 1 < |components| then components[i + 1] else cur)
          && |PathOf(h, root, s, components[i])| <= |PathOf(h, root, s, dentry)|)
    && Above(components, 0, cur) == dentry
    && |PathOf(h, root, s, cur)| <= |PathOf(h, root, s, dentry)|
  }

  lemma ChainUp(h: Heap, root: int, s: Shape, components: seq<int>, dentry: int, cur: int)
    requires Chain(h, root, s, components, dentry, cur) && cur != root
    ensures Chain(h, root, s, components + [cur], dentry, h[cur].parent)
  {
    hide IsTree, PathOf;
    PathOfKid(h, root, s, cur);
    var more, up := components + [cur], h[cur].parent;
    forall i | 0 <= i < |more|
      ensures && more[i] in h && more[i] != root
              && h[more[i]].parent == (if i + 1 < |more| then more[i + 1] else up)
              && |PathOf(h, root, s, more[i])| <= |PathOf(h, root, s, dentry)|
    {
      if i < |components| {
        assert more[i] == components[i] && more[i + 1] == if i + 1 < |components| then components[i + 1] else cur;
        assert h[components[i]].parent == if i + 1 < |components| then components[i + 1] else cur;
      }
    }
  }

  lemma ChainDown(h: Heap, root: int, s: Shape, components: seq<int>, dentry: int, i: nat)
    requires Chain(h, root, s, components, dentry, root) && i < |components|
    ensures var c := components[i];
            && c in h && h[c].parent in h && h[c].parent == Above(components, i + 1, root)
            && PathOf(h, root, s, c) == Join(PathOf(h, root, s, h[c].parent), h[c].name)
            && |PathOf(h, root, s, c)| <= |PathOf(h, root, s, dentry)|
  {
    hide IsTree, PathOf;
    PathOfKid(h, root, s, components[i]);
  }

  lemma ChainFirst(h: Heap, root: int, s: Shape, components: seq<int>, dentry: int)
    requires Chain(h, root, s, components, dentry, root)
    ensures Above(components, 0, root) == dentry
  {
  }

  lemma KidsExist(h: Heap, root: int, s: Shape, p: int)
    requires IsTree(h, root, s) && p in h
    ensures p in s.kids && forall i :: 0 <= i < |s.kids[p]| ==> s.kids[p][i] in h
  {
    assert Threaded(h, p, s.kids[p]);
  }

  lemma SoundAt(h: Heap, root: int, s: Shape, p: int)
    requires Sound(h, root, s) && p in h
    ensures IsTree(h, root, s) && p in s.kids && h[p].inode.Some? && h[p].refs >= 1 && 0 !in h
    ensures h[p].parent != 0 ==> h[p].parent in h
  {
    assert p != root ==> Placed(h, s, p);
  }

  lemma SoundRoot(h: Heap, root: int, s: Shape)
    requires Sound(h, root, s)
    ensures root in h && root in s.kids && h[root].inode.Some? && h[root].inode.value.Directory?
  {
  }

  lemma BumpTree(h: Heap, root: int, s: Shape, a: int)
    requires Sound(h, root, s) && a in h
    ensures IsTree(Bump(h, a, 1), root, s) && SameLinks(h, Bump(h, a, 1)) && Bump(h, a, 1)[a].refs > 1
  {
    TreeSame(h, Bump(h, a, 1), root, s);
  }

  lemma BumpTree2(h: Heap, root: int, s: Shape, a: int, b: int)
    requires Sound(h, root, s) && a in h && b in h
    ensures var h' := Bump(Bump(h, a, 1), b, 1); IsTree(h', root, s) && h'[a].refs > 1
  {
    hide IsTree;
    TreeSame(h, Bump(Bump(h, a, 1), b, 1), root, s);
  }

  lemma BumpMove(h: Heap, a: int, b: int)
    requires a in h && b in h
    ensures Bump(Bump(Bump(h, a, 1), b, 1), a, -1) == Bump(h, b, 1)
  {
  }

  lemma BumpBack(h: Heap, a: int)
    requires a in h
    ensures Bump(Bump(h, a, 1), a, -1) == h
  {
  }

  lemma ResolveHere(h: Heap, root: int, s: Shape, cur: int, at: seq<byte>)
    requires Sound(h, root, s) && cur in h && at != [] && at[0] != SLASH
    ensures cur in s.kids
    ensures var n := ComponentLength(at);
            Resolve(h, s, cur, at) ==
            if n >= NAME_SIZE then Failed(ENAMETOOLONG)
            else if Step(h, s, cur, at[..n]).Failed? then Step(h, s, cur, at[..n])
            else Resolve(h, s, Step(h, s, cur, at[..n]).p, at[n..])
  {
    hide Resolve, Step, ComponentLength, IsTree;
    SoundAt(h, root, s, cur);
    SkipUnfold(at);
    ResolveUnfold(h, s, cur, at);
  }

  lemma ResolveSkip(h: Heap, s: Shape, cur: int, path: seq<byte>)
    ensures Resolve(h, s, cur, SkipSlashes(path)) == Resolve(h, s, cur, path)
  {
    hide Resolve, Step, ComponentLength, SkipSlashes;
    SkipSkip(path);
    ResolveUnfold(h, s, cur, path);
    ResolveUnfold(h, s, cur, SkipSlashes(path));
  }

  lemma SkipSkip(path: seq<byte>)
    ensures SkipSlashes(SkipSlashes(path)) == SkipSlashes(path)
  {
    hide SkipSlashes;
    SkipFacts(path);
    SkipUnfold(SkipSlashes(path));
  }

  lemma ResolveEnd(h: Heap, root: int, s: Shape, cur: int)
    requires Sound(h, root, s) && cur in h
    ensures Resolve(h, s, cur, []) == At(cur)
  {
    hide IsTree;
    SoundAt(h, root, s, cur);
  }

  function FindOther(h: Heap, list: seq<int>, skip: int, name: seq<byte>): int {
    if list == [] then 0
    else if list[0] != skip && list[0] in h && h[list[0]].name == name then list[0]
    else FindOther(h, list[1..], skip, name)
  }

  lemma LinkFacts(h: Heap, root: int, s: Shape, c: int, name: Str, inode: Option<Inode>, up: int)
    requires IsTree(h, root, s) && c !in h && c != 0 && up in h
    ensures up in s.kids && up in s.depth && up != c && c != root
    ensures var h', s' := Link(h, c, name, inode, up), LinkShape(s, c, up);
            && c in h' && h'[c].parent == up && h'[c].refs == 1 && up in h' && up in s'.kids
            && s'.kids[up] == [c] + s.kids[up] && CanUnlink(h', root, s', c, 0)
  {
    hide IsTree, Threaded;
    TreeAt(h, root, s, up);
    TreeRoot(h, root, s);
    LinkTree(h, root, s, c, name, inode, up);
  }

  /** Unlinking what was just linked gives the heap and its shape back. */
  lemma LinkUnlink(h: Heap, root: int, s: Shape, c: int, name: Str, inode: Option<Inode>, up: int)
    requires IsTree(h, root, s) && c !in h && c != 0 && up in h
    ensures (LinkFacts(h, root, s, c, name, inode, up);
             var h', s' := Link(h, c, name, inode, up), LinkShape(s, c, up);
             UnlinkFacts(h', root, s', c, 0);
             Unlink(h', s', c, 0) == h && UnlinkShape(h', s', c, 0) == s)
  {
    hide IsTree, Threaded, Placed;
    LinkFacts(h, root, s, c, name, inode, up);
    TreeAt(h, root, s, up);
    TreeRoot(h, root, s);
    var h', s' := Link(h, c, name, inode, up), LinkShape(s, c, up);
    UnlinkFacts(h', root, s', c, 0);
    assert Without([c] + s.kids[up], 0) == s.kids[up];
    assert Unlink(h', s', c, 0) == h;
    assert UnlinkShape(h', s', c, 0).kids == s.kids;
    assert UnlinkShape(h', s', c, 0).depth == s.depth;
  }

  lemma {:induction false} FindOtherSame(h: Heap, c: int, name: Str, inode: Option<Inode>, up: int, list: seq<int>,
                                         wanted: seq<byte>)
    requires up in h && c !in h && c !in list
    ensures FindOther(Link(h, c, name, inode, up), list, c, wanted) == Find(h, list, wanted)
    decreases |list|
  {
    if list != [] {
      assert list[0] in list;
      assert forall x :: x in list[1..] ==> x in list;
      FindOtherSame(h, c, name, inode, up, list[1..], wanted);
    }
  }

  lemma FindOtherLinked(h: Heap, s: Shape, c: int, name: Str, inode: Option<Inode>, up: int)
    requires up in h && up in s.kids && c !in h && forall i :: 0 <= i < |s.kids[up]| ==> s.kids[up][i] in h
    ensures FindOther(Link(h, c, name, inode, up), [c] + s.kids[up], c, name) == Find(h, s.kids[up], name)
  {
    hide Link;
    var list := s.kids[up];
    assert ([c] + list)[1..] == list;
    FindOtherSame(h, c, name, inode, up, list, name);
  }

  lemma PlacedSame(h: Heap, h': Heap, s: Shape, p: int)
    requires SameLinks(h, h') && p in h && Placed(h, s, p)
    ensures Placed(h', s, p)
  {
  }

  /** Freeing does not depend on the count of the dentry freed. */
  lemma UnlinkForgets(h: Heap, h': Heap, root: int, s: Shape, p: int, i: nat)
    requires CanUnlink(h, root, s, p, i) && CanUnlink(h', root, s, p, i)
    requires h' == h[p := h[p].(refs := 0)]
    ensures (UnlinkFacts(h, root, s, p, i); UnlinkFacts(h', root, s, p, i);
             Unlink(h', s, p, i) == Unlink(h, s, p, i) && UnlinkShape(h', s, p, i) == UnlinkShape(h, s, p, i))
  {
    hide IsTree, Threaded, Placed;
    UnlinkFacts(h, root, s, p, i);
    UnlinkFacts(h', root, s, p, i);
  }
}
