/** Adding a named dentry to the tree: everything found before is still found, and so is the new one. */
module TreeGrowth {
  import opened Bytes
  import opened Paths
  import opened DentryLists
  import opened Vfs

  /** A fresh `c` can be added under the directory `up` with a name not yet used there. */
  ghost predicate CanAdd(h: Heap, root: int, s: Shape, c: int, name: Str, up: int) {
    && Sound(h, root, s) && c !in h && c != 0 && up in h && up in s.kids && up in s.depth
    && h[up].inode.value.Directory? && |name| < NAME_SIZE
  }

  lemma AddSound(h: Heap, root: int, s: Shape, c: int, name: Str, inode: Inode, up: int)
    requires CanAdd(h, root, s, c, name, up)
    ensures Sound(Link(h, c, name, Some(inode), up), root, LinkShape(s, c, up))
  {
    hide IsTree;
    LinkTree(h, root, s, c, name, Some(inode), up);
    TreeRoot(h, root, s);
  }

  lemma {:induction false} FindAfterLink(h: Heap, c: int, name: Str, inode: Option<Inode>, up: int, list: seq<int>,
                                         x: seq<byte>)
    requires up in h && c !in h && c !in list
    ensures Find(Link(h, c, name, inode, up), list, x) == Find(h, list, x)
    decreases |list|
  {
    if list != [] {
      assert list[0] in list;
      assert forall y :: y in list[1..] ==> y in list;
      FindAfterLink(h, c, name, inode, up, list[1..], x);
    }
  }

  /** Lookups after the addition. */
  lemma AddFind(h: Heap, root: int, s: Shape, c: int, name: Str, inode: Inode, up: int, p: int, x: seq<byte>)
    requires CanAdd(h, root, s, c, name, up) && p in h && p in s.kids
    ensures p in LinkShape(s, c, up).kids
    ensures Find(Link(h, c, name, Some(inode), up), LinkShape(s, c, up).kids[p], x) ==
            if p == up && x == name then c else Find(h, s.kids[p], x)
  {
    hide IsTree, Find;
    KidsExist(h, root, s, p);
    FindAfterLink(h, c, name, Some(inode), up, s.kids[p], x);
    if p == up {
      FindHead(Link(h, c, name, Some(inode), up), [c] + s.kids[up], x);
      assert ([c] + s.kids[up])[1..] == s.kids[up];
    }
  }

  lemma FindHead(h: Heap, list: seq<int>, x: seq<byte>)
    requires list != [] && list[0] in h
    ensures Find(h, list, x) == if h[list[0]].name == x then list[0] else Find(h, list[1..], x)
  {
  }

  lemma {:induction false} AddPathOf(h: Heap, root: int, s: Shape, c: int, name: Str, inode: Inode, up: int, p: int)
    requires CanAdd(h, root, s, c, name, up) && p in h
    ensures Sound(Link(h, c, name, Some(inode), up), root, LinkShape(s, c, up))
    ensures PathOf(Link(h, c, name, Some(inode), up), root, LinkShape(s, c, up), p) == PathOf(h, root, s, p)
    decreases (TreeAt(h, root, s, p); s.depth[p])
  {
    hide IsTree, PathOf, Threaded;
    AddSound(h, root, s, c, name, inode, up);
    var h', s' := Link(h, c, name, Some(inode), up), LinkShape(s, c, up);
    TreeAt(h, root, s, p);
    if p == root {
      PathOfRoot(h, root, s);
      PathOfRoot(h', root, s');
    } else {
      PathOfKid(h, root, s, p);
      PathOfKid(h', root, s', p);
      AddPathOf(h, root, s, c, name, inode, up, h[p].parent);
    }
  }

  /** What was reached before is reached after. */
  lemma {:induction false} AddReached(h: Heap, root: int, s: Shape, c: int, name: Str, inode: Inode, up: int, p: int)
    requires CanAdd(h, root, s, c, name, up) && p in h && Reached(h, root, s, p)
    requires Find(h, s.kids[up], name) == 0
    ensures Sound(Link(h, c, name, Some(inode), up), root, LinkShape(s, c, up))
    ensures Reached(Link(h, c, name, Some(inode), up), root, LinkShape(s, c, up), p)
    decreases (TreeAt(h, root, s, p); s.depth[p])
  {
    hide IsTree, Threaded, Find;
    AddSound(h, root, s, c, name, inode, up);
    var h', s' := Link(h, c, name, Some(inode), up), LinkShape(s, c, up);
    if p != root {
      hide Reached;
      ReachedKid(h, root, s, p);
      var q := h[p].parent;
      AddReached(h, root, s, c, name, inode, up, q);
      AddFind(h, root, s, c, name, inode, up, q, h[p].name);
      ReachedFrom(h', root, s', p);
    } else {
      ReachedRootAgain(h', root, s');
    }
  }

  lemma ReachedRootAgain(h: Heap, root: int, s: Shape)
    requires Sound(h, root, s)
    ensures root in h && Reached(h, root, s, root)
  {
  }

  lemma ReachedFrom(h: Heap, root: int, s: Shape, p: int)
    requires Sound(h, root, s) && p in h && p != root && h[p].parent in h && h[p].parent in s.kids
    requires Reached(h, root, s, h[p].parent) && h[h[p].parent].inode.value.Directory? && Proper(h[p].name)
    requires Find(h, s.kids[h[p].parent], h[p].name) == p
    ensures Reached(h, root, s, p)
  {
    hide Threaded, Find;
    assert Placed(h, s, p);
  }

  /** The new dentry is reached, and its path is its parent's joined with its name. */
  lemma AddedReached(h: Heap, root: int, s: Shape, c: int, name: Str, inode: Inode, up: int)
    requires CanAdd(h, root, s, c, name, up) && Reached(h, root, s, up)
    requires Find(h, s.kids[up], name) == 0 && Proper(name)
    ensures var h', s' := Link(h, c, name, Some(inode), up), LinkShape(s, c, up);
            && Sound(h', root, s') && c in h' && Reached(h', root, s', c)
            && PathOf(h', root, s', c) == Join(PathOf(h, root, s, up), name) && h'[c].inode == Some(inode)
  {
    hide IsTree, Threaded, Find, Reached, PathOf;
    AddSound(h, root, s, c, name, inode, up);
    var h', s' := Link(h, c, name, Some(inode), up), LinkShape(s, c, up);
    TreeRoot(h, root, s);
    AddReached(h, root, s, c, name, inode, up, up);
    AddFind(h, root, s, c, name, inode, up, up, name);
    ReachedFrom(h', root, s', c);
    PathOfKid(h', root, s', c);
    AddPathOf(h, root, s, c, name, inode, up, up);
  }

  lemma LinkBump(h: Heap, c: int, name: Str, inode: Option<Inode>, up: int)
    requires up in h && c !in h
    ensures Link(Bump(h, up, 1), c, name, inode, up) == Bump(Link(h, c, name, inode, up), up, 1)
  {
  }
}
