/** Linking dentries into their parent's child list and taking them out again keeps the tree. */
module DentryLists {
  import opened Bytes
  import opened Paths

  /* ----- Changes to the heap ----- */

  /** `p`'s reference count changed by `n`. */
  function Bump(h: Heap, p: int, n: int): Heap
    requires p in h
  {
    h[p := h[p].(refs := h[p].refs + n)]
  }

  /** What the 256 bytes of a dentry hold of a name. */
  function Truncated(name: Str): (r: Str)
    ensures r <= name && |r| == Min(|name|, 255)
  {
    if |name| >= NAME_SIZE then (assert forall x :: x in name[..NAME_SIZE - 1] ==> x in name; name[..NAME_SIZE - 1])
    else name
  }

  /** A new dentry `c` at the head of `up`'s child list. */
  function Link(h: Heap, c: int, name: Str, inode: Option<Inode>, up: int): Heap
    requires up in h
  {
    h[c := Dentry(Truncated(name), inode, up, 0, h[up].child, 1)][up := h[up].(child := c)]
  }

  function LinkShape(s: Shape, c: int, up: int): Shape
    requires up in s.kids && up in s.depth
  {
    Shape(s.kids[c := []][up := [c] + s.kids[up]], s.depth[c := s.depth[up] + 1])
  }

  lemma TreeAt(h: Heap, root: int, s: Shape, p: int)
    requires IsTree(h, root, s) && p in h
    ensures p != 0 && p in s.kids && p in s.depth && Threaded(h, p, s.kids[p]) && |h[p].name| < NAME_SIZE
    ensures if p == root then h[p].parent == 0 && s.depth[p] == 0 else Placed(h, s, p)
  {
  }

  lemma TreeRoot(h: Heap, root: int, s: Shape)
    requires IsTree(h, root, s)
    ensures 0 !in h && root in h && s.kids.Keys == h.Keys && s.depth.Keys == h.Keys
  {
  }

  lemma ThreadedPush(h: Heap, c: int, name: Str, inode: Option<Inode>, up: int, list: seq<int>)
    requires up in h && c !in h && c != 0 && Threaded(h, up, list)
    ensures Threaded(Link(h, c, name, inode, up), up, [c] + list)
  {
    var h', now := Link(h, c, name, inode, up), [c] + list;
    forall i | 0 <= i < |now|
      ensures now[i] in h' && now[i] != 0 && h'[now[i]].parent == up && h'[now[i]].sibling == Next(now, i)
    {
      if i > 0 {
        assert now[i] == list[i - 1] && h[list[i - 1]].sibling == Next(list, i - 1);
      }
    }
  }

  lemma LinkThreaded(h: Heap, root: int, s: Shape, c: int, name: Str, inode: Option<Inode>, up: int, p: int)
    requires IsTree(h, root, s) && c !in h && c != 0 && up in h && (p in h || p == c)
    ensures up in s.kids && up in s.depth && p in LinkShape(s, c, up).kids && p in Link(h, c, name, inode, up)
    ensures Threaded(Link(h, c, name, inode, up), p, LinkShape(s, c, up).kids[p])
  {
    hide IsTree;
    TreeAt(h, root, s, up);
    if p == up {
      ThreadedPush(h, c, name, inode, up, s.kids[up]);
    } else if p != c {
      TreeAt(h, root, s, p);
    }
  }

  lemma LinkPlaced(h: Heap, root: int, s: Shape, c: int, name: Str, inode: Option<Inode>, up: int, p: int)
    requires IsTree(h, root, s) && c !in h && c != 0 && up in h && (p in h || p == c) && p != root
    ensures up in s.kids && up in s.depth && p in Link(h, c, name, inode, up)
    ensures Placed(Link(h, c, name, inode, up), LinkShape(s, c, up), p)
  {
    hide IsTree, Threaded;
    TreeAt(h, root, s, up);
    TreeRoot(h, root, s);
    if p != c {
      TreeAt(h, root, s, p);
    }
  }

  lemma LinkTree(h: Heap, root: int, s: Shape, c: int, name: Str, inode: Option<Inode>, up: int)
    requires IsTree(h, root, s) && c !in h && c != 0 && up in h
    ensures up in s.kids && up in s.depth && IsTree(Link(h, c, name, inode, up), root, LinkShape(s, c, up))
  {
    hide Threaded, Placed;
    var h', s' := Link(h, c, name, inode, up), LinkShape(s, c, up);
    forall p | p in h'
      ensures Threaded(h', p, s'.kids[p])
    {
      LinkThreaded(h, root, s, c, name, inode, up, p);
    }
    forall p | p in h' && p != root
      ensures Placed(h', s', p)
    {
      LinkPlaced(h, root, s, c, name, inode, up, p);
    }
  }

  /** The list without its `i`th element. */
  function Without(list: seq<int>, i: nat): seq<int>
    requires i < |list|
  {
    list[..i] + list[i + 1..]
  }

  /** `c`, the `i`th child of its parent and childless, taken out of the list and freed. */
  function Unlink(h: Heap, s: Shape, c: int, i: nat): Heap
    requires c in h && h[c].parent in h && h[c].parent in s.kids && i < |s.kids[h[c].parent]|
    requires i > 0 ==> s.kids[h[c].parent][i - 1] in h
  {
    var up := h[c].parent;
    var h' := if i == 0 then h[up := h[up].(child := h[c].sibling)]
              else var before := s.kids[up][i - 1]; h[before := h[before].(sibling := h[c].sibling)];
    h' - {c}
  }

  function UnlinkShape(h: Heap, s: Shape, c: int, i: nat): Shape
    requires c in h && h[c].parent in s.kids && i < |s.kids[h[c].parent]|
  {
    var up := h[c].parent;
    Shape(s.kids[up := Without(s.kids[up], i)] - {c}, s.depth - {c})
  }

  ghost predicate CanUnlink(h: Heap, root: int, s: Shape, c: int, i: nat) {
    && IsTree(h, root, s) && c in h && c != root && s.kids[c] == []
    && Placed(h, s, c) && i < |s.kids[h[c].parent]| && s.kids[h[c].parent][i] == c
  }

  lemma UnlinkFacts(h: Heap, root: int, s: Shape, c: int, i: nat)
    requires CanUnlink(h, root, s, c, i)
    ensures h[c].parent != c && h[c].parent in h
    ensures i > 0 ==> var b := s.kids[h[c].parent][i - 1]; b in h && b != c && b != h[c].parent
    ensures Threaded(h, h[c].parent, s.kids[h[c].parent])
  {
    var up := h[c].parent;
    assert Threaded(h, up, s.kids[up]);
    assert up != root ==> Placed(h, s, up);
    if i > 0 {
      var b := s.kids[up][i - 1];
      assert b in h && h[b].parent == up;
    }
  }

  lemma WithoutAt(list: seq<int>, i: nat, k: nat)
    requires i < |list| && k < |list| - 1
    ensures Without(list, i)[k] == list[if k < i then k else k + 1]
    ensures Next(Without(list, i), k) == if k == i - 1 then Next(list, i) else Next(list, if k < i then k else k + 1)
  {
  }

  /** The list `c` was in stays threaded without it. */
  lemma ThreadedWithout(h: Heap, s: Shape, up: int, list: seq<int>, i: nat, c: int)
    requires up in h && Threaded(h, up, list) && i < |list| && list[i] == c && c != up
    requires up in s.kids && s.kids[up] == list && (i > 0 ==> list[i - 1] != up)
    ensures c in h && h[c].parent == up && (i > 0 ==> list[i - 1] in h)
    ensures var h' := Unlink(h, s, c, i); up in h' && Threaded(h', up, Without(list, i))
  {
    var h', now := Unlink(h, s, c, i), Without(list, i);
    forall k | 0 <= k < |now|
      ensures now[k] in h' && now[k] != 0 && h'[now[k]].parent == up && h'[now[k]].sibling == Next(now, k)
    {
      WithoutAt(list, i, k);
      var was := if k < i then k else k + 1;
      assert list[was] in h && list[was] != c && h[list[was]].sibling == Next(list, was);
    }
    forall k, l | 0 <= k < l < |now|
      ensures now[k] != now[l]
    {
      WithoutAt(list, i, k);
      WithoutAt(list, i, l);
    }
    if now != [] {
      WithoutAt(list, i, 0);
    }
  }

  /** Other lists are not touched. */
  lemma ThreadedElsewhere(h: Heap, s: Shape, c: int, i: nat, p: int, list: seq<int>)
    requires c in h && h[c].parent in h && h[c].parent in s.kids && i < |s.kids[h[c].parent]|
    requires i > 0 ==> s.kids[h[c].parent][i - 1] in h && h[s.kids[h[c].parent][i - 1]].parent == h[c].parent
    requires p in h && p != c && p != h[c].parent && Threaded(h, p, list)
    ensures var h' := Unlink(h, s, c, i); p in h' && Threaded(h', p, list)
  {
  }

  lemma UnlinkFields(h: Heap, root: int, s: Shape, c: int, i: nat)
    requires CanUnlink(h, root, s, c, i)
    ensures (UnlinkFacts(h, root, s, c, i);
             var h' := Unlink(h, s, c, i);
             && h'.Keys == h.Keys - {c}
             && forall p :: p in h' ==> h'[p] == h[p].(child := h'[p].child, sibling := h'[p].sibling))
  {
    hide IsTree;
    UnlinkFacts(h, root, s, c, i);
  }

  lemma UnlinkShapeFacts(h: Heap, root: int, s: Shape, c: int, i: nat)
    requires CanUnlink(h, root, s, c, i)
    ensures var s' := UnlinkShape(h, s, c, i);
            && s'.kids.Keys == h.Keys - {c} && s'.depth.Keys == h.Keys - {c}
            && (forall p :: p in h && p != c ==> p in s'.kids && p in s'.depth)
            && (forall p :: p in h && p != c ==> s'.depth[p] == s.depth[p])
            && (forall p :: p in h && p != c ==>
                  s'.kids[p] == if p == h[c].parent then Without(s.kids[p], i) else s.kids[p])
  {
    hide IsTree, Threaded, Placed;
    TreeRoot(h, root, s);
    TreeAt(h, root, s, c);
  }

  lemma UnlinkThreaded(h: Heap, root: int, s: Shape, c: int, i: nat, p: int)
    requires CanUnlink(h, root, s, c, i) && p in h && p != c
    ensures (UnlinkFacts(h, root, s, c, i); UnlinkShapeFacts(h, root, s, c, i);
             p in Unlink(h, s, c, i) && Threaded(Unlink(h, s, c, i), p, UnlinkShape(h, s, c, i).kids[p]))
  {
    hide Unlink, Threaded, IsTree, Placed, UnlinkShape;
    UnlinkFacts(h, root, s, c, i);
    UnlinkShapeFacts(h, root, s, c, i);
    TreeAt(h, root, s, p);
    TreeAt(h, root, s, h[c].parent);
    if p == h[c].parent {
      ThreadedWithout(h, s, p, s.kids[p], i, c);
    } else {
      SiblingsParent(h, h[c].parent, s.kids[h[c].parent], i);
      ThreadedElsewhere(h, s, c, i, p, s.kids[p]);
    }
  }

  lemma SiblingsParent(h: Heap, up: int, list: seq<int>, i: nat)
    requires up in h && Threaded(h, up, list) && i < |list|
    ensures i > 0 ==> list[i - 1] in h && h[list[i - 1]].parent == up
  {
  }

  lemma StaysIn(list: seq<int>, i: nat, p: int)
    requires i < |list| && p in list && p != list[i]
    ensures p in Without(list, i)
  {
    var k :| 0 <= k < |list| && list[k] == p;
    WithoutAt(list, i, if k < i then k else k - 1);
  }

  lemma UnlinkPlaced(h: Heap, root: int, s: Shape, c: int, i: nat, p: int)
    requires CanUnlink(h, root, s, c, i) && p in h && p != c && p != root
    ensures (UnlinkFacts(h, root, s, c, i); UnlinkFields(h, root, s, c, i);
             Placed(Unlink(h, s, c, i), UnlinkShape(h, s, c, i), p))
  {
    hide Unlink, Threaded, IsTree, UnlinkShape;
    UnlinkFacts(h, root, s, c, i);
    UnlinkFields(h, root, s, c, i);
    UnlinkShapeFacts(h, root, s, c, i);
    TreeAt(h, root, s, p);
    if h[p].parent == h[c].parent {
      StaysIn(s.kids[h[c].parent], i, p);
    }
  }

  lemma UnlinkTree(h: Heap, root: int, s: Shape, c: int, i: nat)
    requires CanUnlink(h, root, s, c, i)
    ensures (UnlinkFacts(h, root, s, c, i); IsTree(Unlink(h, s, c, i), root, UnlinkShape(h, s, c, i)))
  {
    hide Unlink, Threaded, Placed, UnlinkShape;
    UnlinkFacts(h, root, s, c, i);
    UnlinkFields(h, root, s, c, i);
    UnlinkShapeFacts(h, root, s, c, i);
    var h', s' := Unlink(h, s, c, i), UnlinkShape(h, s, c, i);
    forall p | p in h'
      ensures Threaded(h', p, s'.kids[p])
    {
      UnlinkThreaded(h, root, s, c, i, p);
    }
    forall p | p in h' && p != root
      ensures Placed(h', s', p)
    {
      UnlinkPlaced(h, root, s, c, i, p);
    }
  }
}
