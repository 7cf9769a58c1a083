/**
 The nodes of a tree of page tables, each named by the indices that lead to it. Owned frames
 and nodes correspond one to one, so counting names is counting frames.
 */
module TableNodes {
  import opened Bytes
  import opened PageTables

  /** The first `depth` indices of a page: the name of a table, or of the page itself. */
  function Prefix(v: VPage, depth: nat): (r: seq<int>)
    requires depth <= 4
    ensures |r| == depth
  {
    [v.i4, v.i3, v.i2, v.i1][..depth]
  }

  /** The frame that the first `depth` indices lead to. */
  function FrameAt(mem: Memory, root: int, v: VPage, depth: nat): Option<int>
    requires depth <= 4
  {
    if depth < 4 then TableAt(mem, root, v, depth)
    else if Leaf(mem, root, v).present then Some(Leaf(mem, root, v).frame)
    else None
  }

  ghost function AllPages(): set<VPage> {
    set i4, i3, i2, i1 | 0 <= i4 < USER_ENTRIES && 0 <= i3 < ENTRIES && 0 <= i2 < ENTRIES && 0 <= i1 < ENTRIES ::
      VPage(i4, i3, i2, i1)
  }

  lemma AllPagesValid(v: VPage)
    ensures v in AllPages() <==> v.Valid()
  {
  }

  /** The names of the nodes there are. */
  ghost function Nodes(mem: Memory, root: int): set<seq<int>> {
    set v, d: nat | v in AllPages() && d <= 4 && FrameAt(mem, root, v, d).Some? :: Prefix(v, d)
  }

  /** The names of the nodes on the way to the pages with the given numbers. */
  ghost function Ways(pages: set<nat>): set<seq<int>> {
    set q, d: nat | q in pages && d <= 4 :: Prefix(Indices(q * PAGE_BYTES), d)
  }

  lemma WaysUnion(a: set<nat>, b: set<nat>)
    ensures Ways(a + b) == Ways(a) + Ways(b)
  {
    hide Prefix, Indices;
  }

  lemma WaysOne(q: nat)
    ensures Ways({q}) == ChainTo(Indices(q * PAGE_BYTES), 4)
  {
    hide Prefix, Indices;
    assert forall p, d: nat :: p in {q} && d <= 4 ==>
             Prefix(Indices(p * PAGE_BYTES), d) in ChainTo(Indices(q * PAGE_BYTES), 4);
    forall n | n in ChainTo(Indices(q * PAGE_BYTES), 4)
      ensures n in Ways({q})
    {
      var d: nat :| d <= 4 && n == Prefix(Indices(q * PAGE_BYTES), d);
      assert q in {q};
    }
  }

  /** The names on the way to one page, down to a depth. */
  ghost function ChainTo(v: VPage, depth: nat): set<seq<int>>
    requires depth <= 4
  {
    set d: nat | d <= depth :: Prefix(v, d)
  }

  /** A page takes at most four frames besides the root: three tables and itself. */
  lemma {:induction false} WaysBound(pages: set<nat>)
    ensures |{[]} + Ways(pages)| <= 1 + 4 * |pages|
    decreases |pages|
  {
    hide Indices, Prefix, Ways, ChainTo;
    if pages == {} {
      NoWays();
    } else {
      var q :| q in pages;
      var rest, v := pages - {q}, Indices(q * PAGE_BYTES);
      WaysBound(rest);
      WaysUnion(rest, {q});
      WaysOne(q);
      assert pages == rest + {q};
      ChainSize(v);
      AddFour({[]} + Ways(rest), Prefix(v, 1), Prefix(v, 2), Prefix(v, 3), Prefix(v, 4));
      assert {[]} + (Ways(rest) + ChainTo(v, 4)) ==
             ({[]} + Ways(rest)) + {Prefix(v, 1), Prefix(v, 2), Prefix(v, 3), Prefix(v, 4)};
    }
  }

  lemma NoWays()
    ensures Ways({}) == {} && {[]} + Ways({}) == {[]}
  {
  }

  lemma AddFour(a: set<seq<int>>, w: seq<int>, x: seq<int>, y: seq<int>, z: seq<int>)
    ensures |a + {w, x, y, z}| <= |a| + 4
  {
    AddOne(a, w);
    AddOne(a + {w}, x);
    AddOne(a + {w} + {x}, y);
    AddOne(a + {w} + {x} + {y}, z);
    assert a + {w, x, y, z} == a + {w} + {x} + {y} + {z};
  }

  lemma AddOne(a: set<seq<int>>, x: seq<int>)
    ensures |a + {x}| <= |a| + 1
  {
    if x in a {
      assert a + {x} == a;
    }
  }

  lemma ChainSize(v: VPage)
    ensures ChainTo(v, 4) == {[]} + {Prefix(v, 1), Prefix(v, 2), Prefix(v, 3), Prefix(v, 4)}
  {
    hide Prefix;
    ChainNext(v, 0);
    ChainNext(v, 1);
    ChainNext(v, 2);
    ChainNext(v, 3);
    assert ChainTo(v, 0) == {Prefix(v, 0)};
    assert Prefix(v, 0) == [];
  }

  lemma PrefixIndex(v: VPage, w: VPage, depth: nat)
    requires depth <= 4
    ensures Prefix(v, depth) == Prefix(w, depth) <==> forall k: nat :: k < depth ==> v.Index(k) == w.Index(k)
  {
    if Prefix(v, depth) == Prefix(w, depth) {
      forall k: nat | k < depth
        ensures v.Index(k) == w.Index(k)
      {
        assert Prefix(v, depth)[k] == Prefix(w, depth)[k];
      }
    } else if forall k: nat :: k < depth ==> v.Index(k) == w.Index(k) {
      forall k: nat | k < depth
        ensures Prefix(v, depth)[k] == Prefix(w, depth)[k]
      {
        assert v.Index(k) == w.Index(k);
      }
      assert false;
    }
  }

  lemma {:induction false} SameTable(mem: Memory, root: int, v: VPage, w: VPage, depth: nat)
    requires depth < 4 && forall k: nat :: k < depth ==> v.Index(k) == w.Index(k)
    ensures TableAt(mem, root, v, depth) == TableAt(mem, root, w, depth)
  {
    if depth > 0 {
      SameTable(mem, root, v, w, depth - 1);
      assert v.Index(depth - 1) == w.Index(depth - 1);
    }
  }

  lemma SameFrame(mem: Memory, root: int, v: VPage, w: VPage, depth: nat)
    requires depth <= 4 && Prefix(v, depth) == Prefix(w, depth)
    ensures FrameAt(mem, root, v, depth) == FrameAt(mem, root, w, depth)
  {
    PrefixIndex(v, w, depth);
    if depth < 4 {
      SameTable(mem, root, v, w, depth);
    } else {
      assert v.Index(0) == w.Index(0) && v.Index(1) == w.Index(1);
      assert v.Index(2) == w.Index(2) && v.Index(3) == w.Index(3);
    }
  }

  /** A name is there exactly if its indices lead to a frame. */
  lemma NodeIs(mem: Memory, root: int, v: VPage, depth: nat)
    requires v.Valid() && depth <= 4
    ensures Prefix(v, depth) in Nodes(mem, root) <==> FrameAt(mem, root, v, depth).Some?
  {
    hide FrameAt, Prefix, AllPages;
    AllPagesValid(v);
    if Prefix(v, depth) in Nodes(mem, root) {
      var w, d: nat :| w in AllPages() && d <= 4 && FrameAt(mem, root, w, d).Some? && Prefix(w, d) == Prefix(v, depth);
      assert |Prefix(w, d)| == |Prefix(v, depth)|;
      SameFrame(mem, root, v, w, depth);
    }
  }

  lemma NodesSame(m0: Memory, m1: Memory, root: int)
    requires forall v: VPage, d: nat :: v.Valid() && d <= 4 ==>
               (FrameAt(m1, root, v, d).Some? <==> FrameAt(m0, root, v, d).Some?)
    ensures Nodes(m1, root) == Nodes(m0, root)
  {
    hide FrameAt, Prefix, AllPages;
    forall v | v in AllPages()
      ensures v.Valid()
    {
      AllPagesValid(v);
    }
  }

  /** Hanging a frame under the table that `v` leads to adds its name, and no other. */
  lemma GraftNodes(mem: Memory, root: int, sh: Shadow, i: int, e: Pte, frame: Frame, v: VPage, depth: nat)
    requires v.Valid() && depth < 4 && TableAt(mem, root, v, depth).Some? && i == v.Index(depth)
    requires CanGraft(mem, root, sh, TableAt(mem, root, v, depth).value, i, e, frame)
    ensures var f := TableAt(mem, root, v, depth).value;
            && Prefix(v, depth + 1) !in Nodes(mem, root)
            && Nodes(Graft(mem, f, i, e, frame), root) == Nodes(mem, root) + {Prefix(v, depth + 1)}
  {
    hide Prefix, AllPages, TableAt, Nodes;
    var f := TableAt(mem, root, v, depth).value;
    var now := Graft(mem, f, i, e, frame);
    hide Graft, Tree;
    forall w: VPage, d: nat | w.Valid() && d <= 4
      ensures FrameAt(now, root, w, d).Some? <==>
              FrameAt(mem, root, w, d).Some? || (d == depth + 1 && Prefix(w, d) == Prefix(v, d))
      ensures d == depth + 1 && Prefix(w, d) == Prefix(v, d) ==> FrameAt(mem, root, w, d).None?
    {
      GraftFrame(mem, root, sh, i, e, frame, v, depth, w, d);
    }
    NodesPlus(mem, now, root, v, depth + 1);
    NodeIs(mem, root, v, depth + 1);
  }

  lemma NodesPlus(m0: Memory, m1: Memory, root: int, v: VPage, depth: nat)
    requires v.Valid() && depth <= 4
    requires forall w: VPage, d: nat :: w.Valid() && d <= 4 ==>
               (FrameAt(m1, root, w, d).Some? <==>
                FrameAt(m0, root, w, d).Some? || (d == depth && Prefix(w, d) == Prefix(v, d)))
    ensures Nodes(m1, root) == Nodes(m0, root) + {Prefix(v, depth)}
  {
    hide FrameAt, Prefix, AllPages;
    AllPagesValid(v);
    forall w | w in AllPages()
      ensures w.Valid()
    {
      AllPagesValid(w);
    }
  }

  lemma GraftFrame(mem: Memory, root: int, sh: Shadow, i: int, e: Pte, frame: Frame, v: VPage, depth: nat,
                   w: VPage, d: nat)
    requires v.Valid() && depth < 4 && TableAt(mem, root, v, depth).Some? && i == v.Index(depth)
    requires CanGraft(mem, root, sh, TableAt(mem, root, v, depth).value, i, e, frame)
    requires w.Valid() && d <= 4
    ensures var now := Graft(mem, TableAt(mem, root, v, depth).value, i, e, frame);
            && (FrameAt(now, root, w, d).Some? <==>
                FrameAt(mem, root, w, d).Some? || (d == depth + 1 && Prefix(w, d) == Prefix(v, d)))
            && (d == depth + 1 && Prefix(w, d) == Prefix(v, d) ==> FrameAt(mem, root, w, d).None?)
  {
    hide Graft, Tree, TableAt, Prefix;
    var f := TableAt(mem, root, v, depth).value;
    WalkLevel(mem, root, sh, v, depth);
    if d > 0 {
      WalkLevel(mem, root, sh, w, d - 1);
      SameSlot(mem, root, sh, v, depth, w, d);
    }
    if d < 4 {
      GraftWalk(mem, root, sh, f, i, e, frame, w, d);
    } else {
      GraftLeaf(mem, root, sh, f, i, e, frame, w);
    }
  }

  /** Two pages go through the same entry of the same table exactly if they agree that far. */
  lemma SameSlot(mem: Memory, root: int, sh: Shadow, v: VPage, depth: nat, w: VPage, d: nat)
    requires Tree(mem, root, sh) && v.Valid() && w.Valid() && depth < 4 && 0 < d <= 4
    requires TableAt(mem, root, v, depth).Some?
    ensures TableAt(mem, root, w, d - 1) == TableAt(mem, root, v, depth) && w.Index(d - 1) == v.Index(depth) <==>
            d == depth + 1 && Prefix(w, d) == Prefix(v, d)
  {
    hide Tree, TableAt, Prefix;
    WalkLevel(mem, root, sh, v, depth);
    WalkLevel(mem, root, sh, w, d - 1);
    PrefixIndex(w, v, d);
    if d == depth + 1 {
      if TableAt(mem, root, w, depth) == TableAt(mem, root, v, depth) && w.Index(depth) == v.Index(depth) {
        WalkUnique(mem, root, sh, v, w, depth);
      } else if Prefix(w, d) == Prefix(v, d) {
        SameTable(mem, root, w, v, depth);
      }
    }
  }

  /** Rewriting the flags of a page's entry moves no node. */
  lemma RetagNodes(mem: Memory, root: int, sh: Shadow, table: int, e: Pte, v: VPage)
    requires CanRetag(mem, root, sh, table, v.i1, e) && v.Valid() && TableAt(mem, root, v, 3) == Some(table)
    requires table in mem && mem[table].Table? && 0 <= v.i1 < |mem[table].entries|
    ensures Nodes(SetEntry(mem, table, v.i1, e), root) == Nodes(mem, root)
  {
    hide Tree, TableAt, Nodes;
    var now := SetEntry(mem, table, v.i1, e);
    forall w: VPage, d: nat | w.Valid() && d <= 4
      ensures FrameAt(now, root, w, d).Some? <==> FrameAt(mem, root, w, d).Some?
    {
      RetagWalk(mem, root, sh, table, v.i1, e, w, if d < 4 then d else 3);
    }
    NodesSame(mem, now, root);
  }

  lemma KeepsNodes(m0: Memory, m1: Memory, root: int)
    requires forall g, j :: Entry(m1, g, j) == Entry(m0, g, j)
    ensures Nodes(m1, root) == Nodes(m0, root)
  {
    hide TableAt, Entry, Nodes;
    forall v: VPage, d: nat | v.Valid() && d <= 4
      ensures FrameAt(m1, root, v, d).Some? <==> FrameAt(m0, root, v, d).Some?
    {
      SameEntriesSameWalk(m0, m1, root, v, if d < 4 then d else 3);
    }
    NodesSame(m0, m1, root);
  }

  /** A root with nothing below it. */
  lemma RootAlone(mem: Memory, root: int)
    requires forall k :: 0 <= k < USER_ENTRIES ==> Entry(mem, root, k) == ABSENT
    ensures Nodes(mem, root) == {[]}
  {
    hide AllPages;
    forall v, d: nat | v in AllPages() && d <= 4
      ensures FrameAt(mem, root, v, d).Some? <==> d == 0
    {
      AllPagesValid(v);
      NothingBelow(mem, root, v, if d < 4 then d else 3);
    }
    var v := VPage(0, 0, 0, 0);
    AllPagesValid(v);
    assert FrameAt(mem, root, v, 0).Some? && Prefix(v, 0) == [];
  }

  lemma {:induction false} NothingBelow(mem: Memory, root: int, v: VPage, depth: nat)
    requires v.Valid() && depth < 4 && forall k :: 0 <= k < USER_ENTRIES ==> Entry(mem, root, k) == ABSENT
    ensures TableAt(mem, root, v, depth).Some? <==> depth == 0
  {
    if depth > 0 {
      NothingBelow(mem, root, v, depth - 1);
    }
  }

  lemma ChainNext(v: VPage, depth: nat)
    requires depth < 4
    ensures ChainTo(v, depth + 1) == ChainTo(v, depth) + {Prefix(v, depth + 1)}
  {
    hide Prefix;
  }

  lemma ChainStart(mem: Memory, root: int, v: VPage)
    requires v.Valid()
    ensures Nodes(mem, root) + ChainTo(v, 0) == Nodes(mem, root)
  {
    hide Prefix, Nodes;
    NodeIs(mem, root, v, 0);
  }

  lemma ChainGrows(v: VPage, depth: nat)
    requires depth <= 4
    ensures ChainTo(v, depth) <= ChainTo(v, 4)
  {
    hide Prefix;
  }

  /* ----- Counting ----- */

  /** Every owned frame is reached by some indices. */
  lemma {:induction false} FrameReached(mem: Memory, root: int, sh: Shadow, f: int) returns (v: VPage)
    requires Tree(mem, root, sh) && f in sh.level
    ensures v.Valid() && 0 <= sh.level[f] <= 4 && FrameAt(mem, root, v, 4 - sh.level[f]) == Some(f)
    decreases 4 - sh.level[f]
  {
    UnderLevel(mem, root, sh, f);
    if f == root {
      return VPage(0, 0, 0, 0);
    }
    assert PointedAt(mem, sh, f);
    var (g, i) := sh.up[f];
    assert EntryFits(mem, sh, g, i);
    UnderLevel(mem, root, sh, g);
    var w := FrameReached(mem, root, sh, g);
    v := Turn(w, 4 - sh.level[g], i);
    TurnKeeps(mem, root, w, 4 - sh.level[g], i);
  }

  /** `v` with another index at one depth. */
  function Turn(v: VPage, depth: nat, i: int): VPage
    requires depth < 4
  {
    if depth == 0 then v.(i4 := i) else if depth == 1 then v.(i3 := i) else if depth == 2 then v.(i2 := i)
    else v.(i1 := i)
  }

  lemma TurnKeeps(mem: Memory, root: int, v: VPage, depth: nat, i: int)
    requires depth < 4
    ensures Turn(v, depth, i).Index(depth) == i
    ensures TableAt(mem, root, Turn(v, depth, i), depth) == TableAt(mem, root, v, depth)
  {
    SameTable(mem, root, Turn(v, depth, i), v, depth);
  }

  /** The level of the frame that `depth` indices lead to, and that no other name leads there. */
  lemma FrameOnce(mem: Memory, root: int, sh: Shadow, v: VPage, d: nat, w: VPage, e: nat)
    requires Tree(mem, root, sh) && v.Valid() && w.Valid() && d <= 4 && e <= 4
    requires FrameAt(mem, root, v, d).Some?
    ensures FrameAt(mem, root, v, d).value in sh.level && sh.level[FrameAt(mem, root, v, d).value] == 4 - d
    ensures FrameAt(mem, root, w, e) == FrameAt(mem, root, v, d) ==> Prefix(w, e) == Prefix(v, d)
  {
    hide Tree, TableAt, Leaf, Prefix;
    FrameLevel(mem, root, sh, v, d);
    if FrameAt(mem, root, w, e) == FrameAt(mem, root, v, d) {
      FrameLevel(mem, root, sh, w, e);
      PrefixIndex(w, v, d);
      if d < 4 {
        WalkUnique(mem, root, sh, v, w, d);
      } else {
        LeafUnique(mem, root, sh, v, w);
      }
    }
  }

  lemma FrameLevel(mem: Memory, root: int, sh: Shadow, v: VPage, d: nat)
    requires Tree(mem, root, sh) && v.Valid() && d <= 4 && FrameAt(mem, root, v, d).Some?
    ensures FrameAt(mem, root, v, d).value in sh.level && sh.level[FrameAt(mem, root, v, d).value] == 4 - d
  {
    hide Tree, TableAt, Leaf;
    if d < 4 {
      WalkLevel(mem, root, sh, v, d);
    } else {
      LeafOwned(mem, root, sh, v);
    }
  }

  /** Sets that a one-to-one map takes onto each other have the same size. */
  lemma {:induction false} SameSize(a: set<seq<int>>, b: set<int>, m: map<seq<int>, int>)
    requires m.Keys == a && (forall x, y :: x in m && y in m && m[x] == m[y] ==> x == y)
    requires m.Values == b
    ensures |a| == |b|
    decreases |a|
  {
    if a == {} {
      assert m == map[];
    } else {
      var x :| x in a;
      var m' := m - {x};
      forall z
        ensures z in b - {m[x]} <==> z in m'.Values
      {
        if z in b - {m[x]} {
          var y :| y in m && m[y] == z;
          assert y in m' && m'[y] == z;
        }
      }
      assert m'.Keys == a - {x};
      SameSize(a - {x}, b - {m[x]}, m');
    }
  }

  /** A tree owns exactly as many frames as it has nodes. */
  lemma OwnedNodes(mem: Memory, root: int, sh: Shadow)
    requires Tree(mem, root, sh)
    ensures |sh.level.Keys| == |Nodes(mem, root)|
  {
    hide Tree, FrameAt, Prefix, AllPages;
    var m: map<seq<int>, int> := map n | n in Nodes(mem, root) :: FrameOfNode(mem, root, n);
    forall x, y | x in m && y in m && m[x] == m[y]
      ensures x == y
    {
      var v, d := NodeFrame(mem, root, x);
      var w, e := NodeFrame(mem, root, y);
      FrameOnce(mem, root, sh, v, d, w, e);
    }
    forall z
      ensures z in sh.level.Keys <==> z in m.Values
    {
      if z in sh.level {
        var v := FrameReached(mem, root, sh, z);
        NodeIs(mem, root, v, 4 - sh.level[z]);
        var n := Prefix(v, 4 - sh.level[z]);
        var w, e := NodeFrame(mem, root, n);
        SameFrame(mem, root, v, w, e);
        assert n in m && m[n] == z;
      }
      if x :| x in m && m[x] == z {
        var v, d := NodeFrame(mem, root, x);
        FrameOnce(mem, root, sh, v, d, v, d);
      }
    }
    SameSize(Nodes(mem, root), sh.level.Keys, m);
  }

  ghost function FrameOfNode(mem: Memory, root: int, n: seq<int>): int
    requires n in Nodes(mem, root)
  {
    var v, d: nat :| v in AllPages() && d <= 4 && FrameAt(mem, root, v, d).Some? && Prefix(v, d) == n;
    FrameAt(mem, root, v, d).value
  }

  lemma NodeFrame(mem: Memory, root: int, n: seq<int>) returns (v: VPage, d: nat)
    requires n in Nodes(mem, root)
    ensures v.Valid() && d <= 4 && Prefix(v, d) == n && d == |n|
    ensures FrameAt(mem, root, v, d) == Some(FrameOfNode(mem, root, n))
  {
    hide FrameAt, Prefix, AllPages;
    v, d :| v in AllPages() && d <= 4 && FrameAt(mem, root, v, d).Some? && Prefix(v, d) == n;
    AllPagesValid(v);
    var w, e: nat :| w in AllPages() && e <= 4 && FrameAt(mem, root, w, e).Some? && Prefix(w, e) == n
                     && FrameAt(mem, root, w, e).value == FrameOfNode(mem, root, n);
    SameFrame(mem, root, v, w, d);
  }
}
