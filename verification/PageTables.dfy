/**
 Four-level page tables in physical memory (Intel SDM Vol. 3A, section 4.5), as values:
 what it means for the user half to be a tree, how an address is walked, and what the
 elementary changes made by the image builder do to the tree and to the walk.
 */
module PageTables {
  import opened Bytes

  const ENTRIES: nat := 512
  const USER_ENTRIES: nat := 256
  const PAGE_BYTES: nat := 4096
  const USER_TOP: nat := 0x8000_0000_0000

  /** One entry; `frame` is the page number of the address it holds. */
  datatype Pte = Pte(present: bool, writable: bool, user: bool, large: bool, nx: bool, frame: int)

  const ABSENT: Pte := Pte(false, false, false, false, false, 0)

  /** The flags a caller of `map_user_page` passes. */
  datatype Flags = Flags(writable: bool, nx: bool)

  datatype Frame = Table(entries: seq<Pte>) | Page(bytes: seq<byte>)

  type Memory = map<int, Frame>

  /** A zeroed page seen as a table. */
  function EmptyTable(): (r: Frame)
    ensures r.Table? && |r.entries| == ENTRIES && forall i :: 0 <= i < ENTRIES ==> r.entries[i] == ABSENT
  {
    Table(seq(ENTRIES, _ => ABSENT))
  }

  function ZeroPage(): (r: Frame)
    ensures r.Page? && |r.bytes| == PAGE_BYTES
  {
    Page(Zeros(PAGE_BYTES))
  }

  /** The four table indices of a virtual address. */
  datatype VPage = VPage(i4: int, i3: int, i2: int, i1: int) {
    predicate Valid() {
      0 <= i4 < USER_ENTRIES && 0 <= i3 < ENTRIES && 0 <= i2 < ENTRIES && 0 <= i1 < ENTRIES
    }

    function Index(depth: nat): int
      requires depth < 4
    {
      if depth == 0 then i4 else if depth == 1 then i3 else if depth == 2 then i2 else i1
    }
  }

  function Indices(address: nat): VPage {
    VPage(address / 0x80_0000_0000 % ENTRIES, address / 0x4000_0000 % ENTRIES,
          address / 0x20_0000 % ENTRIES, address / 0x1000 % ENTRIES)
  }

  /* ----- Walking ----- */

  function Entry(mem: Memory, f: int, i: int): Pte {
    if f in mem && mem[f].Table? && 0 <= i < |mem[f].entries| then mem[f].entries[i] else ABSENT
  }

  function Child(mem: Memory, f: int, i: int): Option<int> {
    var e := Entry(mem, f, i);
    if e.present && !e.large then Some(e.frame) else None
  }

  /** The table reached after `depth` steps from the root. */
  function TableAt(mem: Memory, root: int, v: VPage, depth: nat): Option<int>
    requires depth < 4
  {
    if depth == 0 then Some(root)
    else match TableAt(mem, root, v, depth - 1)
      case None => None
      case Some(t) => Child(mem, t, v.Index(depth - 1))
  }

  /** The last-level entry of a virtual page, absent when the walk stops early. */
  function Leaf(mem: Memory, root: int, v: VPage): Pte {
    match TableAt(mem, root, v, 3)
    case None => ABSENT
    case Some(t) => Entry(mem, t, v.i1)
  }

  function PageByte(mem: Memory, f: int, offset: int): byte {
    if f in mem && mem[f].Page? && 0 <= offset < |mem[f].bytes| then mem[f].bytes[offset] else 0
  }

  /** The byte a program would see at a virtual address. */
  function VByte(mem: Memory, root: int, address: nat): Option<byte> {
    var leaf := Leaf(mem, root, Indices(address));
    if leaf.present then Some(PageByte(mem, leaf.frame, address % PAGE_BYTES)) else None
  }

  /* ----- The tree ----- */

  /** The owned frames with their levels (4 the root, 0 a page), and the entry that points at each. */
  datatype Shadow = Shadow(level: map<int, int>, up: map<int, (int, int)>)

  function Limit(level: int): int {
    if level == 4 then USER_ENTRIES else ENTRIES
  }

  ghost predicate FrameFits(frame: Frame, level: int) {
    if level == 0 then frame.Page? && |frame.bytes| == PAGE_BYTES
    else frame.Table? && |frame.entries| == ENTRIES
  }

  ghost predicate OwnsFrames(mem: Memory, root: int, sh: Shadow) {
    && root in sh.level && sh.level[root] == 4
    && (forall f :: f in sh.level ==>
          && f in mem && 0 <= sh.level[f] <= 4 && FrameFits(mem[f], sh.level[f])
          && (sh.level[f] == 4 ==> f == root))
  }

  /** What every present entry of an owned table must look like. */
  ghost predicate EntryFits(mem: Memory, sh: Shadow, f: int, i: int)
    requires f in sh.level
  {
    var e := Entry(mem, f, i);
    e.present ==>
      && !e.large && e.user
      && e.frame in sh.level && sh.level[e.frame] == sh.level[f] - 1
      && e.frame in sh.up && sh.up[e.frame] == (f, i)
  }

  /** Each present entry points down to a frame of its own, and every owned frame is pointed at. */
  ghost predicate Tree(mem: Memory, root: int, sh: Shadow) {
    && OwnsFrames(mem, root, sh)
    && (forall f, i :: f in sh.level && sh.level[f] > 0 && 0 <= i < Limit(sh.level[f]) ==> EntryFits(mem, sh, f, i))
    && (forall c :: c in sh.level && c != root ==> PointedAt(mem, sh, c))
  }

  ghost predicate PointedAt(mem: Memory, sh: Shadow, c: int) {
    && c in sh.up
    && var (f, i) := sh.up[c];
    && f in sh.level && sh.level[f] > 0 && 0 <= i < Limit(sh.level[f])
    && Entry(mem, f, i).present && Entry(mem, f, i).frame == c
  }

  /* ----- Walks in a tree ----- */

  lemma {:induction false} WalkLevel(mem: Memory, root: int, sh: Shadow, v: VPage, depth: nat)
    requires Tree(mem, root, sh) && v.Valid() && depth < 4
    ensures var t := TableAt(mem, root, v, depth);
            t.Some? ==> t.value in sh.level && sh.level[t.value] == 4 - depth
  {
    if depth > 0 {
      WalkLevel(mem, root, sh, v, depth - 1);
      var t := TableAt(mem, root, v, depth - 1);
      if t.Some? {
        assert EntryFits(mem, sh, t.value, v.Index(depth - 1));
      }
    }
  }

  /** Two walks that meet took the same steps. */
  lemma {:induction false} WalkUnique(mem: Memory, root: int, sh: Shadow, v: VPage, w: VPage, depth: nat)
    requires Tree(mem, root, sh) && v.Valid() && w.Valid() && depth < 4
    requires TableAt(mem, root, v, depth).Some?
    requires TableAt(mem, root, v, depth) == TableAt(mem, root, w, depth)
    ensures forall k :: 0 <= k < depth ==> v.Index(k) == w.Index(k)
  {
    if depth > 0 {
      WalkLevel(mem, root, sh, v, depth - 1);
      WalkLevel(mem, root, sh, w, depth - 1);
      var t, u := TableAt(mem, root, v, depth - 1).value, TableAt(mem, root, w, depth - 1).value;
      assert EntryFits(mem, sh, t, v.Index(depth - 1)) && EntryFits(mem, sh, u, w.Index(depth - 1));
      WalkUnique(mem, root, sh, v, w, depth - 1);
    }
  }

  /** A present leaf is an owned page, and distinct virtual pages never share one. */
  lemma LeafOwned(mem: Memory, root: int, sh: Shadow, v: VPage)
    requires Tree(mem, root, sh) && v.Valid() && Leaf(mem, root, v).present
    ensures var e := Leaf(mem, root, v);
            && !e.large && e.user && e.frame in sh.level && sh.level[e.frame] == 0
            && e.frame in mem && FrameFits(mem[e.frame], 0)
  {
    WalkLevel(mem, root, sh, v, 3);
    assert EntryFits(mem, sh, TableAt(mem, root, v, 3).value, v.i1);
  }

  lemma LeafUnique(mem: Memory, root: int, sh: Shadow, v: VPage, w: VPage)
    requires Tree(mem, root, sh) && v.Valid() && w.Valid()
    requires Leaf(mem, root, v).present && Leaf(mem, root, w).present
    requires Leaf(mem, root, v).frame == Leaf(mem, root, w).frame
    ensures v == w
  {
    WalkLevel(mem, root, sh, v, 3);
    WalkLevel(mem, root, sh, w, 3);
    assert EntryFits(mem, sh, TableAt(mem, root, v, 3).value, v.i1);
    assert EntryFits(mem, sh, TableAt(mem, root, w, 3).value, w.i1);
    WalkUnique(mem, root, sh, v, w, 3);
    assert v.Index(0) == w.Index(0) && v.Index(1) == w.Index(1) && v.Index(2) == w.Index(2);
  }

  /* ----- Elementary changes ----- */

  function SetEntry(mem: Memory, f: int, i: int, e: Pte): (r: Memory)
    requires f in mem && mem[f].Table? && 0 <= i < |mem[f].entries|
    ensures r.Keys == mem.Keys && r[f].Table? && |r[f].entries| == |mem[f].entries|
    ensures forall g :: g in mem && g != f ==> r[g] == mem[g]
    ensures forall g, j :: Entry(r, g, j) == if g == f && j == i then e else Entry(mem, g, j)
  {
    mem[f := Table(mem[f].entries[i := e])]
  }

  ghost predicate Slot(sh: Shadow, f: int, i: int) {
    f in sh.level && sh.level[f] > 0 && 0 <= i < Limit(sh.level[f])
  }

  lemma SlotFits(mem: Memory, root: int, sh: Shadow, f: int, i: int)
    requires Tree(mem, root, sh) && Slot(sh, f, i)
    ensures EntryFits(mem, sh, f, i)
  {
  }

  /** A frame with nothing below it yet. */
  ghost predicate Blank(frame: Frame, level: int) {
    FrameFits(frame, level) && (frame.Table? ==> frame == EmptyTable())
  }

  /** A fresh frame `c` hung under the free slot `(f, i)`. */
  function Graft(mem: Memory, f: int, i: int, e: Pte, frame: Frame): (r: Memory)
    requires f in mem && mem[f].Table? && 0 <= i < |mem[f].entries|
  {
    SetEntry(mem, f, i, e)[e.frame := frame]
  }

  function GraftShadow(sh: Shadow, f: int, i: int, c: int): Shadow
    requires f in sh.level
  {
    Shadow(sh.level[c := sh.level[f] - 1], sh.up[c := (f, i)])
  }

  ghost predicate CanGraft(mem: Memory, root: int, sh: Shadow, f: int, i: int, e: Pte, frame: Frame) {
    && Tree(mem, root, sh) && Slot(sh, f, i) && !Entry(mem, f, i).present
    && e.present && e.user && !e.large && e.frame !in sh.level
    && Blank(frame, sh.level[f] - 1)
  }

  lemma GraftEntry(mem: Memory, root: int, sh: Shadow, f: int, i: int, e: Pte, frame: Frame, g: int, j: int)
    requires CanGraft(mem, root, sh, f, i, e, frame)
    ensures Entry(Graft(mem, f, i, e, frame), g, j) ==
            if g == e.frame then ABSENT else if g == f && j == i then e else Entry(mem, g, j)
  {
  }

  lemma GraftKeepsTree(mem: Memory, root: int, sh: Shadow, f: int, i: int, e: Pte, frame: Frame)
    requires CanGraft(mem, root, sh, f, i, e, frame)
    ensures Tree(Graft(mem, f, i, e, frame), root, GraftShadow(sh, f, i, e.frame))
  {
    var mem', sh', c := Graft(mem, f, i, e, frame), GraftShadow(sh, f, i, e.frame), e.frame;
    assert OwnsFrames(mem', root, sh');
    forall g, j | g in sh'.level && sh'.level[g] > 0 && 0 <= j < Limit(sh'.level[g])
      ensures EntryFits(mem', sh', g, j)
    {
      GraftEntry(mem, root, sh, f, i, e, frame, g, j);
      if g != c && !(g == f && j == i) {
        assert EntryFits(mem, sh, g, j);
      }
    }
    forall d | d in sh'.level && d != root
      ensures PointedAt(mem', sh', d)
    {
      GraftEntry(mem, root, sh, f, i, e, frame, sh'.up[d].0, sh'.up[d].1);
      if d != c {
        assert PointedAt(mem, sh, d);
      }
    }
  }

  /** A grafted table changes no walk, except that the one through its slot now ends in it. */
  lemma {:induction false} GraftWalk(mem: Memory, root: int, sh: Shadow, f: int, i: int, e: Pte, frame: Frame,
                                     v: VPage, depth: nat)
    requires CanGraft(mem, root, sh, f, i, e, frame) && v.Valid() && depth < 4
    ensures var was, now := TableAt(mem, root, v, depth), TableAt(Graft(mem, f, i, e, frame), root, v, depth);
            if depth > 0 && TableAt(mem, root, v, depth - 1) == Some(f) && v.Index(depth - 1) == i
            then was == None && now == Some(e.frame)
            else now == was
  {
    if depth > 0 {
      hide Graft, Tree;
      GraftWalk(mem, root, sh, f, i, e, frame, v, depth - 1);
      WalkLevel(mem, root, sh, v, depth - 1);
      var t := TableAt(Graft(mem, f, i, e, frame), root, v, depth - 1);
      if t.Some? {
        GraftEntry(mem, root, sh, f, i, e, frame, t.value, v.Index(depth - 1));
      }
    }
  }

  /** Grafting shows at the leaves only when a page is grafted, and only at its own slot. */
  lemma GraftLeaf(mem: Memory, root: int, sh: Shadow, f: int, i: int, e: Pte, frame: Frame, v: VPage)
    requires CanGraft(mem, root, sh, f, i, e, frame) && v.Valid()
    ensures var was, now := Leaf(mem, root, v), Leaf(Graft(mem, f, i, e, frame), root, v);
            if TableAt(mem, root, v, 3) == Some(f) && v.i1 == i then !was.present && now == e
            else now == was
  {
    GraftWalk(mem, root, sh, f, i, e, frame, v, 3);
    WalkLevel(mem, root, sh, v, 3);
    var t := TableAt(Graft(mem, f, i, e, frame), root, v, 3);
    if t.Some? {
      GraftEntry(mem, root, sh, f, i, e, frame, t.value, v.i1);
    }
  }

  /** An entry rewritten with other permissions but the same frame. */
  ghost predicate CanRetag(mem: Memory, root: int, sh: Shadow, f: int, i: int, e: Pte) {
    && Tree(mem, root, sh) && Slot(sh, f, i) && Entry(mem, f, i).present
    && e.present && e.user && !e.large && e.frame == Entry(mem, f, i).frame
  }

  lemma RetagKeepsTree(mem: Memory, root: int, sh: Shadow, f: int, i: int, e: Pte)
    requires CanRetag(mem, root, sh, f, i, e)
    ensures f in mem && mem[f].Table? && 0 <= i < |mem[f].entries|
    ensures Tree(SetEntry(mem, f, i, e), root, sh)
  {
    var mem' := SetEntry(mem, f, i, e);
    forall g, j | g in sh.level && sh.level[g] > 0 && 0 <= j < Limit(sh.level[g])
      ensures EntryFits(mem', sh, g, j)
    {
      assert EntryFits(mem, sh, g, j);
    }
    forall d | d in sh.level && d != root
      ensures PointedAt(mem', sh, d)
    {
      assert PointedAt(mem, sh, d);
    }
  }

  lemma {:induction false} RetagWalk(mem: Memory, root: int, sh: Shadow, f: int, i: int, e: Pte, v: VPage, depth: nat)
    requires CanRetag(mem, root, sh, f, i, e) && v.Valid() && depth < 4
    requires f in mem && mem[f].Table? && 0 <= i < |mem[f].entries|
    ensures TableAt(SetEntry(mem, f, i, e), root, v, depth) == TableAt(mem, root, v, depth)
  {
    assert EntryFits(mem, sh, f, i);
    if depth > 0 {
      RetagWalk(mem, root, sh, f, i, e, v, depth - 1);
    }
  }

  /** Writing a page's bytes moves nothing. */
  function SetBytes(mem: Memory, f: int, offset: nat, data: seq<byte>): (r: Memory)
    requires f in mem && mem[f].Page? && offset + |data| <= |mem[f].bytes|
    ensures r.Keys == mem.Keys
    ensures forall g :: g in mem && g != f ==> r[g] == mem[g]
    ensures forall g, j :: Entry(r, g, j) == Entry(mem, g, j)
    ensures forall o :: offset <= o < offset + |data| ==> PageByte(r, f, o) == data[o - offset]
    ensures forall g, o :: g != f || !(offset <= o < offset + |data|) ==> PageByte(r, g, o) == PageByte(mem, g, o)
  {
    mem[f := Page(Splice(mem[f].bytes, offset, data))]
  }

  lemma SetBytesKeepsTree(mem: Memory, root: int, sh: Shadow, f: int, offset: nat, data: seq<byte>)
    requires Tree(mem, root, sh) && f in sh.level && sh.level[f] == 0
    requires f in mem && mem[f].Page? && offset + |data| <= |mem[f].bytes|
    ensures Tree(SetBytes(mem, f, offset, data), root, sh)
  {
    var mem' := SetBytes(mem, f, offset, data);
    forall g, j | g in sh.level && sh.level[g] > 0 && 0 <= j < Limit(sh.level[g])
      ensures EntryFits(mem', sh, g, j)
    {
      assert EntryFits(mem, sh, g, j);
    }
    forall d | d in sh.level && d != root
      ensures PointedAt(mem', sh, d)
    {
      assert PointedAt(mem, sh, d);
    }
  }

  lemma {:induction false} SameEntriesSameWalk(mem: Memory, mem': Memory, root: int, v: VPage, depth: nat)
    requires depth < 4 && forall g, j :: Entry(mem', g, j) == Entry(mem, g, j)
    ensures TableAt(mem', root, v, depth) == TableAt(mem, root, v, depth)
  {
    if depth > 0 {
      SameEntriesSameWalk(mem, mem', root, v, depth - 1);
    }
  }

  /* ----- Subtrees ----- */

  /** The frames the tear-down visits below and including `f`. */
  ghost function Subtree(mem: Memory, f: int, level: nat): set<int>
    decreases level, ENTRIES + 1
  {
    if level == 0 then {f} else {f} + Branches(mem, f, level, Limit(level))
  }

  /** The subtrees under the first `n` entries of `f`. */
  ghost function Branches(mem: Memory, f: int, level: nat, n: nat): set<int>
    requires 0 < level && n <= ENTRIES
    decreases level, n
  {
    if n == 0 then {}
    else
      var e := Entry(mem, f, n - 1);
      Branches(mem, f, level, n - 1) + if e.present then Subtree(mem, e.frame, level - 1) else {}
  }

  /** The ancestor of `x` at the given level. */
  ghost function Ancestor(mem: Memory, root: int, sh: Shadow, x: int, level: int): int
    requires Tree(mem, root, sh) && x in sh.level && sh.level[x] <= level <= 4
    decreases level - sh.level[x]
  {
    if sh.level[x] == level then x
    else
      assert PointedAt(mem, sh, x);
      assert EntryFits(mem, sh, sh.up[x].0, sh.up[x].1);
      Ancestor(mem, root, sh, sh.up[x].0, level)
  }

  /** `x` lies under `f`. */
  ghost predicate Under(mem: Memory, root: int, sh: Shadow, x: int, f: int)
    requires Tree(mem, root, sh) && f in sh.level
  {
    x in sh.level && sh.level[x] <= sh.level[f] && Ancestor(mem, root, sh, x, sh.level[f]) == f
  }

  lemma UnderLevel(mem: Memory, root: int, sh: Shadow, f: int)
    requires Tree(mem, root, sh) && f in sh.level
    ensures 0 <= sh.level[f] <= 4
  {
  }

  /** `x` is under `f` and not `f` itself: it is under the child that its ancestor chain passes. */
  lemma {:induction false} AncestorStep(mem: Memory, root: int, sh: Shadow, x: int, level: int)
    requires Tree(mem, root, sh) && x in sh.level && sh.level[x] < level <= 4
    ensures var y := Ancestor(mem, root, sh, x, level - 1);
            && y in sh.level && sh.level[y] == level - 1 && PointedAt(mem, sh, y)
            && sh.up[y].0 == Ancestor(mem, root, sh, x, level)
            && sh.up[y].0 in sh.level && sh.level[sh.up[y].0] == level
    decreases level - sh.level[x]
  {
    assert PointedAt(mem, sh, x);
    assert EntryFits(mem, sh, sh.up[x].0, sh.up[x].1);
    if sh.level[x] < level - 1 {
      AncestorStep(mem, root, sh, sh.up[x].0, level);
    }
  }

  /** The visited frames are exactly the ones under `f`. */
  lemma {:induction false} SubtreeIsUnder(mem: Memory, root: int, sh: Shadow, f: int, x: int)
    requires Tree(mem, root, sh) && f in sh.level
    ensures x in Subtree(mem, f, (UnderLevel(mem, root, sh, f); sh.level[f])) <==> Under(mem, root, sh, x, f)
    decreases (UnderLevel(mem, root, sh, f); sh.level[f]), ENTRIES + 1
  {
    UnderLevel(mem, root, sh, f);
    var level := sh.level[f];
    if level > 0 {
      BranchesAreUnder(mem, root, sh, f, Limit(level), x);
      if x in sh.level && sh.level[x] < level {
        AncestorStep(mem, root, sh, x, level);
      } else if x in sh.level {
        UnderLevel(mem, root, sh, x);
      }
    } else if x in sh.level {
      UnderLevel(mem, root, sh, x);
    }
  }

  lemma {:induction false} BranchesAreUnder(mem: Memory, root: int, sh: Shadow, f: int, n: nat, x: int)
    requires Tree(mem, root, sh) && f in sh.level && 0 < sh.level[f] && n <= Limit(sh.level[f])
    ensures x in Branches(mem, f, sh.level[f], n) <==>
              && x in sh.level && sh.level[x] < sh.level[f]
              && (UnderLevel(mem, root, sh, f); Ancestor(mem, root, sh, x, sh.level[f]) == f)
              && var y := Ancestor(mem, root, sh, x, sh.level[f] - 1); y in sh.up && sh.up[y].1 < n
    decreases sh.level[f], n
  {
    hide Ancestor, Subtree, Tree, Entry, Limit;
    UnderLevel(mem, root, sh, f);
    var level := sh.level[f];
    if x in sh.level && sh.level[x] < level {
      AncestorStep(mem, root, sh, x, level);
    }
    if n > 0 {
      BranchesAreUnder(mem, root, sh, f, n - 1, x);
      var e := Entry(mem, f, n - 1);
      if x in sh.level && sh.level[x] < level {
        SlotOwner(mem, root, sh, f, n - 1, x);
      }
      if e.present {
        SlotFrame(mem, root, sh, f, n - 1);
        SubtreeIsUnder(mem, root, sh, e.frame, x);
      }
    }
  }

  lemma SlotFrame(mem: Memory, root: int, sh: Shadow, f: int, i: nat)
    requires Tree(mem, root, sh) && f in sh.level && 0 < sh.level[f]
    requires i < Limit(sh.level[f]) && Entry(mem, f, i).present
    ensures var c := Entry(mem, f, i).frame;
            c in sh.level && sh.level[c] == sh.level[f] - 1 && c in sh.up && sh.up[c] == (f, i)
  {
    assert EntryFits(mem, sh, f, i);
  }

  /** The ancestor of `x` one level below `f` hangs in slot `i` exactly if it is the frame that slot holds. */
  lemma SlotOwner(mem: Memory, root: int, sh: Shadow, f: int, i: nat, x: int)
    requires Tree(mem, root, sh) && f in sh.level && 0 < sh.level[f] <= 4 && i < Limit(sh.level[f])
    requires x in sh.level && sh.level[x] < sh.level[f]
    ensures var level, e := sh.level[f], Entry(mem, f, i);
            var y := Ancestor(mem, root, sh, x, level - 1);
            && (Ancestor(mem, root, sh, x, level) == f ==>
                y in sh.up && (sh.up[y].1 == i <==> e.present && e.frame == y))
            && (e.present && e.frame == y ==> Ancestor(mem, root, sh, x, level) == f)
  {
    hide Ancestor, Tree, Limit, Entry;
    AncestorStep(mem, root, sh, x, sh.level[f]);
    if Entry(mem, f, i).present {
      SlotFrame(mem, root, sh, f, i);
    }
  }

  lemma BranchesApart(mem: Memory, root: int, sh: Shadow, f: int, n: nat, x: int)
    requires Tree(mem, root, sh) && f in sh.level && 0 < sh.level[f] && n < Limit(sh.level[f])
    requires Entry(mem, f, n).present && x in Subtree(mem, Entry(mem, f, n).frame, sh.level[f] - 1)
    ensures x !in Branches(mem, f, sh.level[f], n)
  {
    hide Tree, Branches, Subtree, Ancestor;
    var c := Entry(mem, f, n).frame;
    SlotFits(mem, root, sh, f, n);
    SubtreeIsUnder(mem, root, sh, c, x);
    BranchesAreUnder(mem, root, sh, f, n, x);
  }

  /** No frame is visited twice. */
  lemma BranchesDisjoint(mem: Memory, root: int, sh: Shadow, f: int, n: nat)
    requires Tree(mem, root, sh) && f in sh.level && 0 < sh.level[f] && n < Limit(sh.level[f])
    requires Entry(mem, f, n).present
    ensures Branches(mem, f, sh.level[f], n) !! Subtree(mem, Entry(mem, f, n).frame, sh.level[f] - 1)
  {
    hide Tree, Branches, Subtree;
    forall x | x in Subtree(mem, Entry(mem, f, n).frame, sh.level[f] - 1)
      ensures x !in Branches(mem, f, sh.level[f], n)
    {
      BranchesApart(mem, root, sh, f, n, x);
    }
  }

  lemma RootNotInBranches(mem: Memory, root: int, sh: Shadow, f: int, n: nat)
    requires Tree(mem, root, sh) && f in sh.level && 0 < sh.level[f] && n <= Limit(sh.level[f])
    ensures f !in Branches(mem, f, sh.level[f], n)
  {
    BranchesAreUnder(mem, root, sh, f, n, f);
  }

  /** From the root, the tear-down visits every owned frame and nothing else. */
  lemma SubtreeOfRoot(mem: Memory, root: int, sh: Shadow)
    requires Tree(mem, root, sh)
    ensures Subtree(mem, root, 4) == sh.level.Keys
  {
    forall x
      ensures x in Subtree(mem, root, 4) <==> x in sh.level
    {
      SubtreeIsUnder(mem, root, sh, root, x);
      if x in sh.level && sh.level[x] < 4 {
        AncestorStep(mem, root, sh, x, 4);
      }
    }
  }

  /* ----- Virtual bytes ----- */

  lemma SamePage(at: nat, k: nat)
    requires at % PAGE_BYTES + k < PAGE_BYTES
    ensures Indices(at + k) == Indices(at) && (at + k) % PAGE_BYTES == at % PAGE_BYTES + k
    ensures (at + k) / PAGE_BYTES == at / PAGE_BYTES
  {
    hide Indices;
    SameQuotient(at, k);
    IndicesOfPage(at, at / PAGE_BYTES);
    IndicesOfPage(at + k, at / PAGE_BYTES);
  }

  lemma SameQuotient(at: nat, k: nat)
    requires at % PAGE_BYTES + k < PAGE_BYTES
    ensures (at + k) / PAGE_BYTES == at / PAGE_BYTES && (at + k) % PAGE_BYTES == at % PAGE_BYTES + k
  {
  }

  lemma IndicesOfPage(at: nat, q: nat)
    requires q == at / PAGE_BYTES
    ensures Indices(at) == VPage(q / 0x800_0000 % ENTRIES, q / 0x4_0000 % ENTRIES, q / 0x200 % ENTRIES, q % ENTRIES)
  {
    PageQuotients(at);
  }

  /** The indices depend on the page number alone. */
  lemma PageQuotients(at: nat)
    ensures at / 0x80_0000_0000 == at / PAGE_BYTES / 0x800_0000
    ensures at / 0x4000_0000 == at / PAGE_BYTES / 0x4_0000
    ensures at / 0x20_0000 == at / PAGE_BYTES / 0x200
  {
  }

  lemma SameIndices(a: nat, b: nat)
    requires a < USER_TOP && b < USER_TOP && Indices(a) == Indices(b)
    ensures a / PAGE_BYTES == b / PAGE_BYTES
  {
    PageQuotients(a);
    PageQuotients(b);
    IndexDigits(a / PAGE_BYTES);
    IndexDigits(b / PAGE_BYTES);
  }

  lemma IndexDigits(q: nat)
    requires q < 0x8_0000_0000
    ensures q == q / 0x800_0000 % 512 * 0x800_0000 + q / 0x4_0000 % 512 * 0x4_0000 + q / 0x200 % 512 * 0x200 + q % 512
  {
    var a := q / 512;
    var b := a / 512;
    assert q == 512 * a + q % 512 && a == 512 * b + a % 512 && b == 512 * (b / 512) + b % 512;
    assert q / 0x4_0000 == b && q / 0x800_0000 == b / 512 < 512;
  }

  /** The indices are the nine bits from 39, 30, 21 and 12 on, and the rest is the offset in the page. */
  lemma AddressParts(a: nat)
    requires a < 0x8000_0000_0000
    ensures var v := Indices(a);
            a == v.i4 * 0x80_0000_0000 + v.i3 * 0x4000_0000 + v.i2 * 0x20_0000 + v.i1 * 0x1000 + a % 0x1000
    ensures var v := Indices(a); 0 <= v.i4 < 256 && 0 <= v.i3 < 512 && 0 <= v.i2 < 512 && 0 <= v.i1 < 512
  {
    PageQuotients(a);
    IndexDigits(a / PAGE_BYTES);
  }

  lemma UserIndices(a: nat)
    requires a < USER_TOP
    ensures Indices(a).Valid()
  {
  }

  /** Writing inside one mapped page changes the virtual bytes written and no others. */
  lemma SetBytesView(mem: Memory, root: int, sh: Shadow, at: nat, data: seq<byte>, a: nat)
    requires Tree(mem, root, sh) && at < USER_TOP && a < USER_TOP
    requires Leaf(mem, root, Indices(at)).present && at % PAGE_BYTES + |data| <= PAGE_BYTES
    ensures var f := Leaf(mem, root, Indices(at)).frame;
            && f in sh.level && sh.level[f] == 0 && f in mem && FrameFits(mem[f], 0)
            && var mem' := SetBytes(mem, f, at % PAGE_BYTES, data);
            && Leaf(mem', root, Indices(a)) == Leaf(mem, root, Indices(a))
            && VByte(mem', root, a) == if at <= a < at + |data| then Some(data[a - at]) else VByte(mem, root, a)
  {
    hide Tree, Indices, SetBytes;
    UserIndices(at);
    UserIndices(a);
    LeafOwned(mem, root, sh, Indices(at));
    var f := Leaf(mem, root, Indices(at)).frame;
    var mem' := SetBytes(mem, f, at % PAGE_BYTES, data);
    SameEntriesSameWalk(mem, mem', root, Indices(a), 3);
    if at <= a < at + |data| {
      SamePage(at, a - at);
    } else if Leaf(mem, root, Indices(a)).present && Leaf(mem, root, Indices(a)).frame == f {
      LeafUnique(mem, root, sh, Indices(at), Indices(a));
      SameIndices(at, a);
    }
  }

  /** Every byte of the range is mapped. */
  ghost predicate RangeMapped(mem: Memory, root: int, address: nat, size: nat) {
    size == 0 || (address + size <= USER_TOP && forall a :: address <= a < address + size ==> VByte(mem, root, a).Some?)
  }

  /** `data` written at `address`, everything else as before. */
  ghost predicate Written(mem: Memory, mem': Memory, root: int, address: nat, data: seq<byte>) {
    forall a :: 0 <= a < USER_TOP ==>
      VByte(mem', root, a) == if address <= a < address + |data| then Some(data[a - address]) else VByte(mem, root, a)
  }
}
