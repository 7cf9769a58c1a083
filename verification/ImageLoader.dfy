/** Building a process image: segments, relative relocations and the initial stack. */
module ImageLoader {
  import opened Bytes
  import opened PageBitmap
  import opened PageTables
  import opened TableNodes
  import opened AddressSpaces
  import opened Segments

  /* ----- Steps seen through `See` ----- */

  /** Address `a` shows what `map_user_page` of the pages from `first` to `last` makes of it. */
  ghost predicate PagesMapped(m0: Memory, m1: Memory, root: int, first: nat, last: nat, flags: Flags) {
    forall a :: 0 <= a < USER_TOP ==>
      See(m1, root, a) == if first <= a < last then AfterMap(See(m0, root, a), flags) else See(m0, root, a)
  }

  ghost predicate BytesWritten(m0: Memory, m1: Memory, root: int, address: nat, data: seq<byte>) {
    forall a :: 0 <= a < USER_TOP ==>
      See(m1, root, a) ==
      if address <= a < address + |data| then AfterWrite(See(m0, root, a), data[a - address]) else See(m0, root, a)
  }

  lemma SeeSameLeaf(m0: Memory, root: int, sh: Shadow, m1: Memory, a: nat)
    requires Tree(m0, root, sh) && SamePages(m0, sh, m1) && a < USER_TOP
    requires Leaf(m1, root, Indices(a)) == Leaf(m0, root, Indices(a))
    ensures See(m1, root, a) == See(m0, root, a)
  {
    hide Tree, Indices, Leaf;
    UserIndices(a);
    if Leaf(m0, root, Indices(a)).present {
      LeafOwned(m0, root, sh, Indices(a));
    }
  }

  lemma SeeMappedLeaf(m0: Memory, root: int, sh: Shadow, m1: Memory, a: nat, flags: Flags)
    requires Tree(m0, root, sh) && SamePages(m0, sh, m1) && a < USER_TOP
    requires MappedLeaf(m0, m1, root, Indices(a), flags)
    ensures See(m1, root, a) == AfterMap(See(m0, root, a), flags)
  {
    hide Tree, Indices, Leaf;
    UserIndices(a);
    if Leaf(m0, root, Indices(a)).present {
      LeafOwned(m0, root, sh, Indices(a));
    }
  }

  lemma SeeMapped(m0: Memory, root: int, sh: Shadow, m1: Memory, page: nat, flags: Flags)
    requires Tree(m0, root, sh) && SamePages(m0, sh, m1)
    requires page % PAGE_BYTES == 0 && page + PAGE_BYTES <= USER_TOP
    requires MappedLeaf(m0, m1, root, Indices(page), flags)
    requires forall w: VPage :: w.Valid() && w != Indices(page) ==> Leaf(m1, root, w) == Leaf(m0, root, w)
    ensures PagesMapped(m0, m1, root, page, page + PAGE_BYTES, flags)
  {
    hide Tree, Indices, Leaf, See, SamePages, MappedLeaf;
    forall a | 0 <= a < USER_TOP
      ensures See(m1, root, a) ==
              if page <= a < page + PAGE_BYTES then AfterMap(See(m0, root, a), flags) else See(m0, root, a)
    {
      UserIndices(a);
      if page <= a < page + PAGE_BYTES {
        SamePage(page, a - page);
        SeeMappedLeaf(m0, root, sh, m1, a, flags);
      } else {
        if Indices(a) == Indices(page) {
          SameIndices(a, page);
          OutsidePage(a, page);
        }
        SeeSameLeaf(m0, root, sh, m1, a);
      }
    }
  }

  lemma OutsidePage(a: nat, page: nat)
    requires page % PAGE_BYTES == 0
    ensures a / PAGE_BYTES == page / PAGE_BYTES <==> page <= a < page + PAGE_BYTES
  {
  }

  lemma SeeWritten(m0: Memory, m1: Memory, root: int, address: nat, data: seq<byte>)
    requires SameLeaves(m0, m1, root) && Written(m0, m1, root, address, data)
    ensures BytesWritten(m0, m1, root, address, data)
  {
    hide Indices, Leaf;
    forall a | 0 <= a < USER_TOP
      ensures See(m1, root, a) ==
              if address <= a < address + |data| then AfterWrite(See(m0, root, a), data[a - address])
              else See(m0, root, a)
    {
      UserIndices(a);
      assert VByte(m1, root, a) ==
             if address <= a < address + |data| then Some(data[a - address]) else VByte(m0, root, a);
    }
  }

  lemma PagesMappedNone(m: Memory, root: int, first: nat, flags: Flags)
    ensures PagesMapped(m, m, root, first, first, flags)
  {
  }

  lemma PagesMappedNext(m0: Memory, m1: Memory, m2: Memory, root: int, first: nat, page: nat, flags: Flags)
    requires first <= page && PagesMapped(m0, m1, root, first, page, flags)
    requires PagesMapped(m1, m2, root, page, page + PAGE_BYTES, flags)
    ensures PagesMapped(m0, m2, root, first, page + PAGE_BYTES, flags)
  {
    hide See;
  }

  predicate Within(first: nat, last: nat, q: nat) {
    first <= q < last
  }

  /** The page numbers from `first` to below `last`. */
  ghost function Between(first: nat, last: nat): set<nat> {
    set q: nat | q < last && Within(first, last, q)
  }

  lemma {:induction false} BetweenSize(first: nat, last: nat)
    requires first <= last
    ensures |Between(first, last)| == last - first
    decreases last
  {
    if first == last {
      assert Between(first, last) == {};
    } else {
      BetweenSize(first, last - 1);
      assert Between(first, last) == Between(first, last - 1) + {last - 1};
    }
  }

  lemma BetweenNext(nodes: set<seq<int>>, first: nat, q: nat, last: nat)
    requires first <= q < last
    ensures nodes + Ways(Between(first, q)) + ChainTo(Indices(q * PAGE_BYTES), 4) ==
            nodes + Ways(Between(first, q + 1)) <= nodes + Ways(Between(first, last))
  {
    hide Indices, Ways, ChainTo;
    assert Between(first, q + 1) == Between(first, q) + {q};
    assert Between(first, last) == Between(first, q + 1) + Between(q + 1, last);
    WaysUnion(Between(first, q), {q});
    WaysUnion(Between(first, q + 1), Between(q + 1, last));
    WaysOne(q);
  }

  lemma BetweenNone(nodes: set<seq<int>>, q: nat)
    ensures nodes + Ways(Between(q, q)) == nodes
  {
    assert Between(q, q) == {};
    assert Ways({}) == {};
  }

  /* ----- Segments ----- */

  /** The page loops of `map_segment` and `map_user_stack`. */
  method MapPages(space: AddressSpace, first: nat, last: nat, flags: Flags) returns (ok: bool)
    requires space.Valid() && first % PAGE_BYTES == 0 && last % PAGE_BYTES == 0 && first <= last <= USER_TOP
    modifies space.ram, space`sh, space.pmm`freePages, space.pmm.bitmap
    ensures space.Extends()
    ensures ok ==> PagesMapped(old(space.ram.mem), space.ram.mem, space.root, first, last, flags)
    ensures !ok ==> FreeSet(space.pmm.Bits(), space.pmm.totalPages) == {}
    ensures var all := old(Nodes(space.ram.mem, space.root)) + Ways(Between(first / PAGE_BYTES, last / PAGE_BYTES));
            if ok then Nodes(space.ram.mem, space.root) == all else Nodes(space.ram.mem, space.root) < all
  {
    hide BitsOf, Tree, Grows, Leaf, PagesMapped, Indices, MappedLeaf, Nodes, Ways, ChainTo, Between;
    BetweenNone(Nodes(space.ram.mem, space.root), first / PAGE_BYTES);
    GrowsNot(space.pmm.Bits(), space.sh.level.Keys);
    PagesMappedNone(space.ram.mem, space.root, first, flags);
    var page := first;
    while page < last
      invariant first <= page <= last && page % PAGE_BYTES == 0
      invariant space.Extends()
      invariant PagesMapped(old(space.ram.mem), space.ram.mem, space.root, first, page, flags)
      invariant Nodes(space.ram.mem, space.root) ==
                old(Nodes(space.ram.mem, space.root)) + Ways(Between(first / PAGE_BYTES, page / PAGE_BYTES))
    {
      ghost var b1, l1, m1, sh1 := space.pmm.Bits(), space.sh.level.Keys, space.ram.mem, space.sh;
      UserIndices(page);
      assert page / PAGE_BYTES * PAGE_BYTES == page && (page + PAGE_BYTES) / PAGE_BYTES == page / PAGE_BYTES + 1;
      BetweenNext(old(Nodes(space.ram.mem, space.root)), first / PAGE_BYTES, page / PAGE_BYTES, last / PAGE_BYTES);
      ok := space.MapUserPage(page, flags);
      GrowsTrans(old(space.pmm.Bits()), old(space.sh.level.Keys), b1, l1, space.pmm.Bits(), space.sh.level.Keys);
      if !ok {
        return false;
      }
      SeeMapped(m1, space.root, sh1, space.ram.mem, page, flags);
      PagesMappedNext(old(space.ram.mem), m1, space.ram.mem, space.root, first, page, flags);
      page := page + PAGE_BYTES;
    }
    return true;
  }

  function PageDown(a: nat): nat {
    a / PAGE_BYTES * PAGE_BYTES
  }

  function PageUp(a: nat): nat {
    (a + PAGE_BYTES - 1) / PAGE_BYTES * PAGE_BYTES
  }

  /** `map_segment`. */
  method MapSegment(space: AddressSpace, file: seq<byte>, s: Segment, bias: u64, nx: bool) returns (ok: bool)
    requires space.Valid()
    modifies space.ram, space`sh, space.pmm`freePages, space.pmm.bitmap
    ensures space.Builds()
    ensures ok ==> SegmentOk(s, bias, |file|)
    ensures ok ==> forall a :: 0 <= a < USER_TOP ==>
                     See(space.ram.mem, space.root, a) ==
                     AfterSegment(old(See(space.ram.mem, space.root, a)), s, bias, file, nx, a)
    ensures !ok ==> !SegmentOk(s, bias, |file|) || FreeSet(space.pmm.Bits(), space.pmm.totalPages) == {}
    ensures SegmentOk(s, bias, |file|) ==>
              var all := old(Nodes(space.ram.mem, space.root)) + Ways(SegmentPages(s, bias));
              if ok then Nodes(space.ram.mem, space.root) == all else Nodes(space.ram.mem, space.root) < all
  {
    hide Nodes, Ways, SegmentPages, Between;
    hide BitsOf, Tree, Grows, Leaf, Indices, AlignedValid, See, PagesMapped, BytesWritten, Written, RangeMapped;
    GrowsNot(space.pmm.Bits(), space.sh.level.Keys);
    if !SegmentOk(s, bias, |file|) {
      return false;
    }
    SegmentBetween(s, bias, |file|);
    if s.memsz == 0 {
      BetweenNone(Nodes(space.ram.mem, space.root), 0);
      return true;
    }
    var start, end := Start(s, bias), End(s, bias);
    var pageStart, pageEnd := PageDown(start), PageUp(end);
    PageBounds(s, bias);
    ok := MapPages(space, pageStart, pageEnd, FlagsOf(s, nx));
    if !ok {
      return false;
    }
    ghost var m1 := space.ram.mem;
    var data := file[s.offset..s.offset + s.filesz];
    RangeSeen(old(space.ram.mem), m1, space.root, pageStart, pageEnd, FlagsOf(s, nx), start, |data|);
    ok := space.CopyToSpace(start, data);
    KeepsNodes(m1, space.ram.mem, space.root);
    SeeWritten(m1, space.ram.mem, space.root, start, data);
    SegmentSeen(old(space.ram.mem), m1, space.ram.mem, space.root, s, bias, file, nx);
  }

  lemma PageBounds(s: Segment, bias: u64)
    requires RangeOk(s, bias) && s.memsz > 0
    ensures var first, last := PageDown(Start(s, bias)), PageUp(End(s, bias));
            && first % PAGE_BYTES == 0 && last % PAGE_BYTES == 0
            && first <= Start(s, bias) && End(s, bias) <= last && first <= last <= USER_TOP
            && forall a :: first <= a < last <==> a >= 0 && Touches(s, bias, a / PAGE_BYTES)
  {
  }

  lemma SegmentBetween(s: Segment, bias: u64, fileSize: nat)
    requires SegmentOk(s, bias, fileSize)
    ensures SegmentPages(s, bias) ==
            if s.memsz == 0 then Between(0, 0)
            else Between(PageDown(Start(s, bias)) / PAGE_BYTES, PageUp(End(s, bias)) / PAGE_BYTES)
  {
    hide AlignedValid;
    if s.memsz > 0 {
      PageBounds(s, bias);
      var first, last := PageDown(Start(s, bias)), PageUp(End(s, bias));
      forall q: nat
        ensures q < USER_TOP / PAGE_BYTES && Touches(s, bias, q) <==> Within(first / PAGE_BYTES, last / PAGE_BYTES, q)
      {
        assert first <= q * PAGE_BYTES < last <==> Touches(s, bias, q * PAGE_BYTES / PAGE_BYTES);
      }
    }
  }

  /** A range inside freshly mapped pages is mapped. */
  lemma RangeSeen(m0: Memory, m1: Memory, root: int, first: nat, last: nat, flags: Flags, start: nat, size: nat)
    requires PagesMapped(m0, m1, root, first, last, flags)
    requires first <= start && start + size <= last <= USER_TOP
    ensures RangeMapped(m1, root, start, size)
  {
    hide Indices, Leaf;
    forall a | start <= a < start + size
      ensures VByte(m1, root, a).Some?
    {
      assert See(m1, root, a) == AfterMap(See(m0, root, a), flags);
    }
  }

  lemma SegmentSeen(m0: Memory, m1: Memory, m2: Memory, root: int, s: Segment, bias: u64, file: seq<byte>, nx: bool)
    requires SegmentOk(s, bias, |file|) && s.memsz > 0
    requires PagesMapped(m0, m1, root, PageDown(Start(s, bias)), PageUp(End(s, bias)), FlagsOf(s, nx))
    requires BytesWritten(m1, m2, root, Start(s, bias), file[s.offset..s.offset + s.filesz])
    ensures forall a :: 0 <= a < USER_TOP ==>
              See(m2, root, a) == AfterSegment(See(m0, root, a), s, bias, file, nx, a)
  {
    hide See, AlignedValid, PageDown, PageUp, Touches;
    PageBounds(s, bias);
    forall a | 0 <= a < USER_TOP
      ensures See(m2, root, a) == AfterSegment(See(m0, root, a), s, bias, file, nx, a)
    {
      assert Touches(s, bias, a / PAGE_BYTES) <==> PageDown(Start(s, bias)) <= a < PageUp(End(s, bias));
      assert See(m1, root, a) == if Touches(s, bias, a / PAGE_BYTES)
                                 then AfterMap(See(m0, root, a), FlagsOf(s, nx)) else See(m0, root, a);
    }
  }

  predicate EntryExecutable(segs: seq<Segment>, bias: u64, entry: nat) {
    exists k :: 0 <= k < |segs| && segs[k].executable && Contains(segs[k], bias, entry)
  }

  /** The checks of `load_image` before anything is allocated. */
  method CheckSegments(segs: seq<Segment>, bias: u64, fileSize: nat, entry: nat) returns (ok: bool)
    ensures ok <==> Accepted(segs, bias, fileSize) && EntryExecutable(segs, bias, entry)
  {
    hide AlignedValid, RangeOk;
    var executable := false;
    var i := 0;
    while i < |segs|
      invariant 0 <= i <= |segs|
      invariant Accepted(segs[..i], bias, fileSize)
      invariant executable <==> EntryExecutable(segs[..i], bias, entry)
    {
      var s := segs[i];
      assert segs[..i + 1] == segs[..i] + [s];
      if !SegmentOk(s, bias, fileSize) {
        return false;
      }
      var found := s.memsz > 0 && s.executable && Start(s, bias) <= entry < End(s, bias);
      EntrySnoc(segs[..i], s, bias, entry);
      if found {
        executable := true;
      }
      var j := 0;
      while j < i
        invariant 0 <= j <= i
        invariant forall k :: 0 <= k < j ==> !Clash(s, segs[k], bias)
      {
        if !RangeOk(segs[j], bias) || Clash(s, segs[j], bias) {
          assert SegmentOk(segs[..i][j], bias, fileSize);
          return false;
        }
        j := j + 1;
      }
      assert forall k, l :: 0 <= l < k < i ==> !Clash(segs[..i][k], segs[..i][l], bias);
      i := i + 1;
    }
    assert segs[..i] == segs;
    return executable;
  }

  lemma EntrySnoc(init: seq<Segment>, s: Segment, bias: u64, entry: nat)
    ensures EntryExecutable(init + [s], bias, entry) <==>
            EntryExecutable(init, bias, entry) || (s.executable && Contains(s, bias, entry))
  {
    hide Contains;
    var all := init + [s];
    assert all[|init|] == s;
    assert forall i :: 0 <= i < |init| ==> all[i] == init[i];
  }

  /** What an address of the image shows, as `SeeImage` predicts. */
  ghost predicate ShowsImage(mem: Memory, root: int, segs: seq<Segment>, bias: u64, file: seq<byte>, nx: bool)
    requires AllOk(segs, bias, |file|)
  {
    forall a :: 0 <= a < USER_TOP ==> See(mem, root, a) == SeeImage(segs, bias, file, nx, a)
  }

  /** The loop of `load_image` over the segments. */
  method MapSegments(space: AddressSpace, file: seq<byte>, segs: seq<Segment>, bias: u64, nx: bool) returns (ok: bool)
    requires space.Valid() && Accepted(segs, bias, |file|)
    requires forall a :: 0 <= a < USER_TOP ==> See(space.ram.mem, space.root, a) == Unmapped
    modifies space.ram, space`sh, space.pmm`freePages, space.pmm.bitmap
    ensures space.Builds()
    ensures ok ==> ShowsImage(space.ram.mem, space.root, segs, bias, file, nx)
    ensures !ok ==> FreeSet(space.pmm.Bits(), space.pmm.totalPages) == {}
    ensures var all := old(Nodes(space.ram.mem, space.root)) + Ways(ImagePages(segs, bias));
            if ok then Nodes(space.ram.mem, space.root) == all else Nodes(space.ram.mem, space.root) < all
  {
    hide BitsOf, Tree, Grows, Leaf, Indices, See, SegmentOk, AfterSegment, FreeSet, Nodes, Ways, ImagePages;
    hide SegmentPages;
    NoPages(Nodes(space.ram.mem, space.root), segs[..0], bias);
    GrowsNot(space.pmm.Bits(), space.sh.level.Keys);
    var i := 0;
    while i < |segs|
      invariant 0 <= i <= |segs| && space.Builds()
      invariant ShowsImage(space.ram.mem, space.root, segs[..i], bias, file, nx)
      invariant Nodes(space.ram.mem, space.root) ==
                old(Nodes(space.ram.mem, space.root)) + Ways(ImagePages(segs[..i], bias))
    {
      MorePages(old(Nodes(space.ram.mem, space.root)), segs, bias, i);
      ghost var b1, l1, m1 := space.pmm.Bits(), space.sh.level.Keys, space.ram.mem;
      ok := MapSegment(space, file, segs[i], bias, nx);
      GrowsTrans(old(space.pmm.Bits()), old(space.sh.level.Keys), b1, l1, space.pmm.Bits(), space.sh.level.Keys);
      if !ok {
        return false;
      }
      ShowsNext(m1, space.ram.mem, space.root, segs, i, bias, file, nx);
      i := i + 1;
    }
    assert segs[..i] == segs;
    return true;
  }

  lemma NoPages(nodes: set<seq<int>>, segs: seq<Segment>, bias: u64)
    requires segs == []
    ensures nodes + Ways(ImagePages(segs, bias)) == nodes
  {
    assert ImagePages(segs, bias) == {};
    assert Ways({}) == {};
  }

  lemma MorePages(nodes: set<seq<int>>, segs: seq<Segment>, bias: u64, i: nat)
    requires i < |segs|
    ensures nodes + Ways(ImagePages(segs[..i], bias)) + Ways(SegmentPages(segs[i], bias)) ==
            nodes + Ways(ImagePages(segs[..i + 1], bias)) <= nodes + Ways(ImagePages(segs, bias))
  {
    hide Ways, ImagePages, SegmentPages;
    assert segs[..i + 1] == segs[..i] + [segs[i]];
    PagesSnoc(segs[..i], segs[i], bias);
    WaysUnion(ImagePages(segs[..i], bias), SegmentPages(segs[i], bias));
    PagesPrefix(segs, bias, i + 1);
    var less, all := ImagePages(segs[..i + 1], bias), ImagePages(segs, bias);
    assert all == less + all;
    WaysUnion(less, all);
  }

  lemma ShowsNext(m1: Memory, m2: Memory, root: int, segs: seq<Segment>, i: nat, bias: u64, file: seq<byte>, nx: bool)
    requires AllOk(segs, bias, |file|) && i < |segs| && SegmentOk(segs[i], bias, |file|)
    requires ShowsImage(m1, root, segs[..i], bias, file, nx)
    requires forall a :: 0 <= a < USER_TOP ==>
               See(m2, root, a) == AfterSegment(See(m1, root, a), segs[i], bias, file, nx, a)
    ensures ShowsImage(m2, root, segs[..i + 1], bias, file, nx)
  {
    hide See, SegmentOk, AfterSegment;
    var next := segs[..i + 1];
    assert next[..|next| - 1] == segs[..i] && next[|next| - 1] == segs[i];
  }
}
