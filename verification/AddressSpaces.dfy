/**
 A user address space under construction: page tables and pages taken from the physical
 page allocator, mapped one page at a time, copied into and out of, and torn down.
 */
module AddressSpaces {
  import opened Bytes
  import opened PageBitmap
  import opened PageTables
  import opened TableNodes
  import W = PteWords

  /** The bitmap went from `b0` to `b1` by marking exactly the frames in `l1` but not in `l0`. */
  ghost predicate Grows(b0: seq<bool>, l0: set<int>, b1: seq<bool>, l1: set<int>) {
    && l0 <= l1 && |b0| == |b1|
    && (forall p :: 0 <= p < |b0| ==> b1[p] == (b0[p] || (p in l1 && p !in l0)))
    && (forall p :: p in l1 && p !in l0 ==> 0 <= p < |b0| && !b0[p])
  }

  /** Pages keep their bytes. */
  ghost predicate SamePages(mem: Memory, sh: Shadow, mem': Memory) {
    forall f :: f in sh.level && sh.level[f] == 0 && f in mem ==> f in mem' && mem'[f] == mem[f]
  }

  ghost predicate KeepsLevels(sh: Shadow, sh': Shadow) {
    forall f :: f in sh.level ==> f in sh'.level && sh'.level[f] == sh.level[f]
  }

  ghost predicate SameLeaves(mem: Memory, mem': Memory, root: int) {
    forall v: VPage :: v.Valid() ==> Leaf(mem', root, v) == Leaf(mem, root, v)
  }

  /** Only frames in `owned` changed. */
  ghost predicate KeepsOthers(mem: Memory, mem': Memory, owned: set<int>) {
    forall f :: f in mem && f !in owned ==> f in mem' && mem'[f] == mem[f]
  }

  /** The frames in `kept` did not change. */
  ghost predicate Undisturbed(mem: Memory, mem': Memory, kept: set<int>) {
    forall f :: f in mem && f in kept ==> f in mem' && mem'[f] == mem[f]
  }

  /** The leaf entry after mapping with `flags`: permissions only widen on a page already there. */
  function Widen(was: Pte, flags: Flags, frame: int): Pte {
    if was.present then was.(writable := was.writable || flags.writable, nx := was.nx && flags.nx)
    else Pte(true, flags.writable, true, false, flags.nx, frame)
  }

  /** The leaf of `v` was widened by `flags`; a page that was not there before is zeroed. */
  ghost predicate MappedLeaf(mem: Memory, mem': Memory, root: int, v: VPage, flags: Flags) {
    var was, leaf := Leaf(mem, root, v), Leaf(mem', root, v);
    && leaf == Widen(was, flags, leaf.frame)
    && (!was.present ==> leaf.frame in mem' && mem'[leaf.frame] == ZeroPage())
  }

  /** `bits` with the pages in `s` marked free. */
  function Unmark(bits: seq<bool>, s: set<int>): (r: seq<bool>)
    ensures |r| == |bits|
  {
    seq(|bits|, p requires 0 <= p < |bits| => bits[p] && p !in s)
  }

  /** Physical memory: one for all address spaces. */
  class Ram {
    var mem: Memory

    constructor (mem: Memory)
      ensures this.mem == mem
    {
      this.mem := mem;
    }
  }

  class AddressSpace {
    const pmm: Pmm
    const ram: Ram
    var root: int
    ghost var sh: Shadow
    /** The kernel's top-level table, whose upper half every space shares. */
    ghost var kernel: seq<Pte>
    /** The frames handed back to the allocator, with multiplicity. */
    ghost var freed: multiset<int>

    ghost predicate Valid()
      reads this, ram, pmm, pmm.bitmap
    {
      && pmm.Valid() && 0 in pmm.Used() && pmm.totalPages <= W.MAX_FRAMES
      && Tree(ram.mem, root, sh)
      && (forall f :: f in sh.level ==> f in pmm.Used() && f != 0)
      && KernelHalf()
    }

    ghost predicate KernelHalf()
      reads this, ram
    {
      && |kernel| == ENTRIES
      && forall i :: USER_ENTRIES <= i < ENTRIES ==> Entry(ram.mem, root, i) == kernel[i]
    }

    /** Every entry in use is what its word in memory decodes to. */
    lemma EntriesAreWords(f: int, i: int)
      requires Valid() && Slot(sh, f, i) && Entry(ram.mem, f, i).present
      ensures 0 <= Entry(ram.mem, f, i).frame < W.MAX_FRAMES
      ensures W.Decode(W.Encode(Entry(ram.mem, f, i))) == Entry(ram.mem, f, i)
    {
      hide BitsOf, Tree, W.Decode, W.Encode;
      SlotFits(ram.mem, root, sh, f, i);
      W.DecodeEncode(Entry(ram.mem, f, i));
    }

    constructor (pmm: Pmm, ram: Ram)
      ensures this.pmm == pmm && this.ram == ram
    {
      this.pmm, this.ram := pmm, ram;
    }

    /** `allocate_zeroed_page`, with the zeroes read as a table or as a page. */
    method AllocateZeroed(blank: Frame) returns (phys: nat)
      requires pmm.Valid() && 0 in pmm.Used()
      modifies ram, pmm`freePages, pmm.bitmap
      ensures pmm.Valid() && 0 in pmm.Used()
      ensures phys == 0 ==> ram.mem == old(ram.mem) && pmm.Bits() == old(pmm.Bits())
      ensures phys == 0 ==> FreeSet(pmm.Bits(), pmm.totalPages) == {}
      ensures phys != 0 ==> phys / PAGE_SIZE in FreeSet(old(pmm.Bits()), pmm.totalPages)
      ensures phys != 0 ==>
                && phys / PAGE_SIZE !in old(pmm.Used()) && phys / PAGE_SIZE < pmm.totalPages
                && pmm.Bits() == old(pmm.Bits())[phys / PAGE_SIZE := true]
                && pmm.Used() == old(pmm.Used()) + {phys / PAGE_SIZE as int}
                && ram.mem == old(ram.mem)[phys / PAGE_SIZE := blank]
    {
      hide BitsOf;
      phys := pmm.AllocPage();
      if phys == 0 {
        return 0;
      }
      ram.mem := ram.mem[phys / PAGE_SIZE := blank];
    }

    /** `create_address_space`: an empty user half under a copy of the kernel's upper half. */
    method Create(pml4: Option<seq<Pte>>) returns (ok: bool)
      requires pmm.Valid() && 0 in pmm.Used() && pmm.totalPages <= W.MAX_FRAMES
      requires pml4.Some? ==> |pml4.value| == ENTRIES
      modifies ram, `root, `sh, `kernel, pmm`freePages, pmm.bitmap
      ensures pmm.Valid() && 0 in pmm.Used()
      ensures !ok ==> pmm.Bits() == old(pmm.Bits()) && (pml4.None? || FreeSet(pmm.Bits(), pmm.totalPages) == {})
      ensures ok <==> pml4.Some? && FreeSet(old(pmm.Bits()), pmm.totalPages) != {}
      ensures ok ==> Valid() && pml4 == Some(kernel) && sh.level.Keys == {root}
      ensures ok ==> Grows(old(pmm.Bits()), {}, pmm.Bits(), {root})
      ensures KeepsOthers(old(ram.mem), ram.mem, if ok then {root} else {})
      ensures ok ==> Nodes(ram.mem, root) == {[]}
      ensures ok ==> forall v: VPage :: v.Valid() ==> Leaf(ram.mem, root, v) == ABSENT
    {
      hide BitsOf, Tree, Nodes;
      if pml4.None? {
        return false;
      }
      var phys := AllocateZeroed(EmptyTable());
      if phys == 0 {
        return false;
      }
      root := phys / PAGE_SIZE;
      kernel := pml4.value;
      sh := Shadow(map[root := 4], map[]);
      var i := USER_ENTRIES;
      while i < ENTRIES
        modifies ram
        invariant USER_ENTRIES <= i <= ENTRIES && KeepsOthers(old(ram.mem), ram.mem, {root})
        invariant root in ram.mem && ram.mem[root].Table? && |ram.mem[root].entries| == ENTRIES
        invariant forall k :: 0 <= k < ENTRIES ==>
                    Entry(ram.mem, root, k) == if USER_ENTRIES <= k < i then pml4.value[k] else ABSENT
      {
        ram.mem := SetEntry(ram.mem, root, i, pml4.value[i]);
        i := i + 1;
      }
      SingleTableTree(ram.mem, root);
      RootAlone(ram.mem, root);
      forall v: VPage | v.Valid()
        ensures Leaf(ram.mem, root, v) == ABSENT
      {
        EmptyWalk(ram.mem, root, v);
      }
      return true;
    }

    /** What every building step keeps: the tree, the kernel half, and the account of pages taken. */
    twostate predicate Builds()
      reads this, ram, pmm, pmm.bitmap
    {
      && Valid() && root == old(root) && kernel == old(kernel)
      && pmm.bitmap == old(pmm.bitmap) && pmm.totalPages == old(pmm.totalPages)
      && Grows(old(pmm.Bits()), old(sh.level.Keys), pmm.Bits(), sh.level.Keys)
      && KeepsLevels(old(sh), sh) && KeepsOthers(old(ram.mem), ram.mem, sh.level.Keys)
    }

    /** A step that only adds frames. */
    twostate predicate Extends()
      reads this, ram, pmm, pmm.bitmap
    {
      Builds() && SamePages(old(ram.mem), old(sh), ram.mem)
    }

    /** Hangs the frame just allocated under a free slot, as a table or as a page with the given flags. */
    method Hang(table: int, index: int, page: Option<Flags>, blank: Frame) returns (ok: bool, hung: Pte)
      requires Valid() && Slot(sh, table, index) && !Entry(ram.mem, table, index).present
      requires Blank(blank, sh.level[table] - 1)
      modifies ram, `sh, pmm`freePages, pmm.bitmap
      ensures Extends()
      ensures hung == NewEntry(page, hung.frame)
      ensures !ok ==> ram.mem == old(ram.mem) && sh == old(sh) && FreeSet(pmm.Bits(), pmm.totalPages) == {}
      ensures ok ==> hung.frame !in old(sh.level) && hung.frame in ram.mem && ram.mem[hung.frame] == blank
      ensures ok ==> CanGraft(old(ram.mem), root, old(sh), table, index, hung, blank)
      ensures ok ==> ram.mem == Graft(old(ram.mem), table, index, hung, blank)
    {
      hide BitsOf, Tree, Grows, EmptyTable, FrameFits, Graft, SetEntry, GraftShadow, SamePages, KeepsLevels,
           KeepsOthers, Blank, Entry, FreeSet;
      SameShape(ram.mem, sh);
      GrowsNot(pmm.Bits(), sh.level.Keys);
      var phys := AllocateZeroed(blank);
      if phys == 0 {
        return false, NewEntry(page, 0);
      }
      hung := StoredEntry(page, phys / PAGE_SIZE);
      assert CanGraft(old(ram.mem), root, sh, table, index, hung, blank);
      GraftKeepsTree(old(ram.mem), root, sh, table, index, hung, blank);
      GraftKeeps(old(ram.mem), root, sh, table, index, hung, blank);
      SlotInMemory(old(ram.mem), root, sh, table, index);
      GraftOrder(old(ram.mem), table, index, hung, blank);
      ram.mem := SetEntry(ram.mem, table, index, hung);
      GrowsOne(old(pmm.Bits()), sh.level.Keys, hung.frame);
      sh := GraftShadow(sh, table, index, hung.frame);
      return true, hung;
    }

    /** One turn of the loop in `map_user_page`: the table below `table`, created if missing. */
    method EnsureTable(table: int, index: int, ghost v: VPage, ghost depth: nat) returns (ok: bool, next: int)
      requires Valid() && v.Valid() && depth < 3 && index == v.Index(depth)
      requires TableAt(ram.mem, root, v, depth) == Some(table)
      modifies ram, `sh, pmm`freePages, pmm.bitmap
      ensures Extends() && SameLeaves(old(ram.mem), ram.mem, root)
      ensures !ok ==> FreeSet(pmm.Bits(), pmm.totalPages) == {}
      ensures ok ==> TableAt(ram.mem, root, v, depth + 1) == Some(next)
      ensures ok ==> Nodes(ram.mem, root) == old(Nodes(ram.mem, root)) + {Prefix(v, depth + 1)}
      ensures !ok ==> Nodes(ram.mem, root) == old(Nodes(ram.mem, root)) && Prefix(v, depth + 1) !in Nodes(ram.mem, root)
    {
      hide BitsOf, Tree, Grows, Nodes, Prefix;
      NodeIs(ram.mem, root, v, depth + 1);
      GrowsNot(pmm.Bits(), sh.level.Keys);
      WalkLevel(ram.mem, root, sh, v, depth);
      SlotInMemory(ram.mem, root, sh, table, index);
      var e := Entry(ram.mem, table, index);
      if !e.present {
        var hung;
        ok, hung := Hang(table, index, None, EmptyTable());
        if !ok {
          return false, 0;
        }
        GraftWalk(old(ram.mem), root, old(sh), table, index, hung, EmptyTable(), v, depth + 1);
        GraftNodes(old(ram.mem), root, old(sh), index, hung, EmptyTable(), v, depth);
        forall w: VPage | w.Valid()
          ensures Leaf(ram.mem, root, w) == Leaf(old(ram.mem), root, w)
        {
          GraftLeaf(old(ram.mem), root, old(sh), table, index, hung, EmptyTable(), w);
          WalkLevel(old(ram.mem), root, old(sh), w, 3);
        }
        return true, hung.frame;
      }
      SlotFits(ram.mem, root, sh, table, index);
      if e.large {
        return false, 0;
      }
      assert ram.mem[table].entries[index := e] == ram.mem[table].entries;
      var seen := StoredForUser(e);
      ram.mem := SetEntry(ram.mem, table, index, seen);
      assert ram.mem[table] == old(ram.mem[table]);
      assert ram.mem == old(ram.mem);
      return true, e.frame;
    }

    /** A page already mapped: its permissions are widened. */
    method WidenLeaf(table: int, v: VPage, flags: Flags)
      requires Valid() && v.Valid() && TableAt(ram.mem, root, v, 3) == Some(table)
      requires Entry(ram.mem, table, v.i1).present
      modifies ram
      ensures Valid() && SamePages(old(ram.mem), sh, ram.mem) && KeepsOthers(old(ram.mem), ram.mem, sh.level.Keys)
      ensures forall w: VPage :: w.Valid() && w != v ==> Leaf(ram.mem, root, w) == old(Leaf(ram.mem, root, w))
      ensures MappedLeaf(old(ram.mem), ram.mem, root, v, flags) && Nodes(ram.mem, root) == old(Nodes(ram.mem, root))
    {
      hide BitsOf, Tree, Grows, SetEntry, Leaf, TableAt, SamePages, Nodes;
      WalkLevel(ram.mem, root, sh, v, 3);
      SlotInMemory(ram.mem, root, sh, table, v.i1);
      var leaf := Entry(ram.mem, table, v.i1);
      LeafIs(ram.mem, root, v);
      SlotFits(ram.mem, root, sh, table, v.i1);
      var tagged := StoredWider(leaf, flags);
      RetagKeepsTree(ram.mem, root, sh, table, v.i1, tagged);
      RetagLeaf(ram.mem, root, sh, table, tagged, v);
      RetagNodes(ram.mem, root, sh, table, tagged, v);
      ram.mem := SetEntry(ram.mem, table, v.i1, tagged);
    }

    /** The last step of `map_user_page`. */
    method MapLeaf(table: int, v: VPage, flags: Flags) returns (ok: bool)
      requires Valid() && v.Valid() && TableAt(ram.mem, root, v, 3) == Some(table)
      modifies ram, `sh, pmm`freePages, pmm.bitmap
      ensures Extends()
      ensures !ok ==> FreeSet(pmm.Bits(), pmm.totalPages) == {} && ram.mem == old(ram.mem)
      ensures forall w: VPage :: w.Valid() && w != v ==> Leaf(ram.mem, root, w) == old(Leaf(ram.mem, root, w))
      ensures ok ==> MappedLeaf(old(ram.mem), ram.mem, root, v, flags)
      ensures ok ==> Nodes(ram.mem, root) == old(Nodes(ram.mem, root)) + {Prefix(v, 4)}
      ensures !ok ==> Nodes(ram.mem, root) == old(Nodes(ram.mem, root)) && Prefix(v, 4) !in Nodes(ram.mem, root)
    {
      hide BitsOf, Tree, Grows, Nodes, Prefix;
      NodeIs(ram.mem, root, v, 4);
      GrowsNot(pmm.Bits(), sh.level.Keys);
      WalkLevel(ram.mem, root, sh, v, 3);
      SlotInMemory(ram.mem, root, sh, table, v.i1);
      var leaf := Entry(ram.mem, table, v.i1);
      if !leaf.present {
        var hung;
        ok, hung := Hang(table, v.i1, Some(flags), ZeroPage());
        if !ok {
          return;
        }
        GraftLeaf(old(ram.mem), root, old(sh), table, v.i1, hung, ZeroPage(), v);
        GraftNodes(old(ram.mem), root, old(sh), v.i1, hung, ZeroPage(), v, 3);
        forall w: VPage | w.Valid() && w != v
          ensures Leaf(ram.mem, root, w) == Leaf(old(ram.mem), root, w)
        {
          GraftLeaf(old(ram.mem), root, old(sh), table, v.i1, hung, ZeroPage(), w);
          SameTableSamePage(old(ram.mem), root, old(sh), v, w);
        }
        return true;
      }
      WidenLeaf(table, v, flags);
      return true;
    }

    /**
     `map_user_page`. Whether it succeeds or runs out of pages half way, the tables stay a
     tree and no other page's entry changes; on success this page's entry is widened.
     */
    method MapUserPage(address: nat, flags: Flags) returns (ok: bool)
      requires Valid()
      modifies ram, `sh, pmm`freePages, pmm.bitmap
      ensures Extends()
      ensures !ok ==> Indices(address).i4 >= USER_ENTRIES || FreeSet(pmm.Bits(), pmm.totalPages) == {}
      ensures !ok ==> SameLeaves(old(ram.mem), ram.mem, root)
      ensures forall w: VPage :: w.Valid() && w != Indices(address) ==>
                Leaf(ram.mem, root, w) == old(Leaf(ram.mem, root, w))
      ensures ok ==> Indices(address).Valid()
      ensures ok ==> MappedLeaf(old(ram.mem), ram.mem, root, Indices(address), flags)
      ensures ok ==> Nodes(ram.mem, root) == old(Nodes(ram.mem, root)) + ChainTo(Indices(address), 4)
      ensures !ok && Indices(address).Valid() ==>
                Nodes(ram.mem, root) < old(Nodes(ram.mem, root)) + ChainTo(Indices(address), 4)
    {
      hide BitsOf, Tree, Grows, Indices, TableAt, Leaf, Nodes, Prefix, ChainTo;
      GrowsNot(pmm.Bits(), sh.level.Keys);
      var v := Indices(address);
      IndicesValid(address);
      if v.i4 >= USER_ENTRIES {
        return false;
      }
      var table := root;
      WalkStart(ram.mem, root, v);
      ChainStart(ram.mem, root, v);
      var depth := 0;
      while depth < 3
        invariant 0 <= depth <= 3
        invariant Extends() && SameLeaves(old(ram.mem), ram.mem, root)
        invariant Nodes(ram.mem, root) == old(Nodes(ram.mem, root)) + ChainTo(v, depth)
        invariant TableAt(ram.mem, root, v, depth) == Some(table)
      {
        ghost var b1, l1 := pmm.Bits(), sh.level.Keys;
        ChainNext(v, depth);
        ChainGrows(v, depth);
        ChainGrows(v, depth + 1);
        var found, next := EnsureTable(table, v.Index(depth), v, depth);
        GrowsTrans(old(pmm.Bits()), old(sh.level.Keys), b1, l1, pmm.Bits(), sh.level.Keys);
        if !found {
          return false;
        }
        table := next;
        depth := depth + 1;
      }
      ghost var b1, l1, m1 := pmm.Bits(), sh.level.Keys, ram.mem;
      ChainNext(v, 3);
      ChainGrows(v, 3);
      ok := MapLeaf(table, v, flags);
      GrowsTrans(old(pmm.Bits()), old(sh.level.Keys), b1, l1, pmm.Bits(), sh.level.Keys);
      assert Leaf(m1, root, v) == old(Leaf(ram.mem, root, v));
    }

    ghost predicate FramesExist()
      reads this, ram, pmm, pmm.bitmap
    {
      && pmm.Valid() && Tree(ram.mem, root, sh)
      && forall f :: f in sh.level ==> 0 <= f < pmm.totalPages
    }

    method FreeFrame(frame: int)
      requires pmm.Valid() && 0 <= frame < pmm.totalPages
      modifies `freed, pmm`freePages, pmm.bitmap
      ensures pmm.Valid() && pmm.Bits() == Unmark(old(pmm.Bits()), {frame})
      ensures freed == old(freed) + multiset{frame}
    {
      hide BitsOf;
      pmm.FreePage(frame * PAGE_SIZE);
      freed := freed + multiset{frame};
      assert pmm.Bits() == Unmark(old(pmm.Bits()), {frame});
    }

    /** `destroy_table_tree`: every frame below and including `table` is freed, once. */
    method DestroyTableTree(table: int, level: nat)
      requires FramesExist() && 1 <= level <= 3
      requires table in sh.level && sh.level[table] == level
      modifies `freed, pmm`freePages, pmm.bitmap
      ensures pmm.Valid() && pmm.Bits() == Unmark(old(pmm.Bits()), Subtree(ram.mem, table, level))
      ensures freed == old(freed) + multiset(Subtree(ram.mem, table, level))
      decreases level
    {
      hide BitsOf, Tree, Unmark, Branches, Subtree;
      BranchesStart(ram.mem, table, level, pmm.Bits());
      var i := 0;
      while i < ENTRIES
        invariant 0 <= i <= ENTRIES && pmm.Valid()
        invariant pmm.Bits() == Unmark(old(pmm.Bits()), Branches(ram.mem, table, level, i))
        invariant freed == old(freed) + multiset(Branches(ram.mem, table, level, i))
      {
        BranchStep(ram.mem, root, sh, table, i, old(pmm.Bits()));
        var entry := Entry(ram.mem, table, i);
        if entry.present {
          SlotFits(ram.mem, root, sh, table, i);
          if level == 1 {
            FreeFrame(entry.frame);
          } else if !entry.large {
            DestroyTableTree(entry.frame, level - 1);
          }
        }
        i := i + 1;
      }
      BranchEnd(ram.mem, root, sh, table, old(pmm.Bits()));
      FreeFrame(table);
    }

    /** `destroy_address_space`: all owned frames are freed, each once, and no other. */
    method DestroyAddressSpace()
      requires Valid()
      modifies `freed, pmm`freePages, pmm.bitmap
      ensures pmm.Valid() && pmm.Bits() == Unmark(old(pmm.Bits()), sh.level.Keys)
      ensures freed == old(freed) + multiset(sh.level.Keys)
    {
      hide BitsOf, Tree, Unmark, Branches, Subtree;
      RootLevel(ram.mem, root, sh);
      assert FramesExist();
      BranchesStart(ram.mem, root, 4, pmm.Bits());
      var i := 0;
      while i < USER_ENTRIES
        invariant 0 <= i <= USER_ENTRIES && pmm.Valid()
        invariant pmm.Bits() == Unmark(old(pmm.Bits()), Branches(ram.mem, root, 4, i))
        invariant freed == old(freed) + multiset(Branches(ram.mem, root, 4, i))
      {
        var entry := Entry(ram.mem, root, i);
        SlotFits(ram.mem, root, sh, root, i);
        BranchStep(ram.mem, root, sh, root, i, old(pmm.Bits()));
        if entry.present && !entry.large {
          DestroyTableTree(entry.frame, 3);
        }
        i := i + 1;
      }
      SubtreeOfRoot(ram.mem, root, sh);
      BranchEnd(ram.mem, root, sh, root, old(pmm.Bits()));
      FreeFrame(root);
    }

    /** `locate_pte`: the walk to the last-level table. */
    method LocatePte(address: nat) returns (ok: bool, table: int, index: int)
      ensures index == Indices(address).i1
      ensures ok <==> Indices(address).i4 < USER_ENTRIES && TableAt(ram.mem, root, Indices(address), 3).Some?
      ensures ok ==> TableAt(ram.mem, root, Indices(address), 3) == Some(table)
    {
      hide Indices;
      var v := Indices(address);
      index := v.i1;
      table := root;
      if v.i4 >= USER_ENTRIES {
        return false, table, index;
      }
      var depth := 0;
      while depth < 3
        invariant 0 <= depth <= 3
        invariant TableAt(ram.mem, root, v, depth) == Some(table)
      {
        var entry := Entry(ram.mem, table, v.Index(depth));
        if !entry.present || entry.large {
          WalkStops(ram.mem, root, v, depth + 1);
          return false, table, index;
        }
        table := entry.frame;
        depth := depth + 1;
      }
      return true, table, index;
    }

    /** The frame and offset behind a mapped address, and how much of the transfer fits the page. */
    method LocateChunk(address: nat, copied: nat, size: nat) returns (ok: bool, frame: int, inPage: nat, chunk: nat)
      requires Valid() && copied < size
      ensures ok <==> address < USER_TOP && address + copied < USER_TOP && VByte(ram.mem, root, address + copied).Some?
      ensures ok ==>
              inPage == (address + copied) % PAGE_BYTES && 0 < chunk <= size - copied && inPage + chunk <= PAGE_BYTES
      ensures ok ==>
              Leaf(ram.mem, root, Indices(address + copied)).present
              && frame == Leaf(ram.mem, root, Indices(address + copied)).frame
      ensures ok ==> address + copied + chunk <= USER_TOP
    {
      hide Indices, Tree, TableAt;
      frame, inPage, chunk := 0, 0, 0;
      if address >= USER_TOP || copied > USER_TOP - address {
        return false, frame, inPage, chunk;
      }
      TopIndices(address + copied);
      var found, table, index := LocatePte(address + copied);
      if !found || !Entry(ram.mem, table, index).present {
        return false, frame, inPage, chunk;
      }
      frame := Entry(ram.mem, table, index).frame;
      inPage := (address + copied) % PAGE_BYTES;
      chunk := PAGE_BYTES - inPage;
      if chunk > size - copied {
        chunk := size - copied;
      }
      return true, frame, inPage, chunk;
    }

    /** The `memcpy` into one mapped page. */
    method WriteInPage(frame: int, at: nat, piece: seq<byte>)
      requires Valid() && at < USER_TOP && at % PAGE_BYTES + |piece| <= PAGE_BYTES
      requires Leaf(ram.mem, root, Indices(at)).present && frame == Leaf(ram.mem, root, Indices(at)).frame
      modifies ram
      ensures Valid() && Copies(old(ram.mem), ram.mem, root, sh.level.Keys)
      ensures Written(old(ram.mem), ram.mem, root, at, piece)
    {
      hide Indices, Tree, TableAt, SetBytes, VByte, Leaf, Written, SameLeaves, BitsOf;
      SetBytesView(ram.mem, root, sh, at, piece, at);
      SetBytesKeepsTree(ram.mem, root, sh, frame, at % PAGE_BYTES, piece);
      RootIsTable(ram.mem, root, sh);
      WrittenPiece(ram.mem, root, sh, at, piece);
      ram.mem := SetBytes(ram.mem, frame, at % PAGE_BYTES, piece);
    }

    /** `copy_to_space`: succeeds exactly on mapped ranges, and changes no byte outside the range. */
    method CopyToSpace(address: nat, data: seq<byte>) returns (ok: bool)
      requires Valid()
      modifies ram
      ensures Valid() && Copies(old(ram.mem), ram.mem, root, sh.level.Keys)
      ensures ok <==> RangeMapped(old(ram.mem), root, address, |data|)
      ensures ok ==> Written(old(ram.mem), ram.mem, root, address, data)
      ensures exists n: nat :: n <= |data| && Written(old(ram.mem), ram.mem, root, address, data[..n])
    {
      hide Indices, Tree, TableAt, VByte, Leaf, Written, SameLeaves, KeepsTables, KeepsOthers, RangeMapped,
           RangeWritable;
      RangeNothing(ram.mem, root, address);
      var copied := 0;
      assert data[..0] == [];
      WrittenNothing(ram.mem, root, address);
      CopiesRefl(ram.mem, root, sh.level.Keys);
      while copied < |data|
        invariant 0 <= copied <= |data| && Valid()
        invariant Copies(old(ram.mem), ram.mem, root, sh.level.Keys)
        invariant RangeMapped(old(ram.mem), root, address, copied)
        invariant Written(old(ram.mem), ram.mem, root, address, data[..copied])
      {
        var found, frame, inPage, chunk := LocateChunk(address, copied, |data|);
        if !found {
          SameMapped(old(ram.mem), ram.mem, root, address, copied, data);
          return false;
        }
        var piece := data[copied..copied + chunk];
        ghost var m1 := ram.mem;
        WriteInPage(frame, address + copied, piece);
        CopiesTrans(old(ram.mem), m1, ram.mem, root, sh.level.Keys);
        MappedPiece(old(ram.mem), m1, root, address, copied, data, chunk);
        WrittenStep(old(ram.mem), m1, ram.mem, root, address, data, copied, chunk);
        copied := copied + chunk;
      }
      assert data[..copied] == data;
      return true;
    }

    /** `copy_from_space`: succeeds exactly on mapped ranges, and returns their bytes. */
    method CopyFromSpace(address: nat, size: nat) returns (ok: bool, data: seq<byte>)
      requires Valid()
      ensures ok <==> RangeMapped(ram.mem, root, address, size)
      ensures ok ==> Holds(ram.mem, root, address, data) && |data| == size
    {
      hide Indices, Tree, TableAt, VByte, Leaf;
      data := [];
      while |data| < size
        invariant |data| <= size
        invariant RangeMapped(ram.mem, root, address, |data|) && Holds(ram.mem, root, address, data)
      {
        var found, frame, inPage, chunk := LocateChunk(address, |data|, size);
        if !found {
          return false, data;
        }
        data := ReadPage(frame, inPage, chunk, address, data);
      }
      return true, data;
    }

    /** The `memcpy` of one page's bytes. */
    method ReadPage(frame: int, inPage: nat, chunk: nat, ghost address: nat, before: seq<byte>)
      returns (data: seq<byte>)
      requires Valid() && address + |before| + chunk <= USER_TOP && chunk > 0
      requires inPage == (address + |before|) % PAGE_BYTES && inPage + chunk <= PAGE_BYTES
      requires Leaf(ram.mem, root, Indices(address + |before|)).present
      requires frame == Leaf(ram.mem, root, Indices(address + |before|)).frame
      requires RangeMapped(ram.mem, root, address, |before|) && Holds(ram.mem, root, address, before)
      ensures |data| == |before| + chunk
      ensures RangeMapped(ram.mem, root, address, |data|) && Holds(ram.mem, root, address, data)
    {
      hide Indices, Tree, TableAt, Leaf;
      UserIndices(address + |before|);
      LeafOwned(ram.mem, root, sh, Indices(address + |before|));
      data := before + ram.mem[frame].bytes[inPage..inPage + chunk];
      forall a | address + |before| <= a < address + |before| + chunk
        ensures VByte(ram.mem, root, a) == Some(data[a - address])
      {
        SamePage(address + |before|, a - (address + |before|));
      }
    }

    /** `translate_user`: the walk the processor's own rules would allow. */
    method TranslateUser(address: nat, write: bool) returns (ok: bool, frame: int)
      requires Valid()
      ensures ok <==> UserAccess(ram.mem, root, address, write)
      ensures ok ==> frame == Leaf(ram.mem, root, Indices(address)).frame
    {
      hide Indices, Tree;
      frame := 0;
      if address >= USER_TOP {
        return false, frame;
      }
      UserIndices(address);
      var v := Indices(address);
      var table := root;
      var level := 0;
      while level < 4
        invariant 0 <= level <= 3 && TableAt(ram.mem, root, v, level) == Some(table)
        decreases 4 - level
      {
        var entry := Entry(ram.mem, table, v.Index(level));
        WalkLevel(ram.mem, root, sh, v, level);
        SlotFits(ram.mem, root, sh, table, v.Index(level));
        if !entry.present || !entry.user {
          if level < 3 {
            WalkStops(ram.mem, root, v, level + 1);
          }
          return false, frame;
        }
        if level == 3 {
          if write && !entry.writable {
            return false, frame;
          }
          return true, entry.frame;
        }
        table := entry.frame;
        level := level + 1;
      }
      return false, frame;
    }

    /** `copy_user` out of the space: the same ranges and the same bytes as `copy_from_space`. */
    method CopyFromUser(address: nat, size: nat) returns (ok: bool, data: seq<byte>)
      requires Valid()
      ensures ok <==> RangeMapped(ram.mem, root, address, size)
      ensures ok ==> Holds(ram.mem, root, address, data) && |data| == size
    {
      hide Indices, Tree, TableAt, VByte, Leaf;
      data := [];
      if size == 0 {
        return true, data;
      }
      if address >= USER_TOP || size > USER_TOP - address {
        return false, data;
      }
      while |data| < size
        invariant |data| <= size
        invariant RangeMapped(ram.mem, root, address, |data|) && Holds(ram.mem, root, address, data)
      {
        var at := address + |data|;
        var found, frame := TranslateUser(at, false);
        AccessIsMapped(ram.mem, root, at);
        if !found {
          return false, data;
        }
        var chunk := PAGE_BYTES - at % PAGE_BYTES;
        if chunk > size - |data| {
          chunk := size - |data|;
        }
        data := ReadPage(frame, at % PAGE_BYTES, chunk, address, data);
      }
      return true, data;
    }

    /** `copy_user` into the space, which also asks for writable pages. */
    method CopyToUser(address: nat, data: seq<byte>) returns (ok: bool)
      requires Valid()
      modifies ram
      ensures Valid() && Copies(old(ram.mem), ram.mem, root, sh.level.Keys)
      ensures ok <==> CanWrite(old(ram.mem), root, address, |data|)
      ensures ok ==> Written(old(ram.mem), ram.mem, root, address, data)
      ensures exists n: nat :: n <= |data| && Written(old(ram.mem), ram.mem, root, address, data[..n])
    {
      hide Indices, Tree, TableAt, VByte, Leaf, Written, KeepsTables;
      RangeNothing(ram.mem, root, address);
      var copied := 0;
      assert data[..0] == [];
      WrittenNothing(ram.mem, root, address);
      CopiesRefl(ram.mem, root, sh.level.Keys);
      if data == [] {
        return true;
      }
      if address >= USER_TOP || |data| > USER_TOP - address {
        return false;
      }
      while copied < |data|
        invariant 0 <= copied <= |data| && Valid()
        invariant Copies(old(ram.mem), ram.mem, root, sh.level.Keys)
        invariant RangeMapped(old(ram.mem), root, address, copied) && RangeWritable(old(ram.mem), root, address, copied)
        invariant Written(old(ram.mem), ram.mem, root, address, data[..copied])
      {
        var at := address + copied;
        UserIndices(at);
        var found, frame := TranslateUser(at, true);
        AccessIsMapped(old(ram.mem), root, at);
        if !found {
          return false;
        }
        var chunk := PAGE_BYTES - at % PAGE_BYTES;
        if chunk > |data| - copied {
          chunk := |data| - copied;
        }
        var piece := data[copied..copied + chunk];
        ghost var m1 := ram.mem;
        WriteInPage(frame, at, piece);
        CopiesTrans(old(ram.mem), m1, ram.mem, root, sh.level.Keys);
        MappedPiece(old(ram.mem), m1, root, address, copied, data, chunk);
        WritablePiece(old(ram.mem), root, address, copied, chunk);
        WrittenStep(old(ram.mem), m1, ram.mem, root, address, data, copied, chunk);
        copied := copied + chunk;
      }
      assert data[..copied] == data;
      return true;
    }
  }

  /* ----- Entries as the words stored ----- */

  /** What a new table, or a new page with the given flags, is entered as. */
  function NewEntry(page: Option<Flags>, frame: int): Pte {
    if page.None? then Pte(true, true, true, false, false, frame)
    else Pte(true, page.value.writable, true, false, page.value.nx, frame)
  }

  /** The word for a new frame, read as an entry. */
  method StoredEntry(page: Option<Flags>, frame: nat) returns (e: Pte)
    requires frame < W.MAX_FRAMES
    ensures e == NewEntry(page, frame)
  {
    hide W.Decode, W.NewTable, W.NewPage, W.Phys, W.FlagWord;
    if page.None? {
      W.NewTableIs(frame);
      return W.Decode(W.NewTable(W.Phys(frame)));
    }
    W.NewPageIs(frame, page.value);
    return W.Decode(W.NewPage(W.Phys(frame), W.FlagWord(page.value)));
  }

  /** The word of an entry with the user bit set, read as an entry. */
  method StoredForUser(e: Pte) returns (r: Pte)
    requires 0 <= e.frame < W.MAX_FRAMES
    ensures r == e.(user := true)
  {
    hide W.Decode, W.Encode, W.ForUser;
    W.ForUserIs(e);
    return W.Decode(W.ForUser(W.Encode(e)));
  }

  /** The word of a page already mapped, widened, read as an entry. */
  method StoredWider(e: Pte, flags: Flags) returns (r: Pte)
    requires 0 <= e.frame < W.MAX_FRAMES
    ensures r == e.(writable := e.writable || flags.writable, nx := e.nx && flags.nx)
  {
    hide W.Decode, W.Encode, W.Widen, W.FlagWord;
    W.WidenIs(e, flags);
    return W.Decode(W.Widen(W.Encode(e), W.FlagWord(flags)));
  }

  /** The bytes at `address` are `data`. */
  ghost predicate Holds(mem: Memory, root: int, address: nat, data: seq<byte>) {
    forall a :: address <= a < address + |data| ==> VByte(mem, root, a) == Some(data[a - address])
  }

  ghost function BytesAt(mem: Memory, root: int, a: nat, n: nat): (r: seq<byte>)
    requires RangeMapped(mem, root, a, n)
    ensures |r| == n && forall i :: 0 <= i < n ==> VByte(mem, root, a + i) == Some(r[i])
  {
    seq(n, i requires 0 <= i < n => VByte(mem, root, a + i).value)
  }

  /** The word at a mapped address. */
  ghost function WordAt(mem: Memory, root: int, a: nat): Option<u64> {
    if RangeMapped(mem, root, a, 8) then Some(WordOf(BytesAt(mem, root, a, 8))) else None
  }

  ghost predicate RangeWritable(mem: Memory, root: int, address: nat, size: nat) {
    forall a :: address <= a < address + size ==> Leaf(mem, root, Indices(a)).writable
  }

  ghost predicate UserAccess(mem: Memory, root: int, address: nat, write: bool) {
    && address < USER_TOP && Leaf(mem, root, Indices(address)).present
    && (write ==> Leaf(mem, root, Indices(address)).writable)
  }

  lemma AccessIsMapped(mem: Memory, root: int, a: nat)
    ensures UserAccess(mem, root, a, false) <==> a < USER_TOP && VByte(mem, root, a).Some?
    ensures UserAccess(mem, root, a, true) ==> VByte(mem, root, a).Some?
  {
  }

  lemma WritablePiece(mem: Memory, root: int, address: nat, copied: nat, chunk: nat)
    requires RangeWritable(mem, root, address, copied)
    requires (address + copied) % PAGE_BYTES + chunk <= PAGE_BYTES
    requires Leaf(mem, root, Indices(address + copied)).writable
    ensures RangeWritable(mem, root, address, copied + chunk)
  {
    hide Indices, Leaf;
    forall a | address + copied <= a < address + copied + chunk
      ensures Leaf(mem, root, Indices(a)).writable
    {
      SamePage(address + copied, a - (address + copied));
    }
  }

  ghost predicate KeepsTables(mem: Memory, mem': Memory) {
    forall g, j :: Entry(mem', g, j) == Entry(mem, g, j)
  }

  lemma {:induction false} WalkStops(mem: Memory, root: int, v: VPage, depth: nat)
    requires 0 < depth <= 3 && TableAt(mem, root, v, depth) == None
    ensures TableAt(mem, root, v, 3) == None
    decreases 3 - depth
  {
    if depth < 3 {
      WalkStops(mem, root, v, depth + 1);
    }
  }

  lemma TopIndices(a: nat)
    ensures a < USER_TOP ==> Indices(a).Valid()
    ensures a == USER_TOP ==> Indices(a).i4 >= USER_ENTRIES
    ensures a < USER_TOP ==> a + (PAGE_BYTES - a % PAGE_BYTES) <= USER_TOP
  {
    if a < USER_TOP {
      UserIndices(a);
      NextPage(a);
    }
  }

  lemma NextPage(a: nat)
    requires a < USER_TOP
    ensures a + (PAGE_BYTES - a % PAGE_BYTES) <= USER_TOP
  {
    var q := a / PAGE_BYTES;
    assert a == q * PAGE_BYTES + a % PAGE_BYTES;
    assert q < USER_TOP / PAGE_BYTES;
  }

  lemma RootIsTable(mem: Memory, root: int, sh: Shadow)
    requires Tree(mem, root, sh)
    ensures root in mem && mem[root].Table? && root in sh.level && sh.level[root] == 4
  {
  }

  /** A write so far leaves the same bytes mapped. */
  lemma SameMapped(mem: Memory, mem': Memory, root: int, address: nat, copied: nat, data: seq<byte>)
    requires copied < |data| && Written(mem, mem', root, address, data[..copied])
    requires address + copied >= USER_TOP || VByte(mem', root, address + copied).None?
    ensures !RangeMapped(mem, root, address, |data|)
  {
    hide VByte;
  }

  lemma WrittenPiece(mem: Memory, root: int, sh: Shadow, at: nat, data: seq<byte>)
    requires Tree(mem, root, sh) && at < USER_TOP
    requires Leaf(mem, root, Indices(at)).present && at % PAGE_BYTES + |data| <= PAGE_BYTES
    ensures var f := Leaf(mem, root, Indices(at)).frame;
            && f in mem && mem[f].Page? && |mem[f].bytes| == PAGE_BYTES
            && Written(mem, SetBytes(mem, f, at % PAGE_BYTES, data), root, at, data)
            && SameLeaves(mem, SetBytes(mem, f, at % PAGE_BYTES, data), root)
  {
    hide Tree, VByte, Indices, SetBytes, Leaf;
    SetBytesView(mem, root, sh, at, data, at);
    var mem' := SetBytes(mem, Leaf(mem, root, Indices(at)).frame, at % PAGE_BYTES, data);
    forall a | 0 <= a < USER_TOP
      ensures VByte(mem', root, a) == if at <= a < at + |data| then Some(data[a - at]) else VByte(mem, root, a)
    {
      SetBytesView(mem, root, sh, at, data, a);
    }
    forall v: VPage | v.Valid()
      ensures Leaf(mem', root, v) == Leaf(mem, root, v)
    {
      SameEntriesSameLeaf(mem, mem', root, v);
    }
  }

  lemma SameEntriesSameLeaf(mem: Memory, mem': Memory, root: int, v: VPage)
    requires KeepsTables(mem, mem')
    ensures Leaf(mem', root, v) == Leaf(mem, root, v)
  {
    SameEntriesSameWalk(mem, mem', root, v, 3);
  }

  lemma MappedPiece(mem: Memory, m1: Memory, root: int, address: nat, copied: nat, data: seq<byte>, chunk: nat)
    requires RangeMapped(mem, root, address, copied) && SameLeaves(mem, m1, root)
    requires copied + chunk <= |data| && address + copied + chunk <= USER_TOP && chunk > 0
    requires (address + copied) % PAGE_BYTES + chunk <= PAGE_BYTES
    requires Leaf(m1, root, Indices(address + copied)).present
    ensures RangeMapped(mem, root, address, copied + chunk)
  {
    hide Indices, Leaf;
    forall a | address + copied <= a < address + copied + chunk
      ensures VByte(mem, root, a).Some?
    {
      SamePage(address + copied, a - (address + copied));
      UserIndices(a);
    }
  }

  lemma WrittenStep(m0: Memory, m1: Memory, m2: Memory, root: int, address: nat, data: seq<byte>, copied: nat,
                    chunk: nat)
    requires copied + chunk <= |data|
    requires Written(m0, m1, root, address, data[..copied])
    requires Written(m1, m2, root, address + copied, data[copied..copied + chunk])
    ensures Written(m0, m2, root, address, data[..copied + chunk])
  {
    hide VByte;
  }

  /** Two writes one after the other. */
  lemma WrittenAppend(m0: Memory, m1: Memory, m2: Memory, root: int, address: nat, x: seq<byte>, y: seq<byte>)
    requires Written(m0, m1, root, address, x) && Written(m1, m2, root, address + |x|, y)
    ensures Written(m0, m2, root, address, x + y)
  {
    hide VByte;
  }

  /** A range that `copy_user` can write to. */
  ghost predicate CanWrite(mem: Memory, root: int, address: nat, size: nat) {
    RangeMapped(mem, root, address, size) && RangeWritable(mem, root, address, size)
  }

  lemma CanWriteSame(m0: Memory, m1: Memory, root: int, address: nat, size: nat)
    requires SameLeaves(m0, m1, root)
    ensures CanWrite(m0, root, address, size) <==> CanWrite(m1, root, address, size)
  {
    hide Leaf, Indices;
    forall a | address <= a < address + size && a < USER_TOP
      ensures Leaf(m1, root, Indices(a)) == Leaf(m0, root, Indices(a))
      ensures VByte(m1, root, a).Some? <==> VByte(m0, root, a).Some?
    {
      UserIndices(a);
    }
  }

  lemma CanWriteLess(mem: Memory, root: int, address: nat, size: nat, less: nat)
    requires CanWrite(mem, root, address, size) && less <= size
    ensures CanWrite(mem, root, address, less)
  {
    hide Leaf, Indices, VByte;
  }

  /** What was written is what is read. */
  lemma ReadsWritten(m0: Memory, mem: Memory, root: int, address: nat, x: seq<byte>, y: seq<byte>, data: seq<byte>)
    requires Written(m0, mem, root, address, x + y) && Holds(mem, root, address, data) && |data| == |x|
    requires address + |x| <= USER_TOP
    ensures data == x
  {
    hide VByte;
    forall i | 0 <= i < |x|
      ensures data[i] == x[i]
    {
      assert VByte(mem, root, address + i) == Some(data[address + i - address]);
      assert VByte(mem, root, address + i) == Some((x + y)[address + i - address]);
    }
  }

  /** Bytes of owned pages were written; no table and no other frame changed. */
  ghost predicate Copies(mem: Memory, mem': Memory, root: int, owned: set<int>) {
    SameLeaves(mem, mem', root) && KeepsTables(mem, mem') && KeepsOthers(mem, mem', owned)
  }

  lemma CopiesRefl(m: Memory, root: int, owned: set<int>)
    ensures Copies(m, m, root, owned)
  {
  }

  lemma CopiesTrans(m0: Memory, m1: Memory, m2: Memory, root: int, owned: set<int>)
    requires Copies(m0, m1, root, owned) && Copies(m1, m2, root, owned)
    ensures Copies(m0, m2, root, owned)
  {
    hide Leaf, Entry;
  }

  /** Another space, on frames of its own, shows after a change what it showed before. */
  lemma OthersKeep(m0: Memory, m1: Memory, root: int, sh: Shadow)
    requires Tree(m0, root, sh) && Undisturbed(m0, m1, sh.level.Keys)
    ensures Tree(m1, root, sh) && SameLeaves(m0, m1, root) && SamePages(m0, sh, m1)
    ensures forall j :: Entry(m1, root, j) == Entry(m0, root, j)
  {
    hide TableAt;
    forall f, j | f in sh.level
      ensures Entry(m1, f, j) == Entry(m0, f, j)
    {
    }
    OtherTree(m0, m1, root, sh);
    forall v: VPage | v.Valid()
      ensures Leaf(m1, root, v) == Leaf(m0, root, v)
    {
      OtherWalk(m0, m1, root, sh, v, 3);
      WalkLevel(m0, root, sh, v, 3);
    }
  }

  lemma OtherTree(m0: Memory, m1: Memory, root: int, sh: Shadow)
    requires Tree(m0, root, sh) && forall f :: f in sh.level ==> f in m1 && m1[f] == m0[f]
    ensures Tree(m1, root, sh)
  {
    forall f, i | f in sh.level && sh.level[f] > 0 && 0 <= i < Limit(sh.level[f])
      ensures EntryFits(m1, sh, f, i)
    {
      assert EntryFits(m0, sh, f, i);
    }
    forall c | c in sh.level && c != root
      ensures PointedAt(m1, sh, c)
    {
      assert PointedAt(m0, sh, c);
    }
  }

  lemma {:induction false} OtherWalk(m0: Memory, m1: Memory, root: int, sh: Shadow, v: VPage, depth: nat)
    requires Tree(m0, root, sh) && v.Valid() && depth < 4
    requires forall f, j :: f in sh.level ==> Entry(m1, f, j) == Entry(m0, f, j)
    ensures TableAt(m1, root, v, depth) == TableAt(m0, root, v, depth)
  {
    hide Tree, Entry;
    if depth > 0 {
      OtherWalk(m0, m1, root, sh, v, depth - 1);
      WalkLevel(m0, root, sh, v, depth - 1);
    }
  }

  lemma SameLeavesRefl(m: Memory, root: int)
    ensures SameLeaves(m, m, root)
  {
  }

  lemma SameLeavesTrans(m0: Memory, m1: Memory, m2: Memory, root: int)
    requires SameLeaves(m0, m1, root) && SameLeaves(m1, m2, root)
    ensures SameLeaves(m0, m2, root)
  {
    hide Leaf;
  }

  lemma RangeNothing(m: Memory, root: int, address: nat)
    ensures RangeMapped(m, root, address, 0) && RangeWritable(m, root, address, 0)
  {
  }

  lemma WrittenNothing(m: Memory, root: int, address: nat)
    ensures Written(m, m, root, address, [])
  {
  }

  lemma GraftOrder(mem: Memory, f: int, i: int, e: Pte, frame: Frame)
    requires f in mem && mem[f].Table? && 0 <= i < |mem[f].entries| && f != e.frame
    ensures SetEntry(mem[e.frame := frame], f, i, e) == Graft(mem, f, i, e, frame)
  {
  }

  /** A graft keeps pages, and the root's entries outside the slot. */
  lemma GraftKeeps(mem: Memory, root: int, sh: Shadow, f: int, i: int, e: Pte, frame: Frame)
    requires CanGraft(mem, root, sh, f, i, e, frame)
    ensures SamePages(mem, sh, Graft(mem, f, i, e, frame))
    ensures forall j :: USER_ENTRIES <= j < ENTRIES ==>
            Entry(Graft(mem, f, i, e, frame), root, j) == Entry(mem, root, j)
    ensures GraftShadow(sh, f, i, e.frame).level.Keys == sh.level.Keys + {e.frame}
    ensures KeepsLevels(sh, GraftShadow(sh, f, i, e.frame))
    ensures e.frame in Graft(mem, f, i, e, frame) && Graft(mem, f, i, e, frame)[e.frame] == frame
    ensures KeepsOthers(mem, Graft(mem, f, i, e, frame), sh.level.Keys + {e.frame})
  {
    RootLevel(mem, root, sh);
  }

  lemma BranchesStart(mem: Memory, f: int, level: nat, bits: seq<bool>)
    requires level > 0
    ensures Branches(mem, f, level, 0) == {} && Unmark(bits, {}) == bits
  {
  }

  lemma BranchStep(mem: Memory, root: int, sh: Shadow, f: int, i: nat, bits: seq<bool>)
    requires Tree(mem, root, sh) && Slot(sh, f, i)
    ensures var level, e := sh.level[f], Entry(mem, f, i);
            var before, after := Branches(mem, f, level, i), Branches(mem, f, level, i + 1);
            if e.present then
              var below := Subtree(mem, e.frame, level - 1);
              && Unmark(Unmark(bits, before), below) == Unmark(bits, after)
              && multiset(after) == multiset(before) + multiset(below)
              && (level == 1 ==> below == {e.frame} && multiset(below) == multiset{e.frame})
            else after == before
  {
    hide Tree, Unmark;
    if Entry(mem, f, i).present {
      BranchesDisjoint(mem, root, sh, f, i);
      UnmarkUnion(bits, Branches(mem, f, sh.level[f], i), Subtree(mem, Entry(mem, f, i).frame, sh.level[f] - 1));
    }
  }

  lemma BranchEnd(mem: Memory, root: int, sh: Shadow, f: int, bits: seq<bool>)
    requires Tree(mem, root, sh) && f in sh.level && 0 < sh.level[f]
    ensures var below, all := Branches(mem, f, sh.level[f], Limit(sh.level[f])), Subtree(mem, f, sh.level[f]);
            && Unmark(Unmark(bits, below), {f}) == Unmark(bits, all)
            && multiset(all) == multiset(below) + multiset{f}
  {
    hide Tree, Unmark;
    var below := Branches(mem, f, sh.level[f], Limit(sh.level[f]));
    RootNotInBranches(mem, root, sh, f, Limit(sh.level[f]));
    UnmarkUnion(bits, below, {f});
    assert Subtree(mem, f, sh.level[f]) == below + {f};
  }

  lemma UnmarkUnion(bits: seq<bool>, a: set<int>, b: set<int>)
    ensures Unmark(Unmark(bits, a), b) == Unmark(bits, a + b)
    ensures a !! b ==> multiset(a + b) == multiset(a) + multiset(b)
  {
  }

  lemma IndicesValid(address: nat)
    ensures Indices(address).i4 < USER_ENTRIES ==> Indices(address).Valid()
  {
  }

  lemma WalkStart(mem: Memory, root: int, v: VPage)
    ensures TableAt(mem, root, v, 0) == Some(root)
  {
  }

  lemma SameTableSamePage(mem: Memory, root: int, sh: Shadow, v: VPage, w: VPage)
    requires Tree(mem, root, sh) && v.Valid() && w.Valid() && TableAt(mem, root, v, 3).Some?
    ensures TableAt(mem, root, w, 3) == TableAt(mem, root, v, 3) && w.i1 == v.i1 ==> v == w
  {
    if TableAt(mem, root, w, 3) == TableAt(mem, root, v, 3) {
      WalkUnique(mem, root, sh, v, w, 3);
      assert v.Index(0) == w.Index(0) && v.Index(1) == w.Index(1) && v.Index(2) == w.Index(2);
    }
  }

  lemma GrowsTrans(b0: seq<bool>, l0: set<int>, b1: seq<bool>, l1: set<int>, b2: seq<bool>, l2: set<int>)
    requires Grows(b0, l0, b1, l1) && Grows(b1, l1, b2, l2)
    ensures Grows(b0, l0, b2, l2)
  {
  }

  lemma GrowsNot(bits: seq<bool>, level: set<int>)
    ensures Grows(bits, level, bits, level)
  {
  }

  lemma GrowsOne(bits: seq<bool>, level: set<int>, f: int)
    requires 0 <= f < |bits| && !bits[f] && f !in level
    ensures Grows(bits, level, bits[f := true], level + {f})
  {
  }

  lemma SameShape(mem: Memory, sh: Shadow)
    ensures SamePages(mem, sh, mem) && KeepsLevels(sh, sh) && KeepsOthers(mem, mem, sh.level.Keys)
  {
  }

  lemma LeafIs(mem: Memory, root: int, v: VPage)
    ensures var t := TableAt(mem, root, v, 3);
            Leaf(mem, root, v) == if t.Some? then Entry(mem, t.value, v.i1) else ABSENT
  {
  }

  /** Rewriting the leaf of `v` changes that leaf, keeps pages, and stays in the user half. */
  lemma RetagLeaf(mem: Memory, root: int, sh: Shadow, table: int, e: Pte, v: VPage)
    requires CanRetag(mem, root, sh, table, v.i1, e) && v.Valid() && TableAt(mem, root, v, 3) == Some(table)
    requires table in mem && mem[table].Table? && 0 <= v.i1 < |mem[table].entries|
    ensures var mem' := SetEntry(mem, table, v.i1, e);
            && Leaf(mem', root, v) == e
            && (forall w: VPage :: w.Valid() && w != v ==> Leaf(mem', root, w) == Leaf(mem, root, w))
            && SamePages(mem, sh, mem') && KeepsOthers(mem, mem', sh.level.Keys)
            && (forall j :: USER_ENTRIES <= j < ENTRIES ==> Entry(mem', root, j) == Entry(mem, root, j))
  {
    hide Tree, TableAt, SetEntry;
    var mem' := SetEntry(mem, table, v.i1, e);
    RootLevel(mem, root, sh);
    RetagWalk(mem, root, sh, table, v.i1, e, v, 3);
    forall w: VPage | w.Valid() && w != v
      ensures Leaf(mem', root, w) == Leaf(mem, root, w)
    {
      RetagWalk(mem, root, sh, table, v.i1, e, w, 3);
      SameTableSamePage(mem, root, sh, v, w);
    }
  }

  lemma RootLevel(mem: Memory, root: int, sh: Shadow)
    requires Tree(mem, root, sh)
    ensures root in sh.level && sh.level[root] == 4
  {
  }

  lemma SlotInMemory(mem: Memory, root: int, sh: Shadow, f: int, i: int)
    requires Tree(mem, root, sh) && Slot(sh, f, i)
    ensures f in mem && mem[f].Table? && |mem[f].entries| == ENTRIES && 0 <= i < ENTRIES
  {
  }

  lemma SingleTableTree(mem: Memory, root: int)
    requires root in mem && mem[root].Table? && |mem[root].entries| == ENTRIES
    requires forall k :: 0 <= k < USER_ENTRIES ==> Entry(mem, root, k) == ABSENT
    ensures Tree(mem, root, Shadow(map[root := 4], map[]))
  {
  }

  lemma EmptyWalk(mem: Memory, root: int, v: VPage)
    requires v.Valid()
    requires forall k :: 0 <= k < USER_ENTRIES ==> Entry(mem, root, k) == ABSENT
    ensures Leaf(mem, root, v) == ABSENT
  {
    assert TableAt(mem, root, v, 1) == None;
    assert TableAt(mem, root, v, 2) == None;
  }

  /* ----- Whole lives ----- */

  datatype Op = MapPage(address: nat, flags: Flags) | CopyIn(address: nat, data: seq<byte>)

  lemma UnmarkGrown(b0: seq<bool>, b1: seq<bool>, level: set<int>)
    requires Grows(b0, {}, b1, level)
    ensures Unmark(b1, level) == b0
  {
  }

  /**
   Whatever is mapped, with or without success, and whatever is copied in: destroying the
   space leaves the bitmap's bytes and the page counter as they were before it was created,
   and every frame it owned has been freed exactly once.
   */
  method BuildAndDestroy(pmm: Pmm, ram: Ram, pml4: Option<seq<Pte>>, ops: seq<Op>)
    returns (created: bool, space: AddressSpace)
    requires pmm.Valid() && 0 in pmm.Used() && pmm.totalPages <= W.MAX_FRAMES
    requires pml4.Some? ==> |pml4.value| == ENTRIES
    modifies ram, pmm, pmm.bitmap
    ensures pmm.bitmap == old(pmm.bitmap) && pmm.bitmap[..] == old(pmm.bitmap[..])
    ensures pmm.Valid() && pmm.freePages == old(pmm.freePages)
    ensures created <==> pml4.Some? && FreeSet(old(pmm.Bits()), old(pmm.totalPages)) != {}
    ensures created ==> space.freed == multiset(space.sh.level.Keys)
  {
    hide BitsOf, Tree, Grows, Unmark, Leaf;
    space := new AddressSpace(pmm, ram);
    space.freed := multiset{};
    created := space.Create(pml4);
    if created {
      var i := 0;
      while i < |ops|
        invariant space.Valid() && space.pmm == pmm && space.ram == ram && space.freed == multiset{}
        invariant pmm.bitmap == old(pmm.bitmap) && pmm.totalPages == old(pmm.totalPages)
        invariant Grows(old(pmm.Bits()), {}, pmm.Bits(), space.sh.level.Keys)
      {
        ghost var b1, l1 := pmm.Bits(), space.sh.level.Keys;
        match ops[i] {
          case MapPage(address, flags) =>
            var _ := space.MapUserPage(address, flags);
            GrowsTrans(old(pmm.Bits()), {}, b1, l1, pmm.Bits(), space.sh.level.Keys);
          case CopyIn(address, data) =>
            var _ := space.CopyToSpace(address, data);
        }
        i := i + 1;
      }
      UnmarkGrown(old(pmm.Bits()), pmm.Bits(), space.sh.level.Keys);
      space.DestroyAddressSpace();
    }
    BitsDetermine(pmm.bitmap[..], old(pmm.bitmap[..]));
  }
}
