/** `load_image` as a whole: it builds a complete image or leaves no trace. */
module Exec {
  import opened Bytes
  import opened PageBitmap
  import opened PageTables
  import opened TableNodes
  import opened AddressSpaces
  import opened Segments
  import opened ImageLoader
  import opened Relocations
  import opened RelocatedImage
  import opened InitialStack
  import W = PteWords

  const PIE_BASE: nat := 0x4000_0000
  const ENOEXEC: int := -8
  const ENOMEM: int := -12
  const EINVAL: int := -22

  /** What the program headers said: the loadable segments and the dynamic table, if any. */
  datatype Headers = Headers(relocatable: bool, entry: u64, segs: seq<Segment>, dynamic: Option<(u64, u64)>,
                             phdr: u64, phentsize: u64, phnum: u64)

  function Bias(h: Headers): u64 {
    if h.relocatable then PIE_BASE else 0
  }

  /* ----- What the file says the image is ----- */

  /** What `load_image` checks of the headers before it takes a page. */
  predicate HeadersOk(h: Headers, file: seq<byte>) {
    && h.entry + Bias(h) < U64 && (h.dynamic.Some? ==> h.relocatable)
    && Accepted(h.segs, Bias(h), |file|) && EntryExecutable(h.segs, Bias(h), h.entry + Bias(h))
  }

  /** What the segments show before any relocation. */
  ghost function ImageView(h: Headers, file: seq<byte>, nx: bool): View {
    (a: nat) => if AllOk(h.segs, Bias(h), |file|) then SeeImage(h.segs, Bias(h), file, nx, a) else Unmapped
  }

  /** If there is a dynamic table, it is accepted and its relocations can be applied, one after the other. */
  ghost predicate RelocationsOk(h: Headers, file: seq<byte>, nx: bool) {
    h.dynamic.Some? ==>
      CanRelocate(ImageView(h, file, nx), h.dynamic.value.0, h.dynamic.value.1, Bias(h), h.segs)
  }

  /** What the finished image shows off the stack. */
  ghost function FinalView(h: Headers, file: seq<byte>, nx: bool): View {
    if h.dynamic.None? then ImageView(h, file, nx)
    else Relocated(ImageView(h, file, nx), h.dynamic.value.0, h.dynamic.value.1, Bias(h))
  }

  /** The names of the root, and of the tables and pages on the way to every byte of the segments and the stack. */
  ghost function NodesNeeded(h: Headers): set<seq<int>> {
    {[]} + Ways(ImagePages(h.segs, Bias(h))) + Ways(StackPages())
  }

  ghost function FramesNeeded(h: Headers): nat {
    |NodesNeeded(h)|
  }

  /** Whether an image with accepted headers loads, given how many pages are free. */
  ghost predicate Loads(h: Headers, file: seq<byte>, nx: bool, argv: seq<Str>, envp: seq<Str>, path: Str, free: nat) {
    FramesNeeded(h) <= free && StackFits(argv, envp, path) && RelocationsOk(h, file, nx)
  }

  /** What `load_image` returns. */
  ghost function StatusOf(kernel: bool, free: nat, h: Headers, file: seq<byte>, nx: bool,
                          argv: seq<Str>, envp: seq<Str>, path: Str): int {
    if |argv| > 128 || |envp| > 128 then EINVAL
    else if !HeadersOk(h, file) then ENOEXEC
    else if !kernel || free == 0 then ENOMEM
    else if Loads(h, file, nx, argv, envp, path, free) then 0
    else ENOEXEC
  }

  /** The finished image: its segments, relocated, off the stack, and a stack that can be written. */
  ghost predicate Complete(mem: Memory, root: int, h: Headers, file: seq<byte>, nx: bool) {
    && (forall a: nat :: a < STACK_BOTTOM || USER_STACK_TOP <= a < USER_TOP ==>
          See(mem, root, a) == FinalView(h, file, nx)(a))
    && (forall a: nat :: STACK_BOTTOM <= a < USER_STACK_TOP ==>
          See(mem, root, a).Mapped? && See(mem, root, a).writable && See(mem, root, a).nx == nx)
  }

  /** Page zero is not mapped, and the page of the entry point can be executed. */
  ghost predicate Starts(mem: Memory, root: int, entry: nat) {
    && (forall a: nat :: a < PAGE_BYTES ==> See(mem, root, a) == Unmapped)
    && See(mem, root, entry).Mapped? && !See(mem, root, entry).nx
  }

  /**
   A relocated image in closed form: where no target meets a later target or a later entry,
   every target holds base plus the addend that its entry has in the image of the segments,
   and every other byte of a segment is its file byte, or zero behind those.
   */
  lemma RelocatedShows(h: Headers, file: seq<byte>, nx: bool)
    requires HeadersOk(h, file) && h.dynamic.Some? && RelocationsOk(h, file, nx)
    requires var info := TableOf(ImageView(h, file, nx), h.dynamic.value.0, h.dynamic.value.1, Bias(h));
             Apart(ImageView(h, file, nx), info.rela + Bias(h), EntriesOf(info), Bias(h))
    ensures var was, now, bias := ImageView(h, file, nx), FinalView(h, file, nx), Bias(h);
            var info := TableOf(was, h.dynamic.value.0, h.dynamic.value.1, bias);
            && Shown(was, now, info.rela + bias, EntriesOf(info), bias)
            && forall a: nat, k: nat ::
                 k < |h.segs| && Contains(h.segs[k], bias, a)
                 && Untouched(was, info.rela + bias, EntriesOf(info), bias, a) ==>
                   ShowsFile(now(a), h.segs[k], bias, file, a)
  {
    hide SeeImage, Scan, Apart, AllRelocatable, ShowsValue, Untouched, EntryExecutable, SegmentOk, Clash;
    var was, now, bias := ImageView(h, file, nx), FinalView(h, file, nx), Bias(h);
    var info := TableOf(was, h.dynamic.value.0, h.dynamic.value.1, bias);
    var rela, n := info.rela + bias, EntriesOf(info);
    StepsShow(was, rela, n, bias, h.segs, n);
    forall a: nat, k: nat | k < |h.segs| && Contains(h.segs[k], bias, a) && Untouched(was, rela, n, bias, a)
      ensures ShowsFile(now(a), h.segs[k], bias, file, a)
    {
      ImageBytes(h.segs, bias, file, nx, a, k);
      InUserSpace(h.segs, bias, |file|, k, a);
      assert now(a) == was(a) == SeeImage(h.segs, bias, file, nx, a);
    }
  }

  /** A byte of a segment shows what the file has there. */
  predicate ShowsFile(seen: Seen, s: Segment, bias: u64, file: seq<byte>, a: nat) {
    seen.Mapped? && a >= Start(s, bias) &&
    var at := a - Start(s, bias);
    if at < s.filesz then s.offset + at < |file| && seen.value == file[s.offset + at] else seen.value == 0
  }

  lemma InUserSpace(segs: seq<Segment>, bias: u64, fileSize: nat, k: nat, a: nat)
    requires Accepted(segs, bias, fileSize) && k < |segs| && Contains(segs[k], bias, a)
    ensures PAGE_BYTES <= a < STACK_BOTTOM < USER_TOP && RangeValid(segs[k].offset, segs[k].filesz, fileSize)
  {
    assert SegmentOk(segs[k], bias, fileSize);
  }

  /** Page zero stays unmapped, and the entry point lies below the stack and can be executed. */
  lemma EntryRuns(h: Headers, file: seq<byte>, nx: bool)
    requires HeadersOk(h, file) && RelocationsOk(h, file, nx)
    ensures forall a: nat :: a < PAGE_BYTES || STACK_BOTTOM <= a < USER_STACK_TOP ==>
              FinalView(h, file, nx)(a) == Unmapped
    ensures var entry := h.entry + Bias(h);
            entry < STACK_BOTTOM && FinalView(h, file, nx)(entry).Mapped? && !FinalView(h, file, nx)(entry).nx
  {
    hide SeeImage, CanRelocate, Accepted, Contains, InWritable;
    var bias, entry := Bias(h), h.entry + Bias(h);
    AcceptedAllOk(h.segs, bias, |file|);
    FinalOnlyWritable(h, file, nx);
    forall a: nat | a < PAGE_BYTES || STACK_BOTTOM <= a < USER_STACK_TOP
      ensures FinalView(h, file, nx)(a) == Unmapped
    {
      ImageLimits(h.segs, bias, file, nx, a);
      assert ImageView(h, file, nx)(a) == Unmapped;
    }
    var k: nat :| k < |h.segs| && h.segs[k].executable && Contains(h.segs[k], bias, entry);
    InUserSpace(h.segs, bias, |file|, k, entry);
    ImageLimits(h.segs, bias, file, nx, entry);
    assert ImageView(h, file, nx)(entry).Mapped? && !ImageView(h, file, nx)(entry).nx;
  }

  lemma FinalOnlyWritable(h: Headers, file: seq<byte>, nx: bool)
    requires RelocationsOk(h, file, nx)
    ensures OnlyWritable(ImageView(h, file, nx), FinalView(h, file, nx), Bias(h), h.segs)
  {
    hide SeeImage, TableOk, OnlyWritable, AllRelocatable, AfterFirst, Scan;
    var view := ImageView(h, file, nx);
    OnlyWritableSame(view, Bias(h), h.segs);
    if h.dynamic.Some? {
      var info := TableOf(view, h.dynamic.value.0, h.dynamic.value.1, Bias(h));
      RelocatesWritable(view, info.rela + Bias(h), EntriesOf(info), Bias(h), h.segs);
    }
  }

  lemma NothingSeen(mem: Memory, root: int)
    requires forall v: VPage :: v.Valid() ==> Leaf(mem, root, v) == ABSENT
    ensures forall a :: 0 <= a < USER_TOP ==> See(mem, root, a) == Unmapped
  {
    hide Leaf, Indices;
    forall a | 0 <= a < USER_TOP
      ensures See(mem, root, a) == Unmapped
    {
      UserIndices(a);
    }
  }

  lemma ShowsAgrees(mem: Memory, root: int, h: Headers, file: seq<byte>, nx: bool)
    requires AllOk(h.segs, Bias(h), |file|) && ShowsImage(mem, root, h.segs, Bias(h), file, nx)
    ensures Agree(ViewOf(mem, root), ImageView(h, file, nx))
  {
    hide See, SeeImage;
  }

  lemma AgreeTrans(u: View, v: View, w: View)
    requires Agree(u, v) && Agree(v, w)
    ensures Agree(u, w)
  {
  }

  /* ----- Building it ----- */

  /** Segments, then relocations. */
  method Populate(space: AddressSpace, file: seq<byte>, h: Headers, nx: bool) returns (ok: bool)
    requires space.Valid() && Accepted(h.segs, Bias(h), |file|)
    requires forall v: VPage :: v.Valid() ==> Leaf(space.ram.mem, space.root, v) == ABSENT
    modifies space.ram, space`sh, space.pmm`freePages, space.pmm.bitmap
    ensures space.Builds()
    ensures ok ==> RelocationsOk(h, file, nx) && (h.dynamic.Some? ==> h.relocatable)
    ensures ok ==> Agree(ViewOf(space.ram.mem, space.root), FinalView(h, file, nx))
    ensures var all := old(Nodes(space.ram.mem, space.root)) + Ways(ImagePages(h.segs, Bias(h)));
            && (ok ==> Nodes(space.ram.mem, space.root) == all)
            && (!ok && RelocationsOk(h, file, nx) && (h.dynamic.Some? ==> h.relocatable) ==>
                  FreeSet(space.pmm.Bits(), space.pmm.totalPages) == {} && Nodes(space.ram.mem, space.root) < all)
  {
    hide BitsOf, Tree, Grows, Leaf, See, SeeImage, Accepted, AllOk, OnlyWritable, ShowsImage, CanRelocate, Relocated;
    hide Nodes, Ways, ImagePages, ViewOf, ImageView, Agree, KeepsLevels, KeepsOthers, FreeSet;
    AcceptedAllOk(h.segs, Bias(h), |file|);
    NothingSeen(space.ram.mem, space.root);
    ok := MapSegments(space, file, h.segs, Bias(h), nx);
    if !ok {
      return;
    }
    ShowsAgrees(space.ram.mem, space.root, h, file, nx);
    if h.dynamic.Some? {
      ghost var m0 := space.ram.mem;
      if !h.relocatable {
        return false;
      }
      ghost var v, w := ViewOf(m0, space.root), ImageView(h, file, nx);
      RelocateAgree(v, w, h.dynamic.value.0, h.dynamic.value.1, Bias(h), h.segs);
      ok := ApplyRelativeRelocations(space, h.dynamic.value.0, h.dynamic.value.1, Bias(h), h.segs);
      CopiesBuild(old(space.ram.mem), m0, space.ram.mem, space.root, space.sh.level.Keys);
      if ok {
        AgreeTrans(ViewOf(space.ram.mem, space.root), Relocated(v, h.dynamic.value.0, h.dynamic.value.1, Bias(h)),
                   FinalView(h, file, nx));
      }
    }
  }

  lemma CopiesBuild(m0: Memory, m1: Memory, m2: Memory, root: int, owned: set<int>)
    requires KeepsOthers(m0, m1, owned) && Copies(m1, m2, root, owned)
    ensures KeepsOthers(m0, m2, owned) && Nodes(m2, root) == Nodes(m1, root)
  {
    hide Nodes, Entry;
    KeepsNodes(m1, m2, root);
  }

  lemma AcceptedAllOk(segs: seq<Segment>, bias: u64, size: nat)
    requires Accepted(segs, bias, size)
    ensures AllOk(segs, bias, size)
  {
  }

  lemma NodesParts(h: Headers, before: set<seq<int>>)
    ensures {[]} + Ways(ImagePages(h.segs, Bias(h))) + Ways(StackPages()) == NodesNeeded(h)
    ensures before < {[]} + Ways(ImagePages(h.segs, Bias(h))) ==> before < NodesNeeded(h)
  {
    hide Ways, ImagePages, StackPages;
  }

  lemma Completed(m1: Memory, m2: Memory, root: int, h: Headers, file: seq<byte>, nx: bool)
    requires HeadersOk(h, file) && RelocationsOk(h, file, nx)
    requires Agree(ViewOf(m1, root), FinalView(h, file, nx)) && SameOff(m1, m2, root)
    requires StackPermissions(m1, m2, root, nx)
    ensures Complete(m2, root, h, file, nx) && Starts(m2, root, h.entry + Bias(h))
  {
    hide See, HeadersOk, RelocationsOk, FinalView;
    EntryRuns(h, file, nx);
    var view := ViewOf(m1, root);
    forall a: nat | a < STACK_BOTTOM || USER_STACK_TOP <= a < USER_TOP
      ensures See(m2, root, a) == FinalView(h, file, nx)(a)
    {
      assert view(a) == FinalView(h, file, nx)(a);
    }
    forall a: nat | STACK_BOTTOM <= a < USER_STACK_TOP
      ensures See(m2, root, a).Mapped? && See(m2, root, a).writable && See(m2, root, a).nx == nx
    {
      assert view(a) == FinalView(h, file, nx)(a) == Unmapped;
    }
  }

  /** Everything that goes into an empty space: segments, relocations, stack. */
  method Fill(space: AddressSpace, file: seq<byte>, h: Headers, nx: bool, argv: seq<Str>, envp: seq<Str>, path: Str)
    returns (ok: bool, image: Image)
    requires space.Valid() && HeadersOk(h, file) && |argv| <= 128 && |envp| <= 128
    requires forall v: VPage :: v.Valid() ==> Leaf(space.ram.mem, space.root, v) == ABSENT
    requires Nodes(space.ram.mem, space.root) == {[]}
    modifies space.ram, space`sh, space.pmm`freePages, space.pmm.bitmap
    ensures space.Builds()
    ensures ok ==> RelocationsOk(h, file, nx) && StackFits(argv, envp, path)
    ensures ok ==> Nodes(space.ram.mem, space.root) == NodesNeeded(h)
    ensures ok ==> Complete(space.ram.mem, space.root, h, file, nx)
    ensures ok ==> Starts(space.ram.mem, space.root, h.entry + Bias(h))
    ensures ok ==> StackBuilt(space.ram.mem, space.root, argv, envp, path,
                              h.phdr, h.phentsize, h.phnum, h.entry + Bias(h), image)
    ensures !ok && RelocationsOk(h, file, nx) && StackFits(argv, envp, path) ==>
              FreeSet(space.pmm.Bits(), space.pmm.totalPages) == {} && Nodes(space.ram.mem, space.root) < NodesNeeded(h)
  {
    hide BitsOf, Tree, Grows, Leaf, See, Complete, Starts, StackBuilt, StackPermissions, Accepted, EntryExecutable;
    hide StackFits, RelocationsOk, FinalView, ViewOf, Agree, Nodes, Ways, NodesNeeded, ImagePages, FreeSet, SameOff;
    image := Image(0, 0, 0, 0);
    ok := Populate(space, file, h, nx);
    NodesParts(h, Nodes(space.ram.mem, space.root));
    if ok {
      ghost var b1, l1, m1 := space.pmm.Bits(), space.sh.level.Keys, space.ram.mem;
      ok, image := MapUserStack(space, nx, argv, envp, path, h.phdr, h.phentsize, h.phnum, h.entry + Bias(h));
      GrowsTrans(old(space.pmm.Bits()), old(space.sh.level.Keys), b1, l1, space.pmm.Bits(), space.sh.level.Keys);
      if ok {
        Completed(m1, space.ram.mem, space.root, h, file, nx);
      }
    }
  }

  /* ----- Counting the pages ----- */

  /** The pages a space took are gone from the free ones, and are as many as it has nodes. */
  lemma PagesTaken(b0: seq<bool>, b1: seq<bool>, total: nat, mem: Memory, root: int, sh: Shadow)
    requires Tree(mem, root, sh) && total <= |b0| && Grows(b0, {}, b1, sh.level.Keys)
    requires forall f :: f in sh.level ==> 0 <= f < total
    ensures |b1| == |b0| && |FreeSet(b1, total)| + |Nodes(mem, root)| == |FreeSet(b0, total)|
    ensures |sh.level.Keys| == |Nodes(mem, root)|
  {
    hide Tree, Nodes;
    OwnedNodes(mem, root, sh);
    assert FreeSet(b0, total) == FreeSet(b1, total) + sh.level.Keys;
    assert FreeSet(b1, total) !! sh.level.Keys;
  }

  /** An image never takes more than four frames a page, and one for the root. */
  lemma FramesBound(h: Headers)
    ensures FramesNeeded(h) <= 1 + 4 * (|ImagePages(h.segs, Bias(h))| + USER_STACK_PAGES)
  {
    hide Ways, ImagePages;
    var image, stack := ImagePages(h.segs, Bias(h)), StackPages();
    WaysUnion(image, stack);
    WaysBound(image + stack);
    BetweenSize(STACK_BOTTOM / PAGE_BYTES, USER_STACK_TOP / PAGE_BYTES);
    assert NodesNeeded(h) == {[]} + Ways(image + stack);
    assert image + stack == image + (stack - image);
    assert stack == (stack - image) + (stack * image);
  }

  lemma FewerNodes(a: set<seq<int>>, b: set<seq<int>>)
    requires a < b
    ensures |a| < |b|
  {
    assert b == a + (b - a) && a !! (b - a) && b - a != {};
  }

  /** Frames that were in use belong to others, and were left alone. */
  lemma KeptUsed(m0: Memory, m1: Memory, b0: seq<bool>, b1: seq<bool>, total: nat, owned: set<int>)
    requires total <= |b0| && Grows(b0, {}, b1, owned) && KeepsOthers(m0, m1, owned)
    ensures Undisturbed(m0, m1, UsedSet(b0, total))
  {
  }

  lemma KeepsOthersTrans(m0: Memory, m1: Memory, m2: Memory, l1: set<int>, l2: set<int>)
    requires KeepsOthers(m0, m1, l1) && KeepsOthers(m1, m2, l2) && l1 <= l2
    ensures KeepsOthers(m0, m2, l2)
  {
  }

  lemma NothingKept(mem: Memory, bits: seq<bool>)
    ensures KeepsOthers(mem, mem, {}) && Grows(bits, {}, bits, {})
  {
  }

  lemma GrowsMore(b0: seq<bool>, l0: set<int>, b1: seq<bool>, l1: set<int>)
    requires Grows(b0, l0, b1, l1)
    ensures l0 <= l1
  {
  }

  /**
   Either the image is complete, with its segments, relocations, stack and account of pages,
   or the bitmap's bytes and the counter are exactly what they were. Which of the two, and with
   which status, is decided by the file, the strings and the number of free pages.
   */
  method LoadImage(pmm: Pmm, ram: Ram, pml4: Option<seq<Pte>>, file: seq<byte>, h: Headers, nx: bool,
                   argv: seq<Str>, envp: seq<Str>, path: Str)
    returns (status: int, space: AddressSpace, image: Image)
    requires pmm.Valid() && 0 in pmm.Used() && pmm.totalPages <= W.MAX_FRAMES
    requires pml4.Some? ==> |pml4.value| == ENTRIES
    modifies ram, pmm, pmm.bitmap
    ensures pmm.Valid() && pmm.bitmap == old(pmm.bitmap) && pmm.totalPages == old(pmm.totalPages) && fresh(space)
    ensures Undisturbed(old(ram.mem), ram.mem, old(pmm.Used()))
    ensures status != 0 ==> pmm.bitmap[..] == old(pmm.bitmap[..]) && pmm.freePages == old(pmm.freePages)
    ensures var free := |FreeSet(old(pmm.Bits()), old(pmm.totalPages))|;
            status == StatusOf(pml4.Some?, free, h, file, nx, argv, envp, path)
    ensures status == 0 ==> space.Valid() && space.pmm == pmm && space.ram == ram
    ensures status == 0 ==> HeadersOk(h, file) && h.entry + Bias(h) < U64
    ensures status == 0 ==> Grows(old(pmm.Bits()), {}, pmm.Bits(), space.sh.level.Keys)
    ensures status == 0 ==> |space.sh.level.Keys| == FramesNeeded(h)
    ensures status == 0 ==> Complete(ram.mem, space.root, h, file, nx) && |argv| <= 128
    ensures status == 0 ==> Starts(ram.mem, space.root, h.entry + Bias(h))
    ensures status == 0 ==> StackBuilt(ram.mem, space.root, argv, envp, path,
                                       h.phdr, h.phentsize, h.phnum, h.entry + Bias(h), image)
    ensures status == 0 ==> ProcessStack(ram.mem, space.root, argv, envp, path,
                                         h.phdr, h.phentsize, h.phnum, h.entry + Bias(h), image)
  {
    hide BitsOf, Tree, Grows, Leaf, See, Complete, Starts, StackBuilt, Accepted, EntryExecutable, ProcessStack;
    hide Unmark, StackFits, RelocationsOk, Nodes, NodesNeeded, FreeSet, KeepsOthers, Undisturbed;
    space := new AddressSpace(pmm, ram);
    image := Image(0, 0, 0, 0);
    NothingKept(ram.mem, pmm.Bits());
    KeptUsed(ram.mem, ram.mem, pmm.Bits(), pmm.Bits(), pmm.totalPages, {});
    if |argv| > 128 || |envp| > 128 {
      return EINVAL, space, image;
    }
    var bias := Bias(h);
    if h.entry > U64 - 1 - bias || (!h.relocatable && h.dynamic.Some?) {
      return ENOEXEC, space, image;
    }
    var accepted := CheckSegments(h.segs, bias, |file|, h.entry + bias);
    if !accepted {
      return ENOEXEC, space, image;
    }
    var created := space.Create(pml4);
    if !created {
      KeptUsed(old(ram.mem), ram.mem, old(pmm.Bits()), old(pmm.Bits()), pmm.totalPages, {});
      BitsDetermine(pmm.bitmap[..], old(pmm.bitmap[..]));
      return ENOMEM, space, image;
    }
    ghost var b1, l1, m1 := pmm.Bits(), space.sh.level.Keys, ram.mem;
    var ok;
    ok, image := Fill(space, file, h, nx, argv, envp, path);
    GrowsMore(b1, l1, pmm.Bits(), space.sh.level.Keys);
    KeepsOthersTrans(old(ram.mem), m1, ram.mem, l1, space.sh.level.Keys);
    GrowsTrans(old(pmm.Bits()), {}, b1, l1, pmm.Bits(), space.sh.level.Keys);
    KeptUsed(old(ram.mem), ram.mem, old(pmm.Bits()), pmm.Bits(), pmm.totalPages, space.sh.level.Keys);
    PagesTaken(old(pmm.Bits()), pmm.Bits(), pmm.totalPages, ram.mem, space.root, space.sh);
    if !ok {
      if Nodes(ram.mem, space.root) < NodesNeeded(h) {
        FewerNodes(Nodes(ram.mem, space.root), NodesNeeded(h));
      }
      UnmarkGrown(old(pmm.Bits()), pmm.Bits(), space.sh.level.Keys);
      space.DestroyAddressSpace();
      BitsDetermine(pmm.bitmap[..], old(pmm.bitmap[..]));
      return ENOEXEC, space, Image(0, 0, 0, 0);
    }
    StackIsAbi(ram.mem, space.root, argv, envp, path, h.phdr, h.phentsize, h.phnum, h.entry + Bias(h), image);
    return 0, space, image;
  }
}
