/**
 The kernel's object allocator over the page allocator: slabs of equal slots for sizes up
 to a page, whole pages for anything larger.
 */
module Slab {
  import opened Bytes
  import opened PageBitmap
  import opened SlabLists
  import opened SlabHeap

  /* ----- The pages held ----- */

  /** Runs of pages held: first frame to number of pages. */
  type Blocks = map<int, nat>

  ghost predicate Holds(bits: seq<bool>, total: nat, blocks: Blocks)
    requires total <= |bits|
  {
    && (forall f :: f in blocks ==> f > 0 && blocks[f] > 0 && f + blocks[f] <= total)
    && (forall f, p :: f in blocks && f <= p < f + blocks[f] ==> bits[p])
    && (forall f, g :: f in blocks && g in blocks && f < g ==> f + blocks[f] <= g)
  }

  lemma HoldsMore(bits: seq<bool>, total: nat, blocks: Blocks, f: nat, n: nat)
    requires total <= |bits| && Holds(bits, total, blocks) && f > 0 && n > 0 && FreeRun(bits, total, f, n)
    ensures f !in blocks && Holds(SetRun(bits, f, n), total, blocks[f := n])
    ensures forall g :: g in blocks ==> f + n <= g || g + blocks[g] <= f
  {
    forall g | g in blocks
      ensures f + n <= g || g + blocks[g] <= f
    {
      var p := if f < g then g else f;
      assert p < g + blocks[g] ==> bits[p];
    }
  }

  lemma HoldsLess(bits: seq<bool>, total: nat, blocks: Blocks, f: nat)
    requires total <= |bits| && total < U64 && Holds(bits, total, blocks) && f in blocks
    ensures Holds(ClearRun(bits, total, f, blocks[f]), total, blocks - {f})
  {
    var now := ClearRun(bits, total, f, blocks[f]);
    forall g, p | g in blocks - {f} && g <= p < g + blocks[g]
      ensures now[p]
    {
      assert bits[p];
      DistanceModulo(p, f);
    }
  }

  function Address(hhdm: nat, frame: int): int {
    hhdm + PAGE * frame
  }

  /** A large object's header. */
  datatype LargeHeader = LargeHeader(pages: u64, userSize: u64)

  const LARGE_OBJ_HEADER_SIZE: nat := 16

  type Larges = map<int, LargeHeader>

  function LargeHeaderAt(mem: Memory, l: int): LargeHeader {
    LargeHeader(WordAt(mem, l), WordAt(mem, l + 8))
  }

  ghost predicate LargeStored(larges: Larges, mem: Memory) {
    forall l :: l in larges ==> LargeHeaderAt(mem, l) == larges[l]
  }

  ghost predicate Block(hhdm: nat, blocks: Blocks, a: int, frame: int, n: nat) {
    a == Address(hhdm, frame) && frame in blocks && blocks[frame] == n
  }

  function FrameOf(hhdm: nat, a: int): nat {
    if a < hhdm then 0 else (a - hhdm) / PAGE
  }

  /** Every slab and every large object has its own run of pages. */
  ghost predicate Placed(hhdm: nat, blocks: Blocks, infos: Infos, larges: Larges) {
    && (forall h :: h in infos ==> Block(hhdm, blocks, h, infos[h].frame, PagesFor(infos[h].idx)))
    && (forall l :: l in larges ==> Block(hhdm, blocks, l, FrameOf(hhdm, l), larges[l].pages))
    && infos.Keys !! larges.Keys
  }

  /** A slab shares no byte with the header of a large object. */
  lemma LargeOffSlab(hhdm: nat, blocks: Blocks, infos: Infos, larges: Larges, bits: seq<bool>, total: nat,
                     h: int, l: int)
    requires total <= |bits| && Holds(bits, total, blocks) && Placed(hhdm, blocks, infos, larges)
    requires h in infos && l in larges
    ensures l + PAGE <= h || h + SlabBytes(infos[h].idx) <= l
  {
    hide PagesFor;
    assert Block(hhdm, blocks, h, infos[h].frame, PagesFor(infos[h].idx));
    assert Block(hhdm, blocks, l, FrameOf(hhdm, l), larges[l].pages);
  }

  /** A change inside one slab leaves the headers of large objects and of other slabs alone. */
  lemma Elsewhere(hhdm: nat, blocks: Blocks, headers: Headers, infos: Infos, lives: Lives, larges: Larges,
                  bits: seq<bool>, total: nat, mem: Memory, mem': Memory, h: int)
    requires total <= |bits| && Holds(bits, total, blocks) && Placed(hhdm, blocks, infos, larges)
    requires Heap(headers, infos, lives, mem) && h in infos && Stored(headers, mem) && LargeStored(larges, mem)
    requires forall b :: !(h <= b < h + SlabBytes(infos[h].idx)) ==> ByteAt(mem', b) == ByteAt(mem, b)
    ensures LargeStored(larges, mem') && Stored(headers[h := HeaderAt(mem', h)], mem')
  {
    hide ByteAt, WordAt, SlabBytes, SlabOk, LiveOk, Placed, Holds, Total, SlotOf;
    forall l | l in larges
      ensures LargeHeaderAt(mem', l) == larges[l]
    {
      LargeOffSlab(hhdm, blocks, infos, larges, bits, total, h, l);
      WordSame(mem, mem', l);
      WordSame(mem, mem', l + 8);
    }
    forall g | g in headers && g != h
      ensures HeaderAt(mem', g) == headers[g]
    {
      assert Apart(g, infos[g].idx, h, infos[h].idx);
      HeaderFits(infos[g].idx);
      HeaderSame(mem, mem', g);
    }
  }

  lemma ApartPages(hhdm: nat, f: int, i: nat, g: int, j: nat)
    requires f + PagesFor(i) <= g || g + PagesFor(j) <= f
    ensures Apart(Address(hhdm, f), i, Address(hhdm, g), j)
  {
    hide PagesFor;
  }

  /** `f` is where the lowest run of `n` free pages starts. */
  ghost predicate LowestRun(bits: seq<bool>, total: nat, f: nat, n: nat)
    requires total <= |bits|
  {
    FreeRun(bits, total, f, n) && forall s: nat :: FreeRun(bits, total, s, n) ==> f <= s
  }

  /** There are pages for a slab of each class from `idx` on, each taken from the lowest run that is left. */
  ghost predicate RoomForSlabs(bits: seq<bool>, total: nat, idx: nat)
    requires total <= |bits|
    decreases NUM_CACHES - idx
  {
    idx >= NUM_CACHES ||
    exists f: nat :: LowestRun(bits, total, f, PagesFor(idx)) &&
                     RoomForSlabs(SetRun(bits, f, PagesFor(idx)), total, idx + 1)
  }

  lemma RoomTaken(bits: seq<bool>, total: nat, idx: nat, f: nat)
    requires total <= |bits| && idx < NUM_CACHES && LowestRun(bits, total, f, PagesFor(idx))
    ensures RoomForSlabs(bits, total, idx) <==> RoomForSlabs(SetRun(bits, f, PagesFor(idx)), total, idx + 1)
  {
    hide FreeRun, SetRun, PagesFor;
  }

  lemma NoRoom(bits: seq<bool>, total: nat, idx: nat)
    requires total <= |bits| && idx < NUM_CACHES && forall s: nat :: !FreeRun(bits, total, s, PagesFor(idx))
    ensures !RoomForSlabs(bits, total, idx)
  {
    hide FreeRun, SetRun, PagesFor;
  }

  lemma AllRoom(bits: seq<bool>, total: nat)
    requires total <= |bits|
    ensures RoomForSlabs(bits, total, NUM_CACHES)
  {
  }

  /** The pages of one slab of each class from `idx` on. */
  function PagesFrom(idx: nat): nat
    decreases NUM_CACHES - idx
  {
    if idx >= NUM_CACHES then 0 else PagesFor(idx) + PagesFrom(idx + 1)
  }

  lemma AllClasses()
    ensures PagesFrom(0) == 16
  {
    LargestSize();
    assert IndexToSize(0) == 16 && IndexToSize(1) == 32 && IndexToSize(2) == 64 && IndexToSize(3) == 128;
    assert IndexToSize(5) == 512 && IndexToSize(6) == 1024 && IndexToSize(7) == 2048;
    assert PagesFor(0) == 1 && PagesFor(1) == 1 && PagesFor(2) == 1 && PagesFor(3) == 1 && PagesFor(4) == 1;
    assert PagesFor(5) == 1 && PagesFor(6) == 2 && PagesFor(7) == 3 && PagesFor(8) == 5;
    assert PagesFrom(9) == 0 && PagesFrom(8) == 5 && PagesFrom(7) == 8 && PagesFrom(6) == 10 && PagesFrom(5) == 11;
    assert PagesFrom(4) == 12 && PagesFrom(3) == 13 && PagesFrom(2) == 14 && PagesFrom(1) == 15;
  }

  /** Where there is a free run, there is a lowest one. */
  lemma {:induction false} LowestExists(bits: seq<bool>, total: nat, s: nat, n: nat) returns (f: nat)
    requires total <= |bits| && FreeRun(bits, total, s, n)
    ensures f <= s && LowestRun(bits, total, f, n)
    decreases s
  {
    hide FreeRun;
    if t: nat :| t < s && FreeRun(bits, total, t, n) {
      f := LowestExists(bits, total, t, n);
    } else {
      f := s;
    }
  }

  /** As many free pages in a row as all the slabs take are enough, wherever the lowest runs are. */
  lemma {:induction false} RoomInRun(bits: seq<bool>, total: nat, idx: nat, s: nat)
    requires total <= |bits| && idx <= NUM_CACHES && FreeRun(bits, total, s, PagesFrom(idx))
    ensures RoomForSlabs(bits, total, idx)
    decreases NUM_CACHES - idx
  {
    hide PagesFor;
    if idx < NUM_CACHES {
      var n := PagesFor(idx);
      assert FreeRun(bits, total, s, n);
      var f := LowestExists(bits, total, s, n);
      var rest := if s < f + n then f + n else s;
      assert FreeRun(SetRun(bits, f, n), total, rest, PagesFrom(idx + 1));
      RoomInRun(SetRun(bits, f, n), total, idx + 1, rest);
    }
  }

  /** With fewer free pages than the slabs take there is no room. */
  lemma {:induction false} RoomTakesPages(bits: seq<bool>, total: nat, idx: nat)
    requires total <= |bits| && idx <= NUM_CACHES && RoomForSlabs(bits, total, idx)
    ensures |FreeSet(bits, total)| >= PagesFrom(idx)
    decreases NUM_CACHES - idx
  {
    hide PagesFor;
    if idx < NUM_CACHES {
      var n := PagesFor(idx);
      var f: nat :| LowestRun(bits, total, f, n) && RoomForSlabs(SetRun(bits, f, n), total, idx + 1);
      RoomTakesPages(SetRun(bits, f, n), total, idx + 1);
      RunSize(bits, total, f, n);
    }
  }

  lemma {:induction false} RunSize(bits: seq<bool>, total: nat, f: nat, n: nat)
    requires total <= |bits| && FreeRun(bits, total, f, n)
    ensures |FreeSet(bits, total)| == |FreeSet(SetRun(bits, f, n), total)| + n
    decreases n
  {
    if n == 0 {
      assert SetRun(bits, f, n) == bits;
    } else {
      RunSize(bits, total, f, n - 1);
      assert SetRun(bits, f, n) == SetRun(bits, f, n - 1)[f + n - 1 := true];
      FreeSetUpdate(SetRun(bits, f, n - 1), total, f + n - 1, true);
    }
  }

  /**
   When `init` finds its pages: sixteen free pages in a row are enough, and fewer than
   sixteen free pages never are.
   */
  lemma RoomAtBoot(bits: seq<bool>, total: nat)
    requires total <= |bits|
    ensures (exists s: nat :: FreeRun(bits, total, s, 16)) ==> RoomForSlabs(bits, total, 0)
    ensures |FreeSet(bits, total)| < 16 ==> !RoomForSlabs(bits, total, 0)
  {
    hide FreeRun, RoomForSlabs, PagesFor;
    AllClasses();
    if s: nat :| FreeRun(bits, total, s, 16) {
      RoomInRun(bits, total, 0, s);
    }
    if RoomForSlabs(bits, total, 0) {
      RoomTakesPages(bits, total, 0);
    }
  }

  /* ----- What callers see ----- */

  /** The bytes of the objects in `lives` have not changed. */
  ghost predicate Kept(lives: Lives, mem: Memory, mem': Memory) {
    forall b, at :: b in lives && b <= at < b + lives[b].size ==> ByteAt(mem', at) == ByteAt(mem, at)
  }

  lemma KeptTrans(lives: Lives, lives': Lives, m0: Memory, m1: Memory, m2: Memory)
    requires Kept(lives', m0, m1) && Kept(lives', m1, m2)
    requires forall b :: b in lives ==> b in lives' && lives'[b].size == lives[b].size
    ensures Kept(lives, m0, m2)
  {
    hide ByteAt;
  }

  /** Writing a header leaves every live object alone. */
  lemma KeptByHeader(headers: Headers, infos: Infos, lives: Lives, mem: Memory, h: int, mem': Memory)
    requires Heap(headers, infos, lives, mem) && h in infos
    requires forall b :: !(h <= b < h + HEADER_SIZE) ==> ByteAt(mem', b) == ByteAt(mem, b)
    ensures Kept(lives, mem, mem')
  {
    hide Heap, ByteAt;
    forall b, at | b in lives && b <= at < b + lives[b].size
      ensures ByteAt(mem', at) == ByteAt(mem, at)
    {
      LiveOffHeaders(headers, infos, lives, mem, b, h);
    }
  }

  lemma KeptByCreate(headers: Headers, infos: Infos, lives: Lives, mem: Memory, mem': Memory, h: int, idx: nat)
    requires Heap(headers, infos, lives, mem)
    requires forall g :: g in infos ==> Apart(h, idx, g, infos[g].idx)
    requires forall a :: !(h <= a < h + SlabBytes(idx)) ==> ByteAt(mem', a) == ByteAt(mem, a)
    ensures Kept(lives, mem, mem')
  {
    hide SlabOk, IndexToSize, Total, SlotOf, SlabBytes, ByteAt;
    forall b, at | b in lives && b <= at < b + lives[b].size
      ensures ByteAt(mem', at) == ByteAt(mem, at)
    {
      assert LiveOk(b, lives[b], infos);
      SlotBounds(lives[b].slab, infos[lives[b].slab].idx, lives[b].slot);
    }
  }

  lemma KeptByFree(headers: Headers, infos: Infos, lives: Lives, mem: Memory, p: int, v: u64)
    requires Heap(headers, infos, lives, mem) && p in lives
    ensures Kept(lives - {p}, mem, Poke(mem, p, v))
  {
    hide Heap, ByteAt, Poke;
    forall b, at | b in lives - {p} && b <= at < b + lives[b].size
      ensures ByteAt(Poke(mem, p, v), at) == ByteAt(mem, at)
    {
      SlotsHeldApart(headers, infos, lives, mem, b, p);
    }
  }

  /** A live object shares no byte with the first words of another's slot. */
  lemma SlotsHeldApart(headers: Headers, infos: Infos, lives: Lives, mem: Memory, b: int, p: int)
    requires Heap(headers, infos, lives, mem) && p in lives && b in lives && b != p
    ensures b + lives[b].size <= p || p + 16 <= b
  {
    hide IndexToSize, Total, SlabBytes, SlotOf, SlabOk;
    var x, y := lives[b], lives[p];
    assert LiveOk(b, x, infos) && LiveOk(p, y, infos);
    SlotBounds(x.slab, infos[x.slab].idx, x.slot);
    SlotBounds(y.slab, infos[y.slab].idx, y.slot);
    SlotWord(infos[y.slab].idx);
    if x.slab == y.slab {
      SlotsOrdered(x.slab, infos[x.slab].idx, x.slot, y.slot);
    } else {
      assert Apart(x.slab, infos[x.slab].idx, y.slab, infos[y.slab].idx);
    }
  }

  lemma LiveSize(headers: Headers, infos: Infos, lives: Lives, mem: Memory, a: int)
    requires Heap(headers, infos, lives, mem) && a in lives
    ensures lives[a].size > 0 && a > 0
  {
    hide IndexToSize, Total, SlotOf, SlabBytes;
    assert LiveOk(a, lives[a], infos);
    SlotBounds(lives[a].slab, infos[lives[a].slab].idx, lives[a].slot);
    assert SlabOk(lives[a].slab, headers[lives[a].slab], infos[lives[a].slab], mem);
  }

  datatype FreeOutcome = Freed | DoubleFree | InvalidFree | Ignored

  class Allocator {
    const pmm: Pmm
    const hhdm: nat
    var caches: seq<u64>
    var mem: Memory
    ghost var headers: Headers
    ghost var larges: Larges
    ghost var infos: Infos
    ghost var lives: Lives
    ghost var order: seq<seq<int>>
    ghost var blocks: Blocks

    ghost predicate PagesOk()
      reads pmm, pmm.bitmap, `blocks
    {
      && pmm.Valid() && 0 < pmm.totalPages && hhdm + PAGE * pmm.totalPages <= U64 && pmm.Bits()[0]
      && Holds(pmm.Bits(), pmm.totalPages, blocks)
    }

    lemma PagesFacts()
      requires PagesOk()
      ensures pmm.totalPages <= |pmm.Bits()| && hhdm + PAGE * pmm.totalPages <= U64
      ensures forall g :: g in blocks ==> blocks[g] > 0
    {
      hide BitsOf;
    }

    ghost predicate Valid()
      reads this, pmm, pmm.bitmap
    {
      && PagesOk()
      && Heap(headers, infos, lives, mem)
      && Listed(headers, infos, caches, order)
      && Placed(hhdm, blocks, infos, larges)
      && Stored(headers, mem) && LargeStored(larges, mem)
    }

    /** The caches before `init`. */
    constructor (pmm: Pmm, hhdm: nat)
      requires pmm.Valid() && 0 in pmm.Used() && hhdm + PAGE * pmm.totalPages <= U64
      ensures Valid() && this.pmm == pmm && this.hhdm == hhdm && lives == map[] && larges == map[] && infos == map[]
    {
      this.pmm, this.hhdm := pmm, hhdm;
      caches, mem := seq(NUM_CACHES, _ => 0), map[];
      headers, larges, infos, lives := map[], map[], map[], map[];
      order, blocks := seq(NUM_CACHES, _ => []), map[];
    }

    /** The loop that links the slots of a new slab into a free list. */
    method BuildList(h: int, ghost idx: nat, size: nat, total: nat) returns (freeList: int)
      requires h > 0 && size == IndexToSize(idx) && total == Total(idx) && h + SlabBytes(idx) <= U64
      modifies `mem
      ensures Linked(mem, freeList, Slots(h, idx, total)) && 0 <= freeList < U64
      ensures forall a :: !(h + HEADER_SIZE <= a < h + SlabBytes(idx)) ==> ByteAt(mem, a) == old(ByteAt(mem, a))
    {
      hide IndexToSize, Total, SlabBytes, Slot, Linked, Slots, ByteAt, Poke;
      freeList := 0;
      assert Linked(mem, 0, Slots(h, idx, 0)) by {
        LinkedEmpty(mem, Slots(h, idx, 0));
      }
      for i := 0 to total
        invariant Linked(mem, freeList, Slots(h, idx, i)) && 0 <= freeList < U64
        invariant forall a :: !(h + HEADER_SIZE <= a < h + SlabBytes(idx)) ==> ByteAt(mem, a) == old(ByteAt(mem, a))
      {
        var slot := Slot(h, size, i);
        assert slot == SlotOf(h, idx, i);
        SlotBounds(h, idx, i);
        SlotsPush(h, idx, i);
        SlotWord(idx);
        SlotsBefore(h, idx, i);
        LinkedPush(mem, freeList, Slots(h, idx, i), slot);
        mem := Poke(mem, slot, freeList);
        freeList := slot;
      }
    }

    /** A free run of pages taken from the page allocator, or 0. */
    method TakePages(n: nat) returns (phys: nat)
      requires PagesOk() && n > 0
      modifies `blocks, pmm`freePages, pmm.bitmap
      ensures PagesOk()
      ensures phys == 0 <==> forall s: nat :: !FreeRun(old(pmm.Bits()), pmm.totalPages, s, n)
      ensures phys == 0 ==> pmm.Bits() == old(pmm.Bits()) && blocks == old(blocks)
      ensures phys != 0 ==>
                && phys == PAGE * (phys / PAGE) && blocks == old(blocks)[phys / PAGE := n]
                && phys / PAGE !in old(blocks)
                && LowestRun(old(pmm.Bits()), pmm.totalPages, phys / PAGE, n)
                && pmm.Bits() == SetRun(old(pmm.Bits()), phys / PAGE, n)
      ensures phys != 0 ==> forall g :: g in old(blocks) ==> phys / PAGE + n <= g || g + old(blocks)[g] <= phys / PAGE
    {
      hide BitsOf, FreeRun;
      phys := pmm.AllocPages(n);
      NoPageZero(old(pmm.Bits()), pmm.totalPages, n);
      if phys != 0 {
        HoldsMore(old(pmm.Bits()), pmm.totalPages, blocks, phys / PAGE, n);
        blocks := blocks[phys / PAGE := n];
      }
    }

    /** `create_slab`: the fewest pages that fit the header and four objects. */
    method CreateSlab(idx: nat) returns (h: u64)
      requires Valid() && idx < NUM_CACHES
      modifies this, pmm`freePages, pmm.bitmap
      ensures Valid() && lives == old(lives) && larges == old(larges) && Kept(lives, old(mem), mem)
      ensures h == 0 <==> forall s: nat :: !FreeRun(old(pmm.Bits()), pmm.totalPages, s, PagesFor(idx))
      ensures h == 0 ==> pmm.Bits() == old(pmm.Bits()) && infos == old(infos)
      ensures h != 0 ==>
                && LowestRun(old(pmm.Bits()), pmm.totalPages, FrameOf(hhdm, h), PagesFor(idx))
                && pmm.Bits() == SetRun(old(pmm.Bits()), FrameOf(hhdm, h), PagesFor(idx))
      ensures h != 0 ==> h !in old(infos) && h in infos && infos == old(infos)[h := infos[h]]
      ensures h != 0 ==> infos[h].idx == idx && |infos[h].chain| == Total(idx)
      ensures |old(caches)| == NUM_CACHES && (h != 0 ==> caches == old(caches)[idx := h])
    {
      hide IndexToSize, Heap, Listed, Placed, FreeRun, SlabOk, Total, PagesOk, Pmm.Valid, SetRun, Kept, Pmm.Bits,
           LowestRun;
      ListedLengths(headers, infos, caches, order);
      var objSize := IndexToSize(idx);
      var slabPages, slabTotal := CountPages(idx, objSize);
      ghost var others := blocks;
      PagesFacts();
      var phys := TakePages(slabPages);
      if phys == 0 {
        KeptSame(lives, mem);
        return 0;
      }
      RunBound(old(pmm.Bits()), pmm.totalPages, phys / PAGE, slabPages);
      InMap(hhdm, pmm.totalPages, phys / PAGE, slabPages);
      h := hhdm + phys;
      mem := map a | a in mem && !(h <= a < h + slabTotal) :: mem[a];
      FillSlab(h, idx, objSize, slabTotal, others, old(mem));
    }

    /** The new slab's header, list and place in its cache. */
    method FillSlab(h: int, idx: nat, objSize: nat, slabTotal: nat, ghost others: Blocks, ghost before: Memory)
      requires idx < NUM_CACHES && objSize == IndexToSize(idx) && slabTotal == SlabBytes(idx) && h > hhdm
      requires h + slabTotal <= U64 && Stored(headers, before) && LargeStored(larges, before)
      requires Heap(headers, infos, lives, before) && Listed(headers, infos, caches, order)
      requires Placed(hhdm, others, infos, larges)
      requires var frame := (h - hhdm) / PAGE;
               && h == Address(hhdm, frame) && frame !in others && blocks == others[frame := PagesFor(idx)]
               && forall g :: g in others ==> others[g] > 0 && (frame + PagesFor(idx) <= g || g + others[g] <= frame)
      requires forall a :: !(h <= a < h + SlabBytes(idx)) ==> ByteAt(mem, a) == ByteAt(before, a)
      modifies `headers, `caches, `mem, `infos, `order
      ensures Heap(headers, infos, lives, mem) && Listed(headers, infos, caches, order)
      ensures Placed(hhdm, blocks, infos, larges) && Kept(lives, before, mem)
      ensures Stored(headers, mem) && LargeStored(larges, mem)
      ensures h !in old(infos) && h in infos && infos == old(infos)[h := infos[h]]
      ensures infos[h].idx == idx && |infos[h].chain| == Total(idx)
      ensures |old(caches)| == NUM_CACHES && caches == old(caches)[idx := h]
    {
      hide IndexToSize, Heap, Listed, Placed, Linked, IsSlot, WordAt, ByteAt, PagesFor, SlabBytes, Kept, Stored;
      hide LargeStored, PutHeader, HeaderAt;
      var total := (slabTotal - HEADER_SIZE) / objSize;
      assert total == Total(idx);
      var freeList := BuildList(h, idx, objSize, total);
      ListedLengths(headers, infos, caches, order);
      ghost var hdr := Header(caches[idx], freeList, objSize, total, total);
      ghost var info := Info(idx, (h - hhdm) / PAGE, Slots(h, idx, total));
      AllSlots(h, idx, total);
      assert SlabOk(h, hdr, info, mem);
      hide Total, Slots, Address, SlabOk;
      WordSizes(idx, slabTotal, total);
      PutHeaderIs(mem, h, caches[idx], freeList, objSize, total, total);
      SlabOffHeader(h, hdr, info, mem, PutHeader(mem, h, caches[idx], freeList, objSize, total, total));
      mem := PutHeader(mem, h, caches[idx], freeList, objSize, total, total);
      HeaderFits(idx);
      NewSlab(hhdm, others, headers, infos, lives, larges, before, h, hdr, info, mem);
      ListedAdd(headers, infos, caches, order, h, hdr, info);
      headers, caches := headers[h := hdr], caches[idx := h];
      infos, order := infos[h := info], order[idx := [h] + order[idx]];
    }

    /** `init`: one slab in every cache. */
    method Init() returns (panic: bool)
      requires Valid()
      modifies this, pmm`freePages, pmm.bitmap
      ensures Valid() && lives == old(lives) && larges == old(larges)
      ensures panic <==> !RoomForSlabs(old(pmm.Bits()), pmm.totalPages, 0)
      ensures (exists f: nat :: FreeRun(old(pmm.Bits()), pmm.totalPages, f, 16)) ==> !panic
      ensures |FreeSet(old(pmm.Bits()), pmm.totalPages)| < 16 ==> panic
      ensures !panic ==> forall i :: 0 <= i < NUM_CACHES ==> caches[i] != 0
    {
      hide Stored, LargeStored, FreeSet;
      hide Heap, Listed, Placed, Holds, Kept, RoomForSlabs, Pmm.Bits, SetRun, FreeRun, PagesFor;
      RoomAtBoot(pmm.Bits(), pmm.totalPages);
      ListedLengths(headers, infos, caches, order);
      for i := 0 to NUM_CACHES
        invariant Valid() && lives == old(lives) && larges == old(larges)
        invariant RoomForSlabs(old(pmm.Bits()), pmm.totalPages, 0) == RoomForSlabs(pmm.Bits(), pmm.totalPages, i)
        invariant |caches| == NUM_CACHES && forall j :: 0 <= j < i ==> caches[j] != 0
      {
        ghost var bits := pmm.Bits();
        var h := CreateSlab(i);
        ListedLengths(headers, infos, caches, order);
        if h == 0 {
          NoRoom(bits, pmm.totalPages, i);
          return true;
        }
        RoomTaken(bits, pmm.totalPages, i, FrameOf(hhdm, h));
      }
      AllRoom(pmm.Bits(), pmm.totalPages);
      return false;
    }

    /** The first object of slab `h`'s free list, after the check that it lies in the slab. */
    method TakeObject(h: u64, ghost size: nat) returns (a: u64, corrupted: bool)
      requires Valid() && h in infos && h in headers
      requires headers[h].freeCount > 0 && size > 0 && IsClass(size, infos[h].idx)
      modifies `mem, `headers, `infos, `lives
      ensures Valid() && !corrupted && Granted(old(lives), lives, a, size) && Kept(old(lives), old(mem), mem)
    {
      hide Heap, Listed, Placed, PagesOk, Slot, Total, SlotOf, IndexToSize, SlabBytes, WordAt, ByteAt, SetList, Kept;
      hide LargeStored;
      a := WordAt(mem, h + 8);
      ghost var hdr := headers[h];
      assert hdr == HeaderAt(mem, h);
      hide Stored, HeaderAt;
      SlabAt(headers, infos, lives, mem, h);
      ghost var k := Pop(headers, infos, lives, mem, h, size);
      SlotBounds(h, infos[h].idx, k);
      var slabStart := h + HEADER_SIZE;
      var slabEnd := Slot(h, WordAt(mem, h + 16), WordAt(mem, h + 24));
      if a < slabStart || a >= slabEnd {
        return a, true;
      }
      corrupted := false;
      ghost var info := infos[h].(chain := infos[h].chain[1..]);
      ListedUpdate(headers, infos, caches, order, h, PopHeader(hdr, mem), info);
      PlacedUpdate(hhdm, blocks, infos, larges, h, info);
      var freeList, freeCount := WordAt(mem, a), WordAt(mem, h + 32) - 1;
      HeaderStored(h, SetList(mem, h, freeList, freeCount), freeList, freeCount);
      HeaderOffFree(headers[h := PopHeader(hdr, mem)], infos[h := info], lives[a := Live(h, k, size)], mem, h,
                    SetList(mem, h, freeList, freeCount));
      headers, infos := headers[h := PopHeader(hdr, mem)], infos[h := info];
      mem := SetList(mem, h, freeList, freeCount);
      lives := lives[a := Live(h, k, size)];
    }

    /** What the stores to a slab's header keep. */
    lemma HeaderStored(h: int, mem': Memory, freeList: u64, freeCount: u64)
      requires Valid() && h in infos && h in headers && mem' == SetList(mem, h, freeList, freeCount)
      ensures Stored(headers[h := headers[h].(freeList := freeList, freeCount := freeCount)], mem')
      ensures LargeStored(larges, mem') && Kept(lives, mem, mem')
      ensures forall b :: !(h <= b < h + HEADER_SIZE) ==> ByteAt(mem', b) == ByteAt(mem, b)
    {
      hide Heap, Listed, Placed, Holds, WordAt, ByteAt, SetList, Kept, LargeStored, BitsOf, HeaderAt;
      SetListHeader(mem, h, freeList, freeCount);
      HeaderFits(infos[h].idx);
      KeptByHeader(headers, infos, lives, mem, h, mem');
      Elsewhere(hhdm, blocks, headers, infos, lives, larges, pmm.Bits(), pmm.totalPages, mem, mem', h);
    }

    /** The first slab of cache `idx` with a free object, or 0. */
    method FindSlab(idx: nat) returns (slab: u64)
      requires Valid() && idx < NUM_CACHES
      ensures slab != 0 ==> slab in infos && infos[slab].idx == idx && slab in headers && headers[slab].freeCount > 0
      ensures slab == 0 ==> forall h :: h in infos && infos[h].idx == idx ==> infos[h].chain == []
    {
      hide Heap, Listed, Placed, PagesOk, Linked, Total, IndexToSize, Link, WordAt;
      ListedLengths(headers, infos, caches, order);
      ghost var list, i := order[idx], 0;
      ListAt(headers, infos, caches, order, idx);
      slab := caches[idx];
      while slab != 0
        invariant 0 <= i <= |list| && slab == Link(list, i)
        invariant forall j :: 0 <= j < i ==> infos[list[j]].chain == []
        decreases |list| - i
      {
        SlabAt(headers, infos, lives, mem, slab);
        assert HeaderAt(mem, slab) == headers[slab];
        if WordAt(mem, slab + 32) > 0 {
          return;
        }
        slab := WordAt(mem, slab);
        i := i + 1;
      }
    }

    /** `alloc` for sizes a slab can hold. */
    method AllocSmall(size: nat) returns (a: u64, corrupted: bool)
      requires Valid() && 0 < size <= SLAB_SIZE_MAX
      modifies this, pmm`freePages, pmm.bitmap
      ensures Valid() && !corrupted && larges == old(larges) && Kept(old(lives), old(mem), mem)
      ensures a == 0 <==> Exhausted(old(infos), old(pmm.Bits()), pmm.totalPages, size)
      ensures a == 0 ==> lives == old(lives) && pmm.Bits() == old(pmm.Bits())
      ensures a != 0 ==> Granted(old(lives), lives, a, size)
      ensures MoreUsed(old(pmm.Bits()), pmm.Bits())
    {
      hide Heap, Listed, Placed, Holds, IndexToSize, Pmm.Bits, FreeRun, Kept, PagesFor, Total, IsClass, MoreUsed;
      hide Stored, LargeStored;
      RunMoreUsed(pmm.Bits(), 0, 0);
      var idx := SizeToIndex(size);
      ExhaustedClass(infos, pmm.Bits(), pmm.totalPages, size, idx);
      ClassBound(size, idx);
      KeptSame(lives, mem);
      var slab := FindSlab(idx);
      if slab != 0 {
        SlabAt(headers, infos, lives, mem, slab);
      } else {
        slab := CreateSlab(idx);
        if slab == 0 {
          return 0, false;
        }
        RunMoreUsed(old(pmm.Bits()), FrameOf(hhdm, slab), PagesFor(idx));
        TotalAtLeast4(idx);
        SlabAt(headers, infos, lives, mem, slab);
      }
      ghost var m1 := mem;
      a, corrupted := TakeObject(slab, size);
      KeptTrans(old(lives), old(lives), old(mem), m1, mem);
    }

    /** `alloc` for larger sizes: whole pages behind a page with the header. */
    method AllocLarge(size: u64) returns (a: u64)
      requires Valid() && size > SLAB_SIZE_MAX
      modifies `mem, `blocks, `larges, pmm`freePages, pmm.bitmap
      ensures Valid() && Kept(lives, old(mem), mem)
      ensures a == 0 <==> forall s: nat :: !FreeRun(old(pmm.Bits()), pmm.totalPages, s, LargePages(size))
      ensures a == 0 ==> larges == old(larges) && mem == old(mem) && pmm.Bits() == old(pmm.Bits())
      ensures a != 0 ==> LargeAt(a) !in old(larges)
      ensures a != 0 ==> larges == old(larges)[LargeAt(a) := LargeHeader(LargePages(size), size)]
      ensures a != 0 ==> pmm.Bits() == SetRun(old(pmm.Bits()), FrameOf(hhdm, LargeAt(a)), LargePages(size))
      ensures a != 0 ==> FreeRun(old(pmm.Bits()), pmm.totalPages, FrameOf(hhdm, LargeAt(a)), LargePages(size))
      ensures a != 0 ==> LargeHere(hhdm, mem, a, LargePages(size), size)
    {
      hide Heap, Listed, Placed, FreeRun, SetRun, PagesFor, Pmm.Bits, PagesOk, WordAt, ByteAt, Poke, Stored;
      hide Kept, Pmm.Valid, LargeStored;
      var payloadPages := (size + PAGE_SIZE - 1) % U64 / PAGE_SIZE;
      var totalPagesNeeded := payloadPages + 1;
      assert totalPagesNeeded == LargePages(size);
      ghost var others := blocks;
      PagesFacts();
      var phys := TakePages(totalPagesNeeded);
      KeptSame(lives, mem);
      if phys == 0 {
        return 0;
      }
      var virt := hhdm + phys;
      assert FrameOf(hhdm, virt) == phys / PAGE;
      RunBound(old(pmm.Bits()), pmm.totalPages, phys / PAGE, totalPagesNeeded);
      InMap(hhdm, pmm.totalPages, phys / PAGE, totalPagesNeeded);
      LargeBehind(virt);
      ghost var header := LargeHeader(totalPagesNeeded, size);
      NewLarge(hhdm, others, headers, infos, lives, larges, mem, virt, phys / PAGE, header);
      LargeWritten(hhdm, mem, phys / PAGE, totalPagesNeeded, size);
      mem := Poke(Poke(mem, virt, totalPagesNeeded), virt + 8, size);
      larges := larges[virt := header];
      return virt + LARGE_OBJ_HEADER_SIZE;
    }

    /** `alloc`. */
    method Alloc(size: u64) returns (a: u64, corrupted: bool)
      requires Valid()
      modifies this, pmm`freePages, pmm.bitmap
      ensures Valid() && !corrupted && Kept(old(lives), old(mem), mem)
      ensures size == 0 ==> a == 0
      ensures 0 < size <= SLAB_SIZE_MAX ==>
                && larges == old(larges)
                && (a == 0 <==> Exhausted(old(infos), old(pmm.Bits()), pmm.totalPages, size))
                && (a != 0 ==> Granted(old(lives), lives, a, size))
      ensures size > SLAB_SIZE_MAX ==>
                && (a == 0 <==> forall s: nat :: !FreeRun(old(pmm.Bits()), pmm.totalPages, s, LargePages(size)))
                && (a != 0 ==>
                    LargeAt(a) !in old(larges)
                    && larges == old(larges)[LargeAt(a) := LargeHeader(LargePages(size), size)])
      ensures a == 0 ==> lives == old(lives) && larges == old(larges) && pmm.Bits() == old(pmm.Bits())
      ensures size > SLAB_SIZE_MAX ==> lives == old(lives)
      ensures MoreUsed(old(pmm.Bits()), pmm.Bits())
    {
      hide Valid, MoreUsed, Kept, Exhausted, Granted, Pmm.Bits, FreeRun, SetRun;
      RunMoreUsed(pmm.Bits(), 0, 0);
      KeptSame(lives, mem);
      if size == 0 {
        return 0, false;
      }
      if size > SLAB_SIZE_MAX {
        a := AllocLarge(size);
        RunMoreUsed(old(pmm.Bits()), FrameOf(hhdm, LargeAt(a)), LargePages(size));
        return a, false;
      }
      a, corrupted := AllocSmall(size);
    }

    /** Whether `ptr` is on a free list. */
    method OnFreeList(head: u64, ptr: u64, ghost chain: seq<int>) returns (found: bool)
      requires Linked(mem, head, chain)
      ensures found <==> ptr in chain
    {
      var cur := head;
      ghost var i := 0;
      while cur != 0
        invariant 0 <= i <= |chain| && cur == (if i < |chain| then chain[i] else 0)
        invariant ptr !in chain[..i]
        decreases |chain| - i
      {
        if cur == ptr {
          return true;
        }
        assert WordAt(mem, chain[i]) == Next(chain, i);
        cur := WordAt(mem, cur);
        i := i + 1;
      }
      return false;
    }

    /**
     `free` of a pointer and a size a slab can hold. A pointer inside a slab of the class but
     not at a slot is linked in unchecked.
     */
    method FreeSmall(ptr: u64, size: nat) returns (r: FreeOutcome)
      requires Valid() && 0 < size <= SLAB_SIZE_MAX
      modifies `headers, `infos, `lives, `mem
      ensures r != Ignored
      ensures r.Freed? <==> Matching(old(infos), old(lives), ptr, size) || !AimsAtSlots(old(infos), ptr, size)
      ensures r.DoubleFree? <==> OnList(old(infos), ptr, size)
      ensures AimsAtSlots(old(infos), ptr, size) ==> Valid()
      ensures AimsAtSlots(old(infos), ptr, size) && r.Freed? ==>
              lives == old(lives) - {ptr} && Kept(lives, old(mem), mem)
      ensures !r.Freed? ==> lives == old(lives) && mem == old(mem) && infos == old(infos)
      ensures !AimsAtSlots(old(infos), ptr, size) ==> Strayed(old(infos), old(mem), mem, ptr, size)
    {
      hide Heap, Listed, Placed, PagesOk, Linked, Total, IndexToSize, Link, IsSlot, Slot, Kept, IsClass, Matching;
      hide AimsAtSlots, OnList, Stored, LargeStored, WordAt, LinkIn;
      var idx := SizeToIndex(size);
      ClassBound(size, idx);
      ListedLengths(headers, infos, caches, order);
      ghost var list, i := order[idx], 0;
      ListAt(headers, infos, caches, order, idx);
      var slab := caches[idx];
      while slab != 0
        invariant 0 <= i <= |list| && slab == Link(list, i)
        invariant forall j :: 0 <= j < i ==> !Inside(list[j], idx, ptr)
        invariant unchanged(this)
        decreases |list| - i
      {
        SlabAt(headers, infos, lives, mem, slab);
        StoredAt(headers, mem, slab);
        if slab <= ptr && ptr < Slot(slab, WordAt(mem, slab + 16), WordAt(mem, slab + 24)) {
          assert Inside(slab, idx, ptr);
          Hit(headers, infos, lives, mem, slab, idx, ptr, size);
          var found := OnFreeList(WordAt(mem, slab + 8), ptr, infos[slab].chain);
          if found {
            return DoubleFree;
          }
          PutBack(slab, ptr);
          return Freed;
        }
        slab := WordAt(mem, slab);
        i := i + 1;
      }
      Miss(headers, infos, lives, mem, idx, ptr, size);
      return InvalidFree;
    }

    /** The pointer becomes the head of the slab's free list, whatever it points at. */
    method PutBack(slab: u64, ptr: u64)
      requires Valid() && slab in infos && slab in headers
      modifies `headers, `infos, `lives, `mem
      ensures mem == LinkIn(old(mem), slab, ptr)
      ensures ptr in old(lives) && old(lives)[ptr].slab == slab ==>
                Valid() && lives == old(lives) - {ptr} && Kept(lives, old(mem), mem)
    {
      hide Heap, Listed, Placed, PagesOk, Kept, Stored, LargeStored, WordAt, ByteAt, Poke;
      if ptr in lives && lives[ptr].slab == slab {
        PutBackKeeps(slab, ptr);
        ghost var hdr, info := headers[slab], infos[slab].(chain := [ptr as int] + infos[slab].chain);
        ListedUpdate(headers, infos, caches, order, slab, PushHeader(hdr, ptr), info);
        PlacedUpdate(hhdm, blocks, infos, larges, slab, info);
        headers, infos := headers[slab := PushHeader(hdr, ptr)], infos[slab := info];
        lives := lives - {ptr};
      }
      mem := Poke(mem, ptr, WordAt(mem, slab + 8));
      mem := Poke(mem, slab + 8, ptr);
      mem := Poke(mem, slab + 32, (WordAt(mem, slab + 32) + 1) % U64);
    }

    /** Linking in a live object. */
    lemma PutBackKeeps(h: u64, p: u64)
      requires Valid() && h in infos && h in headers && p in lives && lives[p].slab == h
      ensures var hdr, info := headers[h], infos[h].(chain := [p as int] + infos[h].chain);
              var mem' := LinkIn(mem, h, p);
              && Heap(headers[h := PushHeader(hdr, p)], infos[h := info], lives - {p}, mem')
              && Stored(headers[h := PushHeader(hdr, p)], mem') && LargeStored(larges, mem')
              && Kept(lives - {p}, mem, mem')
    {
      hide Heap, Listed, Placed, Holds, BitsOf, Kept, Stored, LargeStored, WordAt, ByteAt, Poke, HeaderAt;
      hide SlabBytes, Total, SlotOf, IsSlot;
      var hdr, mem' := headers[h], LinkIn(mem, h, p);
      var m1 := Poke(mem, p, WordAt(mem, h + 8));
      StoredAt(headers, mem, h);
      ListCount(headers, infos, lives, mem, h);
      LiveIs(headers, infos, lives, mem, p);
      LiveIsSlot(p, lives[p], infos);
      IsSlotBounds(h, infos[h].idx, p);
      SlotWord(infos[h].idx);
      LinkInOff(mem, h, p);
      Push(headers, infos, lives, mem, p);
      KeptByFree(headers, infos, lives, mem, p, WordAt(mem, h + 8));
      var headers' := headers[h := PushHeader(hdr, p)];
      var infos' := infos[h := infos[h].(chain := [p as int] + infos[h].chain)];
      HeaderOffFree(headers', infos', lives - {p}, m1, h, mem');
      KeptByHeader(headers', infos', lives - {p}, m1, h, mem');
      KeptTrans(lives - {p}, lives - {p}, mem, m1, mem');
      Elsewhere(hhdm, blocks, headers, infos, lives, larges, pmm.Bits(), pmm.totalPages, mem, mem', h);
    }

    /**
     The end of `free`: the pages of a large object go back unless its header says more than
     1024. The word in front of a pointer that no large allocation returned is taken for a
     header all the same.
     */
    method FreeLarge(ptr: u64) returns (released: bool)
      requires Valid()
      modifies `blocks, `larges, pmm`freePages, pmm.bitmap
      ensures pmm.Valid()
      ensures released <==> 1 <= PagesAt(mem, ptr) <= 1024
      ensures released ==> pmm.Bits() == Released(old(pmm.Bits()), pmm.totalPages, hhdm, ptr, PagesAt(mem, ptr))
      ensures !released ==> Valid() && larges == old(larges) && pmm.Bits() == old(pmm.Bits())
      ensures LargeAt(ptr) in old(larges) ==> Valid() && (released ==> larges == old(larges) - {LargeAt(ptr)})
    {
      hide Heap, Listed, BitsOf, ClearRun, Stored, WordAt;
      var virt := LargeAt(ptr);
      var pages := WordAt(mem, virt);
      ghost var frame := FrameOf(hhdm, virt);
      if virt in larges {
        LargeBlock(hhdm, blocks, infos, larges, virt, pmm.Bits(), pmm.totalPages);
      }
      if pages == 0 || pages > 1024 {
        return false;
      }
      if virt in larges {
        assert LargeHeaderAt(mem, virt) == larges[virt];
        HoldsLess(pmm.Bits(), pmm.totalPages, blocks, frame);
        PlacedLess(hhdm, blocks, infos, larges, virt);
        StillHeld(pmm.Bits(), pmm.totalPages, frame, pages);
        blocks := blocks - {frame};
        PhysOf(hhdm, virt, frame);
      }
      pmm.FreePages((virt - hhdm) % U64, pages);
      larges := larges - {virt};
      return true;
    }

    /** `free`. */
    method Free(ptr: u64, size: u64) returns (r: FreeOutcome)
      requires Valid()
      modifies `headers, `infos, `lives, `mem, `blocks, `larges, pmm`freePages, pmm.bitmap
      ensures ptr == 0 ==> r == Ignored && unchanged(this)
      ensures ptr == 0
              || (if 0 < size <= SLAB_SIZE_MAX then AimsAtSlots(old(infos), ptr, size) else LargeAt(ptr) in old(larges))
              ==> Valid()
      ensures ptr != 0 && 0 < size <= SLAB_SIZE_MAX ==>
                && larges == old(larges) && pmm.Bits() == old(pmm.Bits()) && r != Ignored
                && (r == Freed <==> Matching(old(infos), old(lives), ptr, size) || !AimsAtSlots(old(infos), ptr, size))
                && (r == DoubleFree <==> OnList(old(infos), ptr, size))
                && (r == Freed && AimsAtSlots(old(infos), ptr, size) ==>
                      lives == old(lives) - {ptr} && Kept(lives, old(mem), mem))
                && (r != Freed ==> lives == old(lives) && mem == old(mem))
                && (!AimsAtSlots(old(infos), ptr, size) ==> Strayed(old(infos), old(mem), mem, ptr, size))
      ensures ptr != 0 && !(0 < size <= SLAB_SIZE_MAX) ==>
                && lives == old(lives) && mem == old(mem) && r in {Freed, Ignored}
                && (r == Freed <==> 1 <= PagesAt(mem, ptr) <= 1024)
                && (r == Freed ==>
                      pmm.Bits() == Released(old(pmm.Bits()), pmm.totalPages, hhdm, ptr, PagesAt(mem, ptr)))
                && (r != Freed ==> larges == old(larges) && pmm.Bits() == old(pmm.Bits()))
    {
      hide Heap, Listed, Placed, PagesOk, Kept, Matching, OnList, AimsAtSlots, Pmm.Bits, ClearRun, Strayed, Stored;
      hide LargeStored, WordAt;
      if ptr == 0 {
        return Ignored;
      }
      if size <= SLAB_SIZE_MAX && size > 0 {
        r := FreeSmall(ptr, size);
        return;
      }
      var released := FreeLarge(ptr);
      return if released then Freed else Ignored;
    }

    /** A caller's store of a word into an object it holds. */
    method Store(ghost a: int, at: int, v: u64)
      requires Valid() && a in lives && a <= at && at + 8 <= a + lives[a].size
      modifies `mem
      ensures Valid() && mem == Poke(old(mem), at, v)
    {
      hide Heap, Listed, Placed, PagesOk, Stored, LargeStored, WordAt, ByteAt, Poke;
      StoreKeeps(a, at, v);
      mem := Poke(mem, at, v);
    }

    lemma StoreKeeps(a: int, at: int, v: u64)
      requires Valid() && a in lives && a <= at && at + 8 <= a + lives[a].size
      ensures Heap(headers, infos, lives, Poke(mem, at, v))
      ensures Stored(headers, Poke(mem, at, v)) && LargeStored(larges, Poke(mem, at, v))
    {
      hide Heap, Listed, Placed, Holds, BitsOf, LargeStored, WordAt, ByteAt, Poke, SlabBytes, Total;
      hide SlotOf, IsSlot, HeaderAt;
      var h, mem' := lives[a].slab, Poke(mem, at, v);
      WriteLive(headers, infos, lives, mem, a, at, v);
      LiveIs(headers, infos, lives, mem, a);
      LiveIsSlot(a, lives[a], infos);
      IsSlotBounds(h, infos[h].idx, a);
      SlabAt(headers, infos, lives, mem, h);
      HeaderSame(mem, mem', h);
      Elsewhere(hhdm, blocks, headers, infos, lives, larges, pmm.Bits(), pmm.totalPages, mem, mem', h);
      assert headers[h := HeaderAt(mem', h)] == headers;
    }
  }

  /** From the header to the end of the last slot. */
  ghost predicate Inside(h: int, idx: nat, ptr: int) {
    h <= ptr < Slot(h, IndexToSize(idx), Total(idx))
  }

  /** Where `ptr` falls inside a slab of the class, it is the address of a slot. */
  ghost predicate AimsAtSlots(infos: Infos, ptr: int, size: nat) {
    forall h :: h in infos && IsClass(size, infos[h].idx) && Inside(h, infos[h].idx, ptr) ==>
      IsSlot(h, infos[h].idx, ptr)
  }

  /** `ptr` is a live object, and `size` is of its class. */
  ghost predicate Matching(infos: Infos, lives: Lives, ptr: int, size: nat) {
    ptr in lives && lives[ptr].slab in infos && IsClass(size, infos[lives[ptr].slab].idx)
  }

  /** `ptr` is on the free list of a slab of the class. */
  ghost predicate OnList(infos: Infos, ptr: int, size: nat) {
    exists h :: h in infos && IsClass(size, infos[h].idx) && ptr in infos[h].chain
  }

  /** Memory after `ptr` was put at the head of the list of slab `h`: three stores, which may meet one another. */
  function LinkIn(mem: Memory, h: int, ptr: u64): Memory {
    var linked := Poke(Poke(mem, ptr, WordAt(mem, h + 8)), h + 8, ptr);
    Poke(linked, h + 32, (WordAt(linked, h + 32) + 1) % U64)
  }

  /** `ptr` was put at the head of the list of the slab it falls in, whatever it points at. */
  ghost predicate Strayed(infos: Infos, mem: Memory, mem': Memory, ptr: u64, size: nat) {
    exists h :: h in infos && IsClass(size, infos[h].idx) && Inside(h, infos[h].idx, ptr) && mem' == LinkIn(mem, h, ptr)
  }

  /** Behind the header, the pointer's own first word and the head and count of the list are all that changes. */
  lemma LinkInOff(mem: Memory, h: int, ptr: u64)
    requires h + HEADER_SIZE <= ptr
    ensures var mem', hdr := LinkIn(mem, h, ptr), HeaderAt(mem, h);
            && HeaderAt(mem', h) == hdr.(freeList := ptr, freeCount := (hdr.freeCount + 1) % U64)
            && WordAt(mem', ptr) == hdr.freeList
            && (forall b :: !(h <= b < h + HEADER_SIZE) ==>
                  ByteAt(mem', b) == ByteAt(Poke(mem, ptr, WordAt(mem, h + 8)), b))
            && (forall b :: !(h <= b < h + HEADER_SIZE) && !(ptr <= b < ptr + 8) ==> ByteAt(mem', b) == ByteAt(mem, b))
  {
    hide WordAt, Poke;
    var m1 := Poke(mem, ptr, WordAt(mem, h + 8));
    var m2 := Poke(m1, h + 8, ptr);
    PokeWord(mem, ptr, WordAt(mem, h + 8));
    PokeWord(m1, h + 8, ptr);
    PokeWord(m2, h + 32, (WordAt(m2, h + 32) + 1) % U64);
  }

  /** A pointer to a header: freeing it overwrites a field of the header with the head of the list. */
  lemma HeaderFreed(mem: Memory, h: u64, ptr: u64)
    requires ptr in {h, h + 16, h + 32}
    ensures var hdr, now := HeaderAt(mem, h), HeaderAt(LinkIn(mem, h, ptr), h);
            && now.next == (if ptr == h then hdr.freeList else hdr.next) && now.freeList == ptr
            && now.objSize == (if ptr == h + 16 then hdr.freeList else hdr.objSize) && now.totalObjs == hdr.totalObjs
            && now.freeCount == ((if ptr == h + 32 then hdr.freeList else hdr.freeCount) + 1) % U64
  {
    hide WordAt, Poke;
    var m1 := Poke(mem, ptr, WordAt(mem, h + 8));
    var m2 := Poke(m1, h + 8, ptr);
    PokeWord(mem, ptr, WordAt(mem, h + 8));
    PokeWord(m1, h + 8, ptr);
    PokeWord(m2, h + 32, (WordAt(m2, h + 32) + 1) % U64);
  }

  lemma StoredAt(headers: Headers, mem: Memory, h: int)
    requires Stored(headers, mem) && h in headers
    ensures WordAt(mem, h) == headers[h].next && WordAt(mem, h + 8) == headers[h].freeList
    ensures WordAt(mem, h + 16) == headers[h].objSize && WordAt(mem, h + 24) == headers[h].totalObjs
    ensures WordAt(mem, h + 32) == headers[h].freeCount && HeaderAt(mem, h) == headers[h]
  {
    hide WordAt;
    assert HeaderAt(mem, h) == headers[h];
  }

  /** A pointer inside slab `h` is on its free list, or live, or not at a slot. */
  lemma Hit(headers: Headers, infos: Infos, lives: Lives, mem: Memory, h: int, idx: nat, ptr: int, size: nat)
    requires Heap(headers, infos, lives, mem) && h in infos && infos[h].idx == idx && IsClass(size, idx)
    requires Inside(h, idx, ptr)
    ensures AimsAtSlots(infos, ptr, size) <==> IsSlot(h, idx, ptr)
    ensures ptr in infos[h].chain ==>
              IsSlot(h, idx, ptr) && OnList(infos, ptr, size) && !Matching(infos, lives, ptr, size)
    ensures ptr !in infos[h].chain ==> !OnList(infos, ptr, size)
    ensures ptr !in infos[h].chain && IsSlot(h, idx, ptr) ==>
              ptr in lives && lives[ptr].slab == h && Matching(infos, lives, ptr, size)
    ensures !IsSlot(h, idx, ptr) ==> !Matching(infos, lives, ptr, size)
  {
    hide Inside, IsClass, Total, SlotOf, SlabOk, Apart, IsSlot, LiveOk, Heap;
    forall g | g in infos && Inside(g, infos[g].idx, ptr)
      ensures g == h
    {
      OneSlab(headers, infos, lives, mem, h, g, ptr);
    }
    assert SlabOk(h, headers[h], infos[h], mem) by {
      OneOk(headers, infos, lives, mem, h);
    }
    forall g | g in infos && ptr in infos[g].chain
      ensures g == h && IsSlot(h, idx, ptr)
    {
      OneOk(headers, infos, lives, mem, g);
      ChainSlot(g, headers[g], infos[g], mem, ptr);
      SlotInsideSlab(g, infos[g].idx, ptr);
    }
    if ptr in lives {
      LiveIs(headers, infos, lives, mem, ptr);
      LiveAt(ptr, lives[ptr], infos);
      SlotInsideSlab(lives[ptr].slab, infos[lives[ptr].slab].idx, ptr);
    }
    if ptr in infos[h].chain {
      NotLive(headers, infos, lives, mem, h, ptr);
    } else if IsSlot(h, idx, ptr) {
      SlotHeld(headers, infos, lives, mem, h, ptr);
    }
  }

  lemma OneOk(headers: Headers, infos: Infos, lives: Lives, mem: Memory, h: int)
    requires Heap(headers, infos, lives, mem) && h in infos
    ensures h in headers && SlabOk(h, headers[h], infos[h], mem)
  {
    hide SlabOk, LiveOk;
  }

  lemma ChainSlot(h: int, hdr: Header, info: Info, mem: Memory, ptr: int)
    requires SlabOk(h, hdr, info, mem) && ptr in info.chain
    ensures IsSlot(h, info.idx, ptr)
  {
    hide IsSlot, Linked, Total, IndexToSize;
  }

  lemma LiveAt(a: int, live: Live, infos: Infos)
    requires LiveOk(a, live, infos)
    ensures live.slab in infos && IsSlot(live.slab, infos[live.slab].idx, a)
  {
    hide Total, SlotOf;
  }

  lemma SlotHeld(headers: Headers, infos: Infos, lives: Lives, mem: Memory, h: int, ptr: int)
    requires Heap(headers, infos, lives, mem) && h in infos && IsSlot(h, infos[h].idx, ptr)
    ensures ptr in infos[h].chain || ptr in lives
  {
    hide SlabOk, LiveOk, Total, SlotOf, Apart;
    var k: nat :| k < Total(infos[h].idx) && ptr == SlotOf(h, infos[h].idx, k);
  }

  /** An address inside two slabs is inside one. */
  lemma OneSlab(headers: Headers, infos: Infos, lives: Lives, mem: Memory, h: int, g: int, a: int)
    requires Heap(headers, infos, lives, mem) && h in infos && g in infos
    requires Inside(h, infos[h].idx, a) && Inside(g, infos[g].idx, a)
    ensures h == g
  {
    hide Slot, Total, SlotOf, IndexToSize, SlabBytes, SlabOk, LiveOk;
    assert h != g ==> Apart(h, infos[h].idx, g, infos[g].idx);
    InsideBytes(h, infos[h].idx, a);
    InsideBytes(g, infos[g].idx, a);
  }

  /** A pointer inside no slab of the class is neither live in it nor on its lists. */
  lemma Miss(headers: Headers, infos: Infos, lives: Lives, mem: Memory, idx: nat, ptr: int, size: nat)
    requires Heap(headers, infos, lives, mem) && IsClass(size, idx)
    requires forall h :: h in infos && infos[h].idx == idx ==> !Inside(h, idx, ptr)
    ensures !Matching(infos, lives, ptr, size) && !OnList(infos, ptr, size) && AimsAtSlots(infos, ptr, size)
  {
    hide IsClass, Inside, IsSlot, Total, SlotOf, Linked;
    forall h | h in infos && IsClass(size, infos[h].idx)
      ensures !IsSlot(h, idx, ptr) && infos[h].idx == idx
    {
      ClassUnique(size, infos[h].idx, idx);
      SlotInsideSlab(h, idx, ptr);
    }
    if Matching(infos, lives, ptr, size) {
      LiveIsSlot(ptr, lives[ptr], infos);
    }
    forall h | h in infos && IsClass(size, infos[h].idx)
      ensures ptr !in infos[h].chain
    {
      assert SlabOk(h, headers[h], infos[h], mem);
    }
  }

  lemma SlotInsideSlab(h: int, idx: nat, ptr: int)
    ensures IsSlot(h, idx, ptr) ==> Inside(h, idx, ptr)
  {
    hide IsSlot, Total, IndexToSize, Slot, SlabBytes;
    if IsSlot(h, idx, ptr) {
      IsSlotBounds(h, idx, ptr);
    }
  }

  lemma LargeBlock(hhdm: nat, blocks: Blocks, infos: Infos, larges: Larges, l: int, bits: seq<bool>, total: nat)
    requires Placed(hhdm, blocks, infos, larges) && l in larges && total <= |bits| && Holds(bits, total, blocks)
    ensures FrameOf(hhdm, l) in blocks && blocks[FrameOf(hhdm, l)] == larges[l].pages > 0
    ensures l == Address(hhdm, FrameOf(hhdm, l)) && 0 < FrameOf(hhdm, l) < total
  {
    hide PagesFor;
    assert Block(hhdm, blocks, l, FrameOf(hhdm, l), larges[l].pages);
  }

  lemma PlacedLess(hhdm: nat, blocks: Blocks, infos: Infos, larges: Larges, l: int)
    requires Placed(hhdm, blocks, infos, larges) && l in larges
    ensures Placed(hhdm, blocks - {FrameOf(hhdm, l)}, infos, larges - {l})
  {
    hide PagesFor;
    var blocks' := blocks - {FrameOf(hhdm, l)};
    assert Block(hhdm, blocks, l, FrameOf(hhdm, l), larges[l].pages);
    forall h | h in infos
      ensures Block(hhdm, blocks', h, infos[h].frame, PagesFor(infos[h].idx))
    {
      assert Block(hhdm, blocks, h, infos[h].frame, PagesFor(infos[h].idx));
    }
    forall m | m in larges && m != l
      ensures Block(hhdm, blocks', m, FrameOf(hhdm, m), larges[m].pages)
    {
      assert Block(hhdm, blocks, m, FrameOf(hhdm, m), larges[m].pages);
    }
  }

  lemma StillHeld(bits: seq<bool>, total: nat, frame: nat, n: nat)
    requires 0 < total <= |bits| && 0 < frame < total < U64 && frame + n <= total && bits[0]
    ensures ClearRun(bits, total, frame, n)[0]
  {
    DistanceModulo(0, frame);
  }

  /** The pages `alloc` takes for a large object: its payload's, counted modulo 2^64, and one for the header. */
  function LargePages(size: u64): nat {
    (size + PAGE_SIZE - 1) % U64 / PAGE_SIZE + 1
  }

  /** The pages taken hold the header and the object unless the count of the payload's pages wraps around. */
  lemma LargeFits(size: u64)
    requires size > SLAB_SIZE_MAX
    ensures LARGE_OBJ_HEADER_SIZE + size <= LargePages(size) * PAGE_SIZE <==> size <= U64 - PAGE_SIZE
    ensures LargePages(size) <= 1024 <==> size <= 1023 * PAGE_SIZE || size > U64 - PAGE_SIZE
  {
    Rounded(size);
  }

  lemma Rounded(size: u64)
    ensures size <= U64 - PAGE_SIZE ==> LargePages(size) == (size + PAGE_SIZE - 1) / PAGE_SIZE + 1
    ensures size > U64 - PAGE_SIZE ==> LargePages(size) == 1
  {
  }

  /** The largest size of all is given one page, and an address inside it. */
  lemma LargestWraps()
    ensures LargePages(U64 - 1) == 1 && LARGE_OBJ_HEADER_SIZE + (U64 - 1) > LargePages(U64 - 1) * PAGE_SIZE
  {
    LargeFits(U64 - 1);
    Rounded(U64 - 1);
  }

  /** Where the header of a large object is, counted modulo 2^64. */
  function LargeAt(a: u64): u64 {
    (a - LARGE_OBJ_HEADER_SIZE) % U64
  }

  /** A large object lies 16 bytes into a page, behind the number of its pages and its size. */
  ghost predicate LargeHere(hhdm: nat, mem: Memory, a: u64, pages: u64, size: u64) {
    hhdm + 16 <= a && (a - 16 - hhdm) % 4096 == 0 && WordAt(mem, a - 16) == pages && WordAt(mem, a - 8) == size
  }

  lemma LargeWritten(hhdm: nat, mem: Memory, frame: nat, pages: u64, size: u64)
    requires hhdm + PAGE * frame + 16 < U64
    ensures var virt := hhdm + PAGE * frame;
            LargeHere(hhdm, Poke(Poke(mem, virt, pages), virt + 8, size), virt + 16, pages, size)
  {
    hide WordAt, Poke, ByteAt;
    var virt := hhdm + PAGE * frame;
    PokeWord(mem, virt, pages);
    PokeWord(Poke(mem, virt, pages), virt + 8, size);
  }

  /** A small object lies behind its slab's header of 40 bytes, at a multiple of its class's size. */
  lemma SmallHere(hhdm: nat, blocks: Blocks, headers: Headers, infos: Infos, lives: Lives, larges: Larges, mem: Memory,
                  a: int)
    requires Placed(hhdm, blocks, infos, larges) && Heap(headers, infos, lives, mem) && a in lives
    ensures var live := lives[a];
            && live.slab in infos
            && var info := infos[live.slab];
            && a == hhdm + 4096 * info.frame + 40 + live.slot * IndexToSize(info.idx)
            && live.slot < Total(info.idx) && IsClass(live.size, info.idx)
  {
    hide Total, IndexToSize, SlabOk, PagesFor;
    assert LiveOk(a, lives[a], infos);
    assert Block(hhdm, blocks, lives[a].slab, infos[lives[a].slab].frame, PagesFor(infos[lives[a].slab].idx));
  }

  lemma LargeBehind(virt: nat)
    requires virt + LARGE_OBJ_HEADER_SIZE < U64
    ensures LargeAt(virt + LARGE_OBJ_HEADER_SIZE) == virt
  {
  }

  /** The number of pages `free` finds in front of `ptr`. */
  function PagesAt(mem: Memory, ptr: u64): u64 {
    WordAt(mem, LargeAt(ptr))
  }

  /** The bitmap after the pages from the header of `ptr` on are freed. */
  ghost function Released(bits: seq<bool>, total: nat, hhdm: nat, ptr: u64, pages: nat): seq<bool> {
    ClearRun(bits, total, (LargeAt(ptr) - hhdm) % U64 / PAGE_SIZE, pages)
  }

  lemma PhysOf(hhdm: nat, virt: int, frame: nat)
    requires virt == Address(hhdm, frame) && PAGE * frame < U64
    ensures (virt - hhdm) % U64 / PAGE_SIZE == frame
  {
  }

  /** No slab of the class has a free object, and there are no pages for another slab. */
  ghost predicate Exhausted(infos: Infos, bits: seq<bool>, total: nat, size: nat)
    requires total <= |bits|
  {
    && (forall h :: h in infos && IsClass(size, infos[h].idx) ==> infos[h].chain == [])
    && (forall idx: nat, s: nat :: IsClass(size, idx) ==> !FreeRun(bits, total, s, PagesFor(idx)))
  }

  lemma ExhaustedClass(infos: Infos, bits: seq<bool>, total: nat, size: nat, idx: nat)
    requires total <= |bits| && IsClass(size, idx)
    ensures Exhausted(infos, bits, total, size) <==>
              && (forall h :: h in infos && infos[h].idx == idx ==> infos[h].chain == [])
              && (forall s: nat :: !FreeRun(bits, total, s, PagesFor(idx)))
  {
    hide IsClass, FreeRun, PagesFor;
    forall i: nat | IsClass(size, i)
      ensures i == idx
    {
      ClassUnique(size, i, idx);
    }
  }

  lemma ClassBound(size: nat, idx: nat)
    requires IsClass(size, idx)
    ensures idx < NUM_CACHES
  {
  }

  /** `a` is a new object of `size` bytes; the objects there were are still there. */
  ghost predicate Granted(lives: Lives, lives': Lives, a: int, size: nat) {
    a > 0 && a !in lives && a in lives' && lives'[a].size == size && lives' == lives[a := lives'[a]]
  }

  lemma SlabAt(headers: Headers, infos: Infos, lives: Lives, mem: Memory, h: int)
    requires Heap(headers, infos, lives, mem) && h in infos
    ensures h > 0 && h in headers && headers[h].objSize == IndexToSize(infos[h].idx)
    ensures headers[h].totalObjs == Total(infos[h].idx)
    ensures headers[h].freeCount == |infos[h].chain| && Linked(mem, headers[h].freeList, infos[h].chain)
  {
    hide LiveOk, IndexToSize, Total, IsSlot, Linked;
    assert SlabOk(h, headers[h], infos[h], mem);
  }

  lemma PlacedUpdate(hhdm: nat, blocks: Blocks, infos: Infos, larges: Larges, h: int, info: Info)
    requires Placed(hhdm, blocks, infos, larges) && h in infos
    requires info.idx == infos[h].idx && info.frame == infos[h].frame
    ensures Placed(hhdm, blocks, infos[h := info], larges)
  {
    hide PagesFor, Block, FrameOf;
  }

  lemma KeptSame(lives: Lives, mem: Memory)
    ensures Kept(lives, mem, mem)
  {
  }

  lemma ListedLengths(headers: Headers, infos: Infos, caches: seq<int>, order: seq<seq<int>>)
    requires Listed(headers, infos, caches, order)
    ensures |caches| == NUM_CACHES && |order| == NUM_CACHES
  {
  }

  /** What the links of one cache lead to. */
  lemma ListAt(headers: Headers, infos: Infos, caches: seq<int>, order: seq<seq<int>>, idx: nat)
    requires Listed(headers, infos, caches, order) && idx < NUM_CACHES && |caches| == |order| == NUM_CACHES
    ensures var list := order[idx];
            && caches[idx] == Link(list, 0) && Link(list, |list|) == 0
            && (forall i :: 0 <= i < |list| ==>
                list[i] != 0 && list[i] in infos && list[i] in headers && infos[list[i]].idx == idx)
            && (forall i :: 0 <= i < |list| ==> Link(list, i) == list[i] && headers[list[i]].next == Link(list, i + 1))
            && (forall h :: h in infos && infos[h].idx == idx ==> exists i :: 0 <= i < |list| && list[i] == h)
  {
    hide Threaded, Link;
    var list := order[idx];
    ThreadLinks(headers, caches[idx], list);
    forall i | 0 <= i < |list|
      ensures list[i] in infos && infos[list[i]].idx == idx
    {
      var h := list[i];
      assert h in order[idx];
    }
  }

  lemma ThreadLinks(headers: Headers, head: int, list: seq<int>)
    requires Threaded(headers, head, list)
    ensures head == Link(list, 0) && Link(list, |list|) == 0
    ensures forall i :: 0 <= i < |list| ==> list[i] != 0 && list[i] in headers
    ensures forall i :: 0 <= i < |list| ==> Link(list, i) == list[i] && headers[list[i]].next == Link(list, i + 1)
  {
  }

  /** Where a walk along the list stands after `i` steps. */
  function Link(list: seq<int>, i: nat): int {
    if i < |list| then list[i] else 0
  }

  lemma AllSlots(h: int, idx: nat, n: nat)
    requires n <= Total(idx)
    ensures forall i :: 0 <= i < n ==> IsSlot(h, idx, Slots(h, idx, n)[i])
  {
    hide Total, SlotOf;
    forall i | 0 <= i < n
      ensures IsSlot(h, idx, Slots(h, idx, n)[i])
    {
      SlotIsSlot(h, idx, n - 1 - i);
    }
  }

  /** The page-counting loop of `create_slab`. */
  method CountPages(idx: nat, objSize: nat) returns (slabPages: nat, slabTotal: nat)
    requires objSize == IndexToSize(idx)
    ensures slabPages == PagesFor(idx) && slabTotal == SlabBytes(idx) && slabPages > 0
  {
    hide IndexToSize;
    slabPages, slabTotal := 1, PAGE;
    while slabTotal < HEADER_SIZE + 4 * objSize
      invariant slabTotal == slabPages * PAGE && slabPages > 0
      invariant (slabPages - 1) * PAGE < HEADER_SIZE + 4 * objSize
    {
      slabPages, slabTotal := slabPages + 1, slabTotal + PAGE;
    }
  }

  /** A slab on pages of its own is apart from every other. */
  lemma NewSlab(hhdm: nat, blocks: Blocks, headers: Headers, infos: Infos, lives: Lives, larges: Larges, mem: Memory,
                h: int, hdr: Header, info: Info, mem': Memory)
    requires Heap(headers, infos, lives, mem) && Placed(hhdm, blocks, infos, larges)
    requires var n := PagesFor(info.idx);
             forall g :: g in blocks ==> blocks[g] > 0 && (info.frame + n <= g || g + blocks[g] <= info.frame)
    requires info.frame !in blocks && h == Address(hhdm, info.frame) && SlabOk(h, hdr, info, mem')
    requires info.chain == Slots(h, info.idx, Total(info.idx))
    requires Stored(headers, mem) && LargeStored(larges, mem) && HeaderAt(mem', h) == hdr
    requires forall a :: !(h <= a < h + SlabBytes(info.idx)) ==> ByteAt(mem', a) == ByteAt(mem, a)
    ensures h !in headers && h !in infos
    ensures Stored(headers[h := hdr], mem') && LargeStored(larges, mem')
    ensures Heap(headers[h := hdr], infos[h := info], lives, mem') && Kept(lives, mem, mem')
    ensures Placed(hhdm, blocks[info.frame := PagesFor(info.idx)], infos[h := info], larges)
  {
    hide IndexToSize, SlabOk, Total, WordAt, ByteAt, Slots, PagesFor, SlabBytes, Apart;
    forall g | g in infos
      ensures g != h && Apart(h, info.idx, g, infos[g].idx)
    {
      assert Block(hhdm, blocks, g, infos[g].frame, PagesFor(infos[g].idx));
      ApartPages(hhdm, info.frame, info.idx, infos[g].frame, infos[g].idx);
    }
    hide HeaderAt, Stored, LargeStored, LiveOk;
    NewStored(hhdm, blocks, headers, infos, larges, mem, h, hdr, info, mem');
    KeptByCreate(headers, infos, lives, mem, mem', h, info.idx);
    Add(headers, infos, lives, mem, h, hdr, info, mem');
  }

  lemma RunBound(bits: seq<bool>, total: nat, f: nat, n: nat)
    requires total <= |bits| && LowestRun(bits, total, f, n)
    ensures f + n <= total && FreeRun(bits, total, f, n)
  {
  }

  /** A large object on pages of its own. */
  lemma NewLarge(hhdm: nat, blocks: Blocks, headers: Headers, infos: Infos, lives: Lives, larges: Larges, mem: Memory,
                 virt: u64, frame: nat, header: LargeHeader)
    requires Heap(headers, infos, lives, mem) && Placed(hhdm, blocks, infos, larges)
    requires Stored(headers, mem) && LargeStored(larges, mem) && virt == Address(hhdm, frame) && frame !in blocks
    requires forall g :: g in blocks ==> blocks[g] > 0 && (frame + header.pages <= g || g + blocks[g] <= frame)
    requires header.pages > 0
    ensures var mem' := Poke(Poke(mem, virt, header.pages), virt + 8, header.userSize);
            && virt !in larges && Heap(headers, infos, lives, mem') && Stored(headers, mem')
            && LargeStored(larges[virt := header], mem') && Kept(lives, mem, mem')
    ensures Placed(hhdm, blocks[frame := header.pages], infos, larges[virt := header])
  {
    hide WordAt, ByteAt, Poke, PagesFor, SlabBytes, SlabOk, LiveOk, Total, SlotOf, IsSlot, Heap;
    var m1 := Poke(mem, virt, header.pages);
    var mem' := Poke(m1, virt + 8, header.userSize);
    PokeWord(mem, virt, header.pages);
    PokeWord(m1, virt + 8, header.userSize);
    forall l | l in larges
      ensures l != virt && LargeHeaderAt(mem', l) == larges[l]
    {
      assert Block(hhdm, blocks, l, FrameOf(hhdm, l), larges[l].pages);
      WordSame(mem, mem', l);
      WordSame(mem, mem', l + 8);
    }
    forall h | h in infos
      ensures h != virt && (virt + 16 <= h || h + SlabBytes(infos[h].idx) <= virt)
    {
      assert Block(hhdm, blocks, h, infos[h].frame, PagesFor(infos[h].idx));
      LargeBytes(infos[h].idx);
    }
    OffSlabs(headers, infos, lives, mem, mem', virt);
    assert FrameOf(hhdm, virt) == frame;
    PlacedMore(hhdm, blocks, infos, larges, virt, frame, header);
  }

  lemma PlacedMore(hhdm: nat, blocks: Blocks, infos: Infos, larges: Larges, virt: int, frame: nat, header: LargeHeader)
    requires Placed(hhdm, blocks, infos, larges) && virt == Address(hhdm, frame) && frame !in blocks && virt !in infos
    requires FrameOf(hhdm, virt) == frame
    ensures Placed(hhdm, blocks[frame := header.pages], infos, larges[virt := header])
  {
    hide PagesFor, FrameOf;
  }

  /** A change off every slab changes no list, no header and no live object. */
  lemma OffSlabs(headers: Headers, infos: Infos, lives: Lives, mem: Memory, mem': Memory, virt: int)
    requires Heap(headers, infos, lives, mem) && Stored(headers, mem)
    requires forall h :: h in infos ==> virt + 16 <= h || h + SlabBytes(infos[h].idx) <= virt
    requires forall b :: !(virt <= b < virt + 16) ==> ByteAt(mem', b) == ByteAt(mem, b)
    ensures Heap(headers, infos, lives, mem') && Stored(headers, mem') && Kept(lives, mem, mem')
  {
    hide WordAt, ByteAt, SlabBytes, Total, SlotOf, IsSlot, Linked, LiveOk, Apart, HeaderAt;
    forall h, i | h in infos && 0 <= i < |infos[h].chain|
      ensures WordAt(mem', infos[h].chain[i]) == WordAt(mem, infos[h].chain[i])
    {
      assert SlabOk(h, headers[h], infos[h], mem);
      IsSlotBounds(h, infos[h].idx, infos[h].chain[i]);
      SlotWord(infos[h].idx);
      WordSame(mem, mem', infos[h].chain[i]);
    }
    HeapFrame(headers, infos, lives, mem, mem');
    forall h | h in headers
      ensures HeaderAt(mem', h) == headers[h]
    {
      HeaderFits(infos[h].idx);
      HeaderSame(mem, mem', h);
    }
    forall b, at | b in lives && b <= at < b + lives[b].size
      ensures ByteAt(mem', at) == ByteAt(mem, at)
    {
      LiveFits(headers, infos, lives, mem, b);
    }
  }

  lemma ListCount(headers: Headers, infos: Infos, lives: Lives, mem: Memory, h: int)
    requires Heap(headers, infos, lives, mem) && h in infos && h in headers
    ensures headers[h].freeCount + 1 < U64
  {
    hide SlabOk, LiveOk, Total;
    assert SlabOk(h, headers[h], infos[h], mem);
    ChainShort(h, headers[h], infos[h], mem);
    ListLength(h, headers[h], infos[h], mem);
    FewSlots(infos[h].idx);
  }

  lemma ListLength(h: int, hdr: Header, info: Info, mem: Memory)
    requires SlabOk(h, hdr, info, mem)
    ensures hdr.freeCount == |info.chain| && info.idx < NUM_CACHES
  {
    hide Total, IsSlot, Linked;
  }

  lemma LargeBytes(idx: nat)
    ensures SlabBytes(idx) == PagesFor(idx) * PAGE
  {
  }

  lemma NewStored(hhdm: nat, blocks: Blocks, headers: Headers, infos: Infos, larges: Larges, mem: Memory,
                  h: int, hdr: Header, info: Info, mem': Memory)
    requires Placed(hhdm, blocks, infos, larges) && headers.Keys == infos.Keys && h == Address(hhdm, info.frame)
    requires var n := PagesFor(info.idx);
             forall g :: g in blocks ==> blocks[g] > 0 && (info.frame + n <= g || g + blocks[g] <= info.frame)
    requires forall g :: g in infos ==> Apart(h, info.idx, g, infos[g].idx)
    requires Stored(headers, mem) && LargeStored(larges, mem) && HeaderAt(mem', h) == hdr
    requires forall a :: !(h <= a < h + SlabBytes(info.idx)) ==> ByteAt(mem', a) == ByteAt(mem, a)
    ensures Stored(headers[h := hdr], mem') && LargeStored(larges, mem') && h !in larges
  {
    hide WordAt, ByteAt, PagesFor, SlabBytes, Apart, HeaderAt;
    forall g | g in headers
      ensures HeaderAt(mem', g) == headers[g]
    {
      ApartHeader(h, info.idx, g, infos[g].idx, mem, mem');
    }
    forall l | l in larges
      ensures l != h && LargeHeaderAt(mem', l) == larges[l]
    {
      assert Block(hhdm, blocks, l, FrameOf(hhdm, l), larges[l].pages);
      LargeBytes(info.idx);
      WordSame(mem, mem', l);
      WordSame(mem, mem', l + 8);
    }
  }

  lemma ApartHeader(h: int, i: nat, g: int, j: nat, mem: Memory, mem': Memory)
    requires Apart(h, i, g, j)
    requires forall a :: !(h <= a < h + SlabBytes(i)) ==> ByteAt(mem', a) == ByteAt(mem, a)
    ensures HeaderAt(mem', g) == HeaderAt(mem, g)
  {
    hide ByteAt, HeaderAt, SlabBytes;
    HeaderFits(j);
    HeaderSame(mem, mem', g);
  }

  /** The free list of a slab is off its header. */
  lemma SlabOffHeader(h: int, hdr: Header, info: Info, mem: Memory, mem': Memory)
    requires SlabOk(h, hdr, info, mem)
    requires forall b :: !(h <= b < h + HEADER_SIZE) ==> ByteAt(mem', b) == ByteAt(mem, b)
    ensures SlabOk(h, hdr, info, mem')
  {
    hide SlabOk, IsSlot, Total, WordAt, ByteAt;
    forall a | IsSlot(h, info.idx, a) && a in info.chain
      ensures WordAt(mem', a) == WordAt(mem, a)
    {
      IsSlotBounds(h, info.idx, a);
      WordSame(mem, mem', a);
    }
    SlabFrame(h, hdr, info, mem, mem');
  }

  lemma WordSizes(idx: nat, bytes: nat, total: nat)
    requires idx < NUM_CACHES && HEADER_SIZE <= bytes < U64 && total == (bytes - HEADER_SIZE) / IndexToSize(idx)
    ensures IndexToSize(idx) <= SLAB_SIZE_MAX < U64 && total < U64
  {
    hide IndexToSize;
    SizesGrow(idx, NUM_CACHES - 1);
    LargestSize();
    QuotientSmall(bytes - HEADER_SIZE, IndexToSize(idx));
  }

  /** A run of pages lies in the direct map. */
  lemma InMap(hhdm: nat, total: nat, frame: nat, n: nat)
    requires hhdm + PAGE * total <= U64 && frame + n <= total
    ensures hhdm + PAGE * frame + PAGE * n <= U64
  {
  }

  lemma SlotsBefore(h: int, idx: nat, n: nat)
    requires n < Total(idx)
    ensures forall i :: 0 <= i < n ==> Slots(h, idx, n)[i] + 16 <= SlotOf(h, idx, n)
  {
    hide IndexToSize, Total, SlotOf;
    SlotWord(idx);
    forall i | 0 <= i < n
      ensures Slots(h, idx, n)[i] + 16 <= SlotOf(h, idx, n)
    {
      SlotsOrdered(h, idx, n - 1 - i, n);
    }
  }

  lemma NoPageZero(bits: seq<bool>, total: nat, n: nat)
    requires 0 < total <= |bits| && bits[0] && n > 0
    ensures !FreeRun(bits, total, 0, n)
  {
    assert bits[0];
  }

  lemma LinkedEmpty(mem: Memory, chain: seq<int>)
    requires chain == []
    ensures Linked(mem, 0, chain)
  {
  }

  /* ----- Whole runs ----- */

  /** What a caller does: ask for a small object, write a word into one, give one back. */
  datatype Call = Ask(size: u64) | Put(a: u64, offset: nat, v: u64) | Give(a: u64)

  /** What the caller holds is what the allocator counts as live. */
  ghost predicate Agree(held: map<u64, nat>, lives: Lives) {
    held.Keys == lives.Keys && forall a :: a in held ==> held[a] == lives[a].size
  }

  /** `size` bytes at `a` fit a slot of the slab at `h`, which is of the class of that size. */
  ghost predicate FitsIn(h: int, idx: nat, a: int, size: nat) {
    IsSlot(h, idx, a) && IsClass(size, idx) && h + HEADER_SIZE <= a && a + size <= h + SlabBytes(idx)
  }

  /** Every object the caller holds is its own: inside a slot, and apart from headers, free slots and other objects. */
  ghost predicate Own(infos: Infos, held: map<u64, nat>) {
    && (forall a :: a in held ==> exists h :: h in infos && FitsIn(h, infos[h].idx, a, held[a]))
    && (forall a, b :: a in held && b in held && a != b ==> a + held[a] <= b || b + held[b] <= a)
    && (forall a, h :: a in held && h in infos ==> a + held[a] <= h || h + HEADER_SIZE <= a)
    && (forall a, h, c :: a in held && h in infos && c in infos[h].chain ==>
          a + held[a] <= c || c + IndexToSize(infos[h].idx) <= a)
  }

  lemma OwnHeld(headers: Headers, infos: Infos, lives: Lives, mem: Memory, held: map<u64, nat>)
    requires Heap(headers, infos, lives, mem) && Agree(held, lives)
    ensures Own(infos, held)
  {
    hide Heap, IndexToSize, FitsIn;
    forall a | a in held
      ensures exists h :: h in infos && FitsIn(h, infos[h].idx, a, held[a])
    {
      LiveFits(headers, infos, lives, mem, a);
    }
    forall a, b | a in held && b in held && a != b
      ensures a + held[a] <= b || b + held[b] <= a
    {
      LivesApart(headers, infos, lives, mem, a, b);
    }
    forall a, h | a in held && h in infos
      ensures a + held[a] <= h || h + HEADER_SIZE <= a
    {
      LiveOffHeaders(headers, infos, lives, mem, a, h);
    }
    forall a, h, c | a in held && h in infos && c in infos[h].chain
      ensures a + held[a] <= c || c + IndexToSize(infos[h].idx) <= a
    {
      var i :| 0 <= i < |infos[h].chain| && infos[h].chain[i] == c;
      LiveOffFree(headers, infos, lives, mem, a, h, i);
    }
  }

  lemma HeldMatches(s: Allocator, held: map<u64, nat>, a: u64)
    requires s.Valid() && Agree(held, s.lives) && a in held
    ensures a > 0 && 0 < held[a] <= SLAB_SIZE_MAX
    ensures AimsAtSlots(s.infos, a, held[a]) && Matching(s.infos, s.lives, a, held[a])
  {
    hide Heap, Listed, Placed, Total, SlotOf, IndexToSize, Inside, IsSlot;
    var x := s.lives[a];
    LiveSize(s.headers, s.infos, s.lives, s.mem, a);
    LiveIs(s.headers, s.infos, s.lives, s.mem, a);
    LiveIsSlot(a, x, s.infos);
    SlotInsideSlab(x.slab, s.infos[x.slab].idx, a);
    SizesGrow(s.infos[x.slab].idx, NUM_CACHES - 1);
    LargestSize();
    forall h | h in s.infos && Inside(h, s.infos[h].idx, a)
      ensures IsSlot(h, s.infos[h].idx, a)
    {
      OneSlab(s.headers, s.infos, s.lives, s.mem, h, x.slab, a);
    }
  }

  lemma LiveFits(headers: Headers, infos: Infos, lives: Lives, mem: Memory, a: int)
    requires Heap(headers, infos, lives, mem) && a in lives
    ensures lives[a].slab in infos && FitsIn(lives[a].slab, infos[lives[a].slab].idx, a, lives[a].size)
  {
    hide Heap, Total, SlotOf, IndexToSize, SlabBytes, IsSlot;
    LiveIs(headers, infos, lives, mem, a);
    LiveIsSlot(a, lives[a], infos);
    IsSlotBounds(lives[a].slab, infos[lives[a].slab].idx, a);
  }

  lemma LiveIs(headers: Headers, infos: Infos, lives: Lives, mem: Memory, a: int)
    requires Heap(headers, infos, lives, mem) && a in lives
    ensures LiveOk(a, lives[a], infos)
  {
    hide SlabOk, LiveOk;
  }

  lemma InsideBytes(h: int, idx: nat, a: int)
    requires Inside(h, idx, a)
    ensures h <= a < h + SlabBytes(idx)
  {
    hide IndexToSize, SlabBytes, TotalObjs, Slot;
    TotalAtLeast4(idx);
    SlotInside(h, IndexToSize(idx), SlabBytes(idx), 0);
  }

  /** What the caller holds, and the bytes it has stored in what it holds. */
  datatype Session = Session(held: map<u64, nat>, stored: Memory)

  /** A session after one more call, given what an `Ask` returned. */
  function Later(was: Session, call: Call, result: u64): Session {
    match call
    case Ask(size) => if result == 0 then was else was.(held := was.held[result := size as nat])
    case Put(a, offset, v) =>
      if a in was.held && offset + 8 <= was.held[a] then was.(stored := Poke(was.stored, a + offset, v)) else was
    case Give(a) =>
      if a !in was.held then was
      else Session(was.held - {a}, map b: int | b in was.stored && !(a <= b < a + was.held[a]) :: was.stored[b])
  }

  function SessionAfter(calls: seq<Call>, results: seq<u64>): Session
    requires |calls| == |results|
  {
    if calls == [] then Session(map[], map[])
    else
      var n := |calls| - 1;
      Later(SessionAfter(calls[..n], results[..n]), calls[n], results[n])
  }

  /** Memory shows what was stored, all of it in objects that are held. */
  ghost predicate Remembers(s: Session, mem: Memory) {
    forall b: int :: b in s.stored ==>
      ByteAt(mem, b) == s.stored[b] && exists a: u64 :: a in s.held && a <= b < a + s.held[a]
  }

  /** No pages are left for a slab of the class of `size`. */
  ghost predicate NoPagesFor(size: nat, bits: seq<bool>, total: nat)
    requires total <= |bits|
  {
    forall idx: nat, f: nat :: IsClass(size, idx) ==> !FreeRun(bits, total, f, PagesFor(idx))
  }

  ghost predicate MoreUsed(b0: seq<bool>, b1: seq<bool>) {
    |b0| == |b1| && forall p :: 0 <= p < |b0| && b0[p] ==> b1[p]
  }

  lemma StillNoPages(size: nat, b0: seq<bool>, b1: seq<bool>, total: nat)
    requires total <= |b0| && MoreUsed(b0, b1) && NoPagesFor(size, b0, total)
    ensures NoPagesFor(size, b1, total)
  {
    hide IsClass, PagesFor;
    forall idx: nat, f: nat | IsClass(size, idx) && FreeRun(b1, total, f, PagesFor(idx))
      ensures FreeRun(b0, total, f, PagesFor(idx))
    {
    }
  }

  lemma RunMoreUsed(bits: seq<bool>, f: nat, n: nat)
    ensures MoreUsed(bits, SetRun(bits, f, n)) && MoreUsed(bits, bits)
  {
  }

  lemma MoreUsedTrans(b0: seq<bool>, b1: seq<bool>, b2: seq<bool>)
    requires MoreUsed(b0, b1) && MoreUsed(b1, b2)
    ensures MoreUsed(b0, b2)
  {
  }

  lemma RemembersAsk(was: Session, lives: Lives, m0: Memory, m1: Memory, size: u64, a: u64)
    requires Remembers(was, m0) && Agree(was.held, lives) && Kept(lives, m0, m1) && (a != 0 ==> a !in was.held)
    ensures Remembers(Later(was, Ask(size), a), m1)
  {
    hide ByteAt;
    forall b: int | b in was.stored
      ensures ByteAt(m1, b) == was.stored[b]
      ensures exists x :: x in Later(was, Ask(size), a).held && x <= b < x + Later(was, Ask(size), a).held[x]
    {
      var x :| x in was.held && x <= b < x + was.held[x];
      assert x in Later(was, Ask(size), a).held && Later(was, Ask(size), a).held[x] == was.held[x];
    }
  }

  lemma Remembered(s: Session, mem: Memory, b: int) returns (a: u64)
    requires Remembers(s, mem) && b in s.stored
    ensures ByteAt(mem, b) == s.stored[b] && a in s.held && a <= b < a + s.held[a]
  {
    a :| a in s.held && a <= b < a + s.held[a];
  }

  lemma RemembersPut(was: Session, mem: Memory, a: u64, offset: nat, v: u64)
    requires Remembers(was, mem) && a in was.held && offset + 8 <= was.held[a]
    ensures Remembers(Later(was, Put(a, offset, v), 0), Poke(mem, a + offset, v))
  {
    hide Poke, ByteAt;
    var now, at := Later(was, Put(a, offset, v), 0), a + offset;
    assert now.held == was.held && now.stored == Poke(was.stored, at, v);
    forall b: int | b in now.stored
      ensures ByteAt(Poke(mem, at, v), b) == now.stored[b]
      ensures exists x :: x in now.held && x <= b < x + now.held[x]
    {
      PokeKeys(was.stored, at, v, b);
      if at <= b < at + 8 {
        assert a in now.held && a <= b < a + now.held[a];
      } else {
        var x := Remembered(was, mem, b);
        assert x in now.held;
      }
    }
  }

  lemma PokeKeys(mem: Memory, a: int, v: u64, b: int)
    ensures b in Poke(mem, a, v) <==> b in mem || a <= b < a + 8
    ensures b in Poke(mem, a, v) ==> Poke(mem, a, v)[b] == if a <= b < a + 8 then Word(v)[b - a] else mem[b]
  {
  }

  lemma RemembersGive(was: Session, lives: Lives, m0: Memory, m1: Memory, a: u64)
    requires Remembers(was, m0) && Agree(was.held, lives) && a in was.held && Kept(lives - {a}, m0, m1)
    ensures Remembers(Later(was, Give(a), 0), m1)
  {
    hide ByteAt;
    var now := Later(was, Give(a), 0);
    forall b: int | b in now.stored
      ensures ByteAt(m1, b) == now.stored[b]
      ensures exists x :: x in now.held && x <= b < x + now.held[x]
    {
      var x :| x in was.held && x <= b < x + was.held[x];
      assert x in now.held && now.held[x] == was.held[x] && x in lives - {a};
    }
  }

  lemma ExhaustedPages(infos: Infos, bits: seq<bool>, total: nat, size: nat)
    requires total <= |bits| && Exhausted(infos, bits, total, size)
    ensures NoPagesFor(size, bits, total)
  {
  }

  /** One call of a session. */
  method Serve(s: Allocator, call: Call, held: map<u64, nat>, ghost was: Session)
    returns (now: map<u64, nat>, result: u64, panic: bool)
    requires s.Valid() && Agree(held, s.lives) && was.held == held && Remembers(was, s.mem)
    requires call.Ask? ==> call.size <= SLAB_SIZE_MAX
    modifies s, s.pmm`freePages, s.pmm.bitmap
    ensures s.Valid() && !panic && Agree(now, s.lives) && now == Later(was, call, result).held
    ensures Remembers(Later(was, call, result), s.mem)
    ensures MoreUsed(old(s.pmm.Bits()), s.pmm.Bits()) && s.pmm.totalPages == old(s.pmm.totalPages) <= |s.pmm.Bits()|
    ensures call.Ask? && result == 0 ==> call.size == 0 || NoPagesFor(call.size, s.pmm.Bits(), s.pmm.totalPages)
  {
    hide Heap, Listed, Placed, Allocator.PagesOk, Kept, Matching, OnList, AimsAtSlots, Pmm.Bits, Pmm.Valid, FreeRun;
    hide Stored, LargeStored, Remembers, NoPagesFor, MoreUsed, Poke, Exhausted, Strayed;
    s.PagesFacts();
    ghost var lives, mem, infos, bits := s.lives, s.mem, s.infos, s.pmm.Bits();
    RunMoreUsed(bits, 0, 0);
    now, result, panic := held, 0, false;
    match call {
      case Ask(size) =>
        result, panic := s.Alloc(size);
        s.PagesFacts();
        RemembersAsk(was, lives, mem, s.mem, size, result);
        if result != 0 {
          now := held[result := size as nat];
        } else if size > 0 {
          ExhaustedPages(infos, bits, s.pmm.totalPages, size);
        }
      case Put(a, offset, v) =>
        if a in held && offset + 8 <= held[a] {
          RemembersPut(was, s.mem, a, offset, v);
          s.Store(a, a + offset, v);
        }
      case Give(a) =>
        if a in held {
          HeldMatches(s, held, a);
          var r := s.Free(a, held[a]);
          panic := r == DoubleFree || r == InvalidFree;
          RemembersGive(was, lives, mem, s.mem, a);
          now := held - {a};
        }
    }
  }

  lemma RemembersNothing(mem: Memory)
    ensures Remembers(Session(map[], map[]), mem)
  {
  }

  lemma OneLater(calls: seq<Call>, results: seq<u64>, i: nat, result: u64)
    requires i < |calls| && |results| == i
    ensures SessionAfter(calls[..i + 1], results + [result]) ==
            Later(SessionAfter(calls[..i], results), calls[i], result)
  {
    hide Later;
    assert calls[..i + 1][..i] == calls[..i] && (results + [result])[..i] == results;
  }

  /**
   Any run of calls on small objects: no panic is reached, every object stays its holder's
   own and keeps the bytes stored in it, and a request fails only when no pages are left for
   its class.
   */
  method Run(s: Allocator, calls: seq<Call>) returns (held: map<u64, nat>, results: seq<u64>, panic: bool)
    requires s.Valid() && s.lives == map[]
    requires forall i :: 0 <= i < |calls| && calls[i].Ask? ==> calls[i].size <= SLAB_SIZE_MAX
    modifies s, s.pmm`freePages, s.pmm.bitmap
    ensures s.Valid() && !panic && Agree(held, s.lives) && Own(s.infos, held)
    ensures |results| == |calls| && held == SessionAfter(calls, results).held
    ensures Remembers(SessionAfter(calls, results), s.mem) && s.pmm.totalPages <= |s.pmm.Bits()|
    ensures forall i :: 0 <= i < |calls| && calls[i].Ask? && results[i] == 0 ==>
              calls[i].size == 0 || NoPagesFor(calls[i].size, s.pmm.Bits(), s.pmm.totalPages)
  {
    hide Heap, Listed, Placed, Allocator.PagesOk, Own, Pmm.Bits, Pmm.Valid, Stored, LargeStored, Remembers, NoPagesFor;
    hide MoreUsed, Later, SessionAfter;
    held, results, panic := map[], [], false;
    NoCalls(calls, s.mem);
    s.PagesFacts();
    for i := 0 to |calls|
      invariant s.Valid() && !panic && Agree(held, s.lives) && |results| == i && s.pmm.totalPages <= |s.pmm.Bits()|
      invariant held == SessionAfter(calls[..i], results).held && Remembers(SessionAfter(calls[..i], results), s.mem)
      invariant forall j :: 0 <= j < i && calls[j].Ask? && results[j] == 0 ==>
                  calls[j].size == 0 || NoPagesFor(calls[j].size, s.pmm.Bits(), s.pmm.totalPages)
    {
      ghost var bits := s.pmm.Bits();
      var result;
      held, result, panic := Serve(s, calls[i], held, SessionAfter(calls[..i], results));
      OneLater(calls, results, i, result);
      forall j | 0 <= j < i && calls[j].Ask? && results[j] == 0 && calls[j].size != 0
        ensures NoPagesFor(calls[j].size, s.pmm.Bits(), s.pmm.totalPages)
      {
        StillNoPages(calls[j].size, bits, s.pmm.Bits(), s.pmm.totalPages);
      }
      results := results + [result];
    }
    assert calls[..|calls|] == calls;
    OwnHeld(s.headers, s.infos, s.lives, s.mem, held);
  }

  lemma NoCalls(calls: seq<Call>, mem: Memory)
    ensures SessionAfter(calls[..0], []) == Session(map[], map[]) && Remembers(SessionAfter(calls[..0], []), mem)
  {
    RemembersNothing(mem);
  }

  /**
   Allocating a large object and freeing it leaves the bitmap as it was if and only if there
   was no run of pages for it or it takes at most 1024 of them.
   */
  method LargeThenFree(s: Allocator, size: u64) returns (a: int)
    requires s.Valid() && size > SLAB_SIZE_MAX
    modifies s, s.pmm`freePages, s.pmm.bitmap
    ensures s.Valid() && s.pmm.bitmap == old(s.pmm.bitmap)
    ensures s.pmm.bitmap[..] == old(s.pmm.bitmap[..]) <==>
              || (forall f: nat :: !FreeRun(old(s.pmm.Bits()), old(s.pmm.totalPages), f, LargePages(size)))
              || size <= 1023 * PAGE_SIZE || size > U64 - PAGE_SIZE
  {
    hide Heap, Listed, Placed, Holds, BitsOf, SetRun, ClearRun;
    ghost var before := s.pmm.bitmap[..];
    a := s.AllocLarge(size);
    LargeFits(size);
    if a != 0 {
      ghost var frame := FrameOf(s.hhdm, LargeAt(a));
      LargeBlock(s.hhdm, s.blocks, s.infos, s.larges, LargeAt(a), s.pmm.Bits(), s.pmm.totalPages);
      PhysOf(s.hhdm, LargeAt(a), frame);
      ClearAfterSet(BitsOf(before), s.pmm.totalPages, frame, LargePages(size));
      SetRunDiffers(BitsOf(before), s.pmm.totalPages, frame, LargePages(size));
      var r := s.FreeLarge(a);
    }
    if BitsOf(s.pmm.bitmap[..]) == BitsOf(before) {
      BitsDetermine(s.pmm.bitmap[..], before);
    }
  }

  /** A large object of 1024 pages, taken and freed: `free` ignores it, and its pages stay used. */
  method LargeStays() returns (s: Allocator, a: u64, r: FreeOutcome, ghost page: nat)
    ensures fresh(s) && s.Valid() && a != 0 && r == Ignored
    ensures page == FrameOf(s.hhdm, LargeAt(a)) && LargeAt(a) in s.larges
    ensures s.larges[LargeAt(a)].userSize == 1024 * PAGE_SIZE && 0 < page && page + 1025 <= |s.pmm.Bits()|
    ensures forall p :: page <= p < page + 1025 ==> s.pmm.Bits()[p]
  {
    hide Heap, Listed, Placed, BitsOf, Stored, Holds, WordAt;
    var pmm := new Pmm.Usable(2000);
    s := new Allocator(pmm, 0);
    ghost var before := pmm.Bits();
    var size := 1024 * PAGE_SIZE;
    assert LargePages(size) == 1025;
    assert FreeRun(before, pmm.totalPages, 1, LargePages(size));
    a := s.AllocLarge(size);
    page := FrameOf(s.hhdm, LargeAt(a));
    LargeBlock(s.hhdm, s.blocks, s.infos, s.larges, LargeAt(a), s.pmm.Bits(), s.pmm.totalPages);
    assert LargeHeaderAt(s.mem, LargeAt(a)) == s.larges[LargeAt(a)];
    r := s.Free(a, size);
  }

  lemma SetRunDiffers(bits: seq<bool>, total: nat, start: nat, n: nat)
    requires total <= |bits| && n > 0 && FreeRun(bits, total, start, n)
    ensures SetRun(bits, start, n) != bits
  {
    assert SetRun(bits, start, n)[start];
  }
}
