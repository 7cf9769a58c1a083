/**
 The physical page allocator: one bit per page, packed eight to a byte, and a count of
 free pages. The bytes refine the sequence of bits, and the bits a set of free pages.
 */
module PageBitmap {
  import opened Bytes

  const PAGE_SIZE: nat := 4096

  /* ----- Bits in a byte ----- */

  function Bit(b: bv8, k: nat): bool
    requires k < 8
  {
    (b >> k) & 1 == 1
  }

  function SetBit(b: bv8, k: nat): bv8
    requires k < 8
  {
    b | (1 << k)
  }

  function ClearBit(b: bv8, k: nat): bv8
    requires k < 8
  {
    b & !(1 << k)
  }

  lemma BitOfSet(b: bv8, k: nat, j: nat)
    requires k < 8 && j < 8
    ensures Bit(SetBit(b, k), j) == (j == k || Bit(b, j))
  {
  }

  lemma BitOfClear(b: bv8, k: nat, j: nat)
    requires k < 8 && j < 8
    ensures Bit(ClearBit(b, k), j) == (j != k && Bit(b, j))
  {
  }

  lemma BitsOfByte(a: bv8, b: bv8)
    requires forall k :: 0 <= k < 8 ==> Bit(a, k) == Bit(b, k)
    ensures a == b
  {
    assert Bit(a, 0) == Bit(b, 0) && Bit(a, 1) == Bit(b, 1) && Bit(a, 2) == Bit(b, 2) && Bit(a, 3) == Bit(b, 3);
    assert Bit(a, 4) == Bit(b, 4) && Bit(a, 5) == Bit(b, 5) && Bit(a, 6) == Bit(b, 6) && Bit(a, 7) == Bit(b, 7);
  }

  /* ----- Sequences of bits ----- */

  /** The bits the packed bytes stand for. */
  function BitsOf(bytes: seq<bv8>): (r: seq<bool>)
    ensures |r| == 8 * |bytes|
  {
    seq(8 * |bytes|, p requires 0 <= p < 8 * |bytes| => Bit(bytes[p / 8], p % 8))
  }

  /** Page `8 * i + k` is the bit of value `2^k` in byte `i`. */
  lemma PageBits(bytes: seq<bv8>, i: nat)
    requires i < |bytes|
    ensures var bits, b := BitsOf(bytes), bytes[i];
            && bits[8 * i] == (b & 0x01 != 0) && bits[8 * i + 1] == (b & 0x02 != 0)
            && bits[8 * i + 2] == (b & 0x04 != 0) && bits[8 * i + 3] == (b & 0x08 != 0)
            && bits[8 * i + 4] == (b & 0x10 != 0) && bits[8 * i + 5] == (b & 0x20 != 0)
            && bits[8 * i + 6] == (b & 0x40 != 0) && bits[8 * i + 7] == (b & 0x80 != 0)
  {
    hide Bit;
    ByteBits(bytes[i]);
    forall k | 0 <= k < 8
      ensures BitsOf(bytes)[8 * i + k] == Bit(bytes[i], k)
    {
    }
    assert BitsOf(bytes)[8 * i + 0] == Bit(bytes[i], 0);
  }

  lemma ByteBits(b: bv8)
    ensures Bit(b, 0) == (b & 0x01 != 0) && Bit(b, 1) == (b & 0x02 != 0) && Bit(b, 2) == (b & 0x04 != 0)
    ensures Bit(b, 3) == (b & 0x08 != 0) && Bit(b, 4) == (b & 0x10 != 0) && Bit(b, 5) == (b & 0x20 != 0)
    ensures Bit(b, 6) == (b & 0x40 != 0) && Bit(b, 7) == (b & 0x80 != 0)
  {
  }

  /** The bytes hold nothing but their bits. */
  lemma BitsDetermine(a: seq<bv8>, b: seq<bv8>)
    requires BitsOf(a) == BitsOf(b)
    ensures a == b
  {
    hide Bit;
    assert |a| == |b|;
    forall i | 0 <= i < |a|
      ensures a[i] == b[i]
    {
      forall k | 0 <= k < 8
        ensures Bit(a[i], k) == Bit(b[i], k)
      {
        assert BitsOf(a)[8 * i + k] == BitsOf(b)[8 * i + k];
      }
      BitsOfByte(a[i], b[i]);
    }
  }

  /** Pages `start` to `start + count` are all free, and exist. */
  predicate FreeRun(bits: seq<bool>, total: nat, start: nat, count: nat)
    requires total <= |bits|
  {
    start + count <= total && forall p :: start <= p < start + count ==> !bits[p]
  }

  function SetRun(bits: seq<bool>, start: nat, count: nat): (r: seq<bool>)
    ensures |r| == |bits|
  {
    seq(|bits|, p requires 0 <= p < |bits| => bits[p] || start <= p < start + count)
  }

  /** Clears the `count` page numbers from `start` on, counted modulo 2^64 as the source does. */
  function ClearRun(bits: seq<bool>, total: nat, start: nat, count: nat): (r: seq<bool>)
    ensures |r| == |bits|
  {
    seq(|bits|, p requires 0 <= p < |bits| => bits[p] && !(p < total && (p - start) % U64 < count))
  }

  ghost function FreeSet(bits: seq<bool>, total: nat): set<int>
    requires total <= |bits|
  {
    set p | 0 <= p < total && !bits[p]
  }

  ghost function UsedSet(bits: seq<bool>, total: nat): set<int>
    requires total <= |bits|
  {
    set p | 0 <= p < total && bits[p]
  }

  /** Every page is free or used. */
  lemma FreeOrUsed(bits: seq<bool>, total: nat)
    requires total <= |bits|
    ensures FreeSet(bits, total) !! UsedSet(bits, total)
    ensures forall p :: p in FreeSet(bits, total) || p in UsedSet(bits, total) <==> 0 <= p < total
  {
  }

  lemma FreeSetUpdate(bits: seq<bool>, total: nat, p: nat, used: bool)
    requires p < total <= |bits| && bits[p] != used
    ensures FreeSet(bits[p := used], total) == if used then FreeSet(bits, total) - {p} else FreeSet(bits, total) + {p}
    ensures |FreeSet(bits[p := used], total)| == |FreeSet(bits, total)| + if used then -1 else 1
  {
    if used {
      assert FreeSet(bits[p := true], total) == FreeSet(bits, total) - {p};
    } else {
      assert FreeSet(bits[p := false], total) == FreeSet(bits, total) + {p};
    }
  }

  lemma ZeroBits(bytes: seq<bv8>)
    requires forall i :: 0 <= i < |bytes| ==> bytes[i] == 0
    ensures forall p :: 0 <= p < 8 * |bytes| ==> !BitsOf(bytes)[p]
  {
    hide Bit;
    forall p | 0 <= p < 8 * |bytes|
      ensures !BitsOf(bytes)[p]
    {
      ZeroBit(p % 8);
    }
  }

  lemma ZeroBit(k: nat)
    requires k < 8
    ensures !Bit(0, k)
  {
  }

  lemma OthersFree(bits: seq<bool>, total: nat)
    requires 0 < total <= |bits| && forall p :: 0 <= p < total ==> bits[p] == (p == 0)
    ensures |FreeSet(bits, total)| == total - 1
  {
    assert FreeSet(bits, total) == set p | 0 <= p < total && !bits[p];
    RangeSize(bits, 1, total);
  }

  lemma {:induction false} RangeSize(bits: seq<bool>, from: nat, total: nat)
    requires from <= total <= |bits| && forall p :: 0 <= p < total ==> bits[p] == (p < from)
    ensures |FreeSet(bits, total)| == total - from
    decreases total
  {
    if from == total {
      assert FreeSet(bits, total) == {};
    } else {
      RangeSize(bits, from, total - 1);
      assert FreeSet(bits, total) == FreeSet(bits, total - 1) + {total - 1};
    }
  }

  /** Freeing the run that was just allocated gives the bits back. */
  lemma ClearAfterSet(bits: seq<bool>, total: nat, start: nat, count: nat)
    requires total <= |bits| && total < U64 && FreeRun(bits, total, start, count)
    ensures ClearRun(SetRun(bits, start, count), total, start, count) == bits
  {
    forall p | 0 <= p < |bits|
      ensures ClearRun(SetRun(bits, start, count), total, start, count)[p] == bits[p]
    {
      if p < total {
        DistanceModulo(p, start);
      }
    }
  }

  lemma DistanceModulo(p: nat, start: nat)
    requires p < U64 && start < U64
    ensures (p - start) % U64 == if start <= p then p - start else p - start + U64
  {
  }

  /* ----- The allocator ----- */

  class Pmm {
    var bitmap: array<bv8>
    var totalPages: nat
    var freePages: nat

    /** A machine whose pages can all be used but the first. */
    constructor Usable(totalPages: nat)
      requires 0 < totalPages <= U64 / PAGE_SIZE
      ensures Valid() && fresh(bitmap) && this.totalPages == totalPages
      ensures forall p :: 0 <= p < totalPages ==> Bits()[p] == (p == 0)
    {
      this.bitmap := new bv8[totalPages / 8 + 1](i => 0);
      this.totalPages := totalPages;
      freePages := totalPages - 1;
      new;
      ZeroBits(bitmap[..]);
      Set(0);
      OthersFree(Bits(), totalPages);
    }

    ghost function Bits(): (r: seq<bool>)
      reads this, bitmap
      ensures |r| == 8 * bitmap.Length
    {
      BitsOf(bitmap[..])
    }

    /** The state `pmm::init` leaves: the counter agrees with the bits. */
    ghost predicate Valid()
      reads this, bitmap
    {
      && totalPages <= 8 * bitmap.Length
      && totalPages <= U64 / PAGE_SIZE
      && freePages == |FreeSet(Bits(), totalPages)|
    }

    ghost function Used(): set<int>
      reads this, bitmap
      requires Valid()
    {
      UsedSet(Bits(), totalPages)
    }

    function Get(bit: nat): (r: bool)
      reads this, bitmap
      requires bit < 8 * bitmap.Length
      ensures r == Bits()[bit]
    {
      Bit(bitmap[bit / 8], bit % 8)
    }

    method Set(bit: nat)
      requires bit < 8 * bitmap.Length
      modifies bitmap
      ensures Bits() == old(Bits())[bit := true]
    {
      hide Bit, SetBit;
      ghost var before := bitmap[..];
      bitmap[bit / 8] := SetBit(bitmap[bit / 8], bit % 8);
      forall p | 0 <= p < 8 * bitmap.Length
        ensures Bits()[p] == BitsOf(before)[bit := true][p]
      {
        BitOfSet(before[bit / 8], bit % 8, p % 8);
      }
    }

    method Clear(bit: nat)
      requires bit < 8 * bitmap.Length
      modifies bitmap
      ensures Bits() == old(Bits())[bit := false]
    {
      hide Bit, ClearBit;
      ghost var before := bitmap[..];
      bitmap[bit / 8] := ClearBit(bitmap[bit / 8], bit % 8);
      forall p | 0 <= p < 8 * bitmap.Length
        ensures Bits()[p] == BitsOf(before)[bit := false][p]
      {
        BitOfClear(before[bit / 8], bit % 8, p % 8);
      }
    }

    /** The lowest free page; 0 reports that none was left, but is also page 0's address. */
    method AllocPage() returns (phys: nat)
      requires Valid()
      modifies `freePages, bitmap
      ensures Valid()
      ensures FreeSet(old(Bits()), totalPages) == {} ==> phys == 0 && Bits() == old(Bits())
      ensures FreeSet(old(Bits()), totalPages) != {} ==>
                && phys % PAGE_SIZE == 0 && phys / PAGE_SIZE in FreeSet(old(Bits()), totalPages)
                && (forall p :: p in FreeSet(old(Bits()), totalPages) ==> phys / PAGE_SIZE <= p)
                && Bits() == old(Bits())[phys / PAGE_SIZE := true]
    {
      hide BitsOf;
      var i := 0;
      while i < totalPages
        invariant 0 <= i <= totalPages
        invariant forall p :: 0 <= p < i ==> Bits()[p]
      {
        if !Get(i) {
          FreeSetUpdate(Bits(), totalPages, i, true);
          assert i in FreeSet(Bits(), totalPages);
          Set(i);
          freePages := freePages - 1;
          return i * PAGE_SIZE;
        }
        i := i + 1;
      }
      return 0;
    }

    method FreePage(phys: nat)
      requires Valid()
      modifies `freePages, bitmap
      ensures Valid()
      ensures Bits() == if phys / PAGE_SIZE < totalPages then old(Bits())[phys / PAGE_SIZE := false] else old(Bits())
    {
      hide BitsOf;
      var page := phys / PAGE_SIZE;
      if page < totalPages && Get(page) {
        FreeSetUpdate(Bits(), totalPages, page, false);
        Clear(page);
        freePages := freePages + 1;
      }
    }

    /** Marks a free run used. */
    method SetPages(start: nat, count: nat)
      requires totalPages <= 8 * bitmap.Length && FreeRun(Bits(), totalPages, start, count)
      modifies bitmap
      ensures Bits() == SetRun(old(Bits()), start, count)
      ensures |FreeSet(Bits(), totalPages)| == |FreeSet(old(Bits()), totalPages)| - count
    {
      hide BitsOf;
      var j := start;
      assert Bits() == SetRun(Bits(), start, 0);
      while j < start + count
        invariant start <= j <= start + count
        invariant Bits() == SetRun(old(Bits()), start, j - start)
        invariant |FreeSet(Bits(), totalPages)| == |FreeSet(old(Bits()), totalPages)| - (j - start)
      {
        FreeSetUpdate(Bits(), totalPages, j, true);
        Set(j);
        j := j + 1;
        assert Bits() == SetRun(old(Bits()), start, j - start);
      }
    }

    /** The lowest run of `count` free pages, or 0 when there is none. */
    method AllocPages(count: nat) returns (phys: nat)
      requires Valid()
      modifies `freePages, bitmap
      ensures Valid()
      ensures count == 0 || (forall s: nat :: !FreeRun(old(Bits()), totalPages, s, count)) ==>
                phys == 0 && Bits() == old(Bits())
      ensures count > 0 && (exists s: nat :: FreeRun(old(Bits()), totalPages, s, count)) ==>
                && phys % PAGE_SIZE == 0
                && FreeRun(old(Bits()), totalPages, phys / PAGE_SIZE, count)
                && (forall s: nat :: FreeRun(old(Bits()), totalPages, s, count) ==> phys / PAGE_SIZE <= s)
                && Bits() == SetRun(old(Bits()), phys / PAGE_SIZE, count)
    {
      hide BitsOf;
      if count == 0 {
        return 0;
      }
      if count == 1 {
        phys := AllocPage();
        SinglePage(old(Bits()), totalPages);
        assert phys / PAGE_SIZE in FreeSet(old(Bits()), totalPages) ==>
          Bits() == SetRun(old(Bits()), phys / PAGE_SIZE, 1);
        return;
      }
      var consecutive, start := 0, 0;
      var i := 0;
      while i < totalPages
        invariant 0 <= i <= totalPages && 0 <= consecutive < count && consecutive <= i
        invariant consecutive > 0 ==> start == i - consecutive
        invariant forall p :: i - consecutive <= p < i ==> !Bits()[p]
        invariant consecutive < i ==> Bits()[i - consecutive - 1]
        invariant forall s: nat :: s < i - consecutive ==> !FreeRun(Bits(), totalPages, s, count)
      {
        if !Get(i) {
          if consecutive == 0 {
            start := i;
          }
          consecutive := consecutive + 1;
          if consecutive == count {
            assert FreeRun(Bits(), totalPages, start, count);
            SetPages(start, count);
            freePages := freePages - count;
            return start * PAGE_SIZE;
          }
        } else {
          forall s: nat | s < i + 1
            ensures !FreeRun(Bits(), totalPages, s, count)
          {
            if s >= i - consecutive {
              assert s <= i < s + count;
            }
          }
          consecutive := 0;
        }
        i := i + 1;
      }
      return 0;
    }

    method FreePages(phys: nat, count: nat)
      requires Valid() && phys < U64 && count < U64
      modifies `freePages, bitmap
      ensures Valid()
      ensures Bits() == ClearRun(old(Bits()), totalPages, phys / PAGE_SIZE, count)
    {
      hide BitsOf, ClearRun;
      var page := phys / PAGE_SIZE;
      var i := 0;
      ClearRunNone(Bits(), totalPages, page);
      while i < count
        invariant 0 <= i <= count && Valid()
        invariant Bits() == ClearRun(old(Bits()), totalPages, page, i)
      {
        var at := (page + i) % U64;
        if at < totalPages && Get(at) {
          FreeSetUpdate(Bits(), totalPages, at, false);
          Clear(at);
          freePages := freePages + 1;
        }
        ClearRunStep(old(Bits()), totalPages, page, i);
        i := i + 1;
      }
    }
  }

  lemma SinglePage(bits: seq<bool>, total: nat)
    requires total <= |bits|
    ensures forall s: nat :: FreeRun(bits, total, s, 1) <==> s in FreeSet(bits, total)
  {
  }

  lemma ClearRunNone(bits: seq<bool>, total: nat, start: nat)
    ensures ClearRun(bits, total, start, 0) == bits
  {
  }

  lemma ClearRunStep(bits: seq<bool>, total: nat, start: nat, i: nat)
    requires start < U64 && i < U64 && total <= U64 && total <= |bits|
    ensures var at := (start + i) % U64;
            var before := ClearRun(bits, total, start, i);
            ClearRun(bits, total, start, i + 1) == if at < total then before[at := false] else before
  {
    var at := (start + i) % U64;
    var before, after := ClearRun(bits, total, start, i), ClearRun(bits, total, start, i + 1);
    forall p | 0 <= p < |bits|
      ensures after[p] == if p == at && at < total then false else before[p]
    {
      if p < total {
        DistanceModulo(p, start);
      }
    }
  }

  /** Allocating a run and freeing it leaves the bitmap's bytes and the counter as they were. */
  method AllocThenFree(pmm: Pmm, count: nat) returns (phys: nat)
    requires pmm.Valid() && count < U64
    requires 0 in pmm.Used()
    modifies pmm, pmm.bitmap
    ensures pmm.bitmap == old(pmm.bitmap)
    ensures pmm.bitmap[..] == old(pmm.bitmap[..]) && pmm.freePages == old(pmm.freePages)
    ensures phys != 0 <==> count > 0 && exists s: nat :: FreeRun(old(pmm.Bits()), old(pmm.totalPages), s, count)
  {
    hide BitsOf, SetRun, ClearRun;
    ghost var before := pmm.bitmap[..];
    phys := pmm.AllocPages(count);
    if phys != 0 {
      ClearAfterSet(BitsOf(before), pmm.totalPages, phys / PAGE_SIZE, count);
      assert phys < U64;
      pmm.FreePages(phys, count);
    }
    BitsDetermine(pmm.bitmap[..], before);
  }
}
