/** Slabs as values: slots behind a header, and a free list threaded through the free slots. */
module SlabLists {
  import opened Bytes

  const HEADER_SIZE: nat := 40
  const PAGE: nat := 4096
  const SLAB_SIZE_MAX: nat := 4096
  const NUM_CACHES: nat := 9

  /* ----- Sizes ----- */

  /** `index_to_size`. */
  function IndexToSize(idx: nat): (size: nat)
    ensures size >= 16
  {
    if idx == 0 then 16 else 2 * IndexToSize(idx - 1)
  }

  lemma {:induction false} SizesGrow(i: nat, j: nat)
    requires i <= j
    ensures IndexToSize(i) <= IndexToSize(j)
    ensures i < j ==> IndexToSize(i) < IndexToSize(j)
    decreases j
  {
    if i < j {
      SizesGrow(i, j - 1);
    }
  }

  /** The nine classes. */
  lemma ClassSizes()
    ensures IndexToSize(0) == 16 && IndexToSize(1) == 32 && IndexToSize(2) == 64 && IndexToSize(3) == 128
    ensures IndexToSize(4) == 256 && IndexToSize(5) == 512 && IndexToSize(6) == 1024 && IndexToSize(7) == 2048
    ensures IndexToSize(8) == 4096
  {
    LargestSize();
    assert IndexToSize(3) == 128;
    assert IndexToSize(8) == 2 * IndexToSize(7) && IndexToSize(7) == 2 * IndexToSize(6);
  }

  lemma LargestSize()
    ensures IndexToSize(8) == SLAB_SIZE_MAX && IndexToSize(4) == 256
  {
    assert IndexToSize(4) == 256;
    assert IndexToSize(8) == 2 * IndexToSize(7) && IndexToSize(7) == 2 * IndexToSize(6);
    assert IndexToSize(6) == 2 * IndexToSize(5) && IndexToSize(5) == 2 * IndexToSize(4);
  }

  /** The smallest class that holds `size` bytes. */
  ghost predicate IsClass(size: nat, idx: nat) {
    idx < NUM_CACHES && size <= IndexToSize(idx) && (idx > 0 ==> IndexToSize(idx - 1) < size)
  }

  lemma ClassUnique(size: nat, i: nat, j: nat)
    requires IsClass(size, i) && IsClass(size, j)
    ensures i == j
  {
    hide IndexToSize;
    if i < j {
      SizesGrow(i, j - 1);
    } else if j < i {
      SizesGrow(j, i - 1);
    }
  }

  /** `size_to_index`. */
  method SizeToIndex(size: nat) returns (idx: nat)
    requires 0 < size <= SLAB_SIZE_MAX
    ensures IsClass(size, idx)
  {
    LargestSize();
    if size <= 16 {
      return 0;
    }
    idx := 0;
    var s := 16;
    while s < size && idx < NUM_CACHES - 1
      invariant 0 <= idx < NUM_CACHES && s == IndexToSize(idx)
      invariant idx > 0 ==> IndexToSize(idx - 1) < size
    {
      s := 2 * s;
      idx := idx + 1;
    }
  }

  /* ----- Slots ----- */

  /** The address of the `k`th slot of the slab at `h`. */
  function Slot(h: int, size: nat, k: int): int {
    h + HEADER_SIZE + k * size
  }

  function TotalObjs(bytes: nat, size: nat): nat
    requires size > 0 && bytes >= HEADER_SIZE
  {
    (bytes - HEADER_SIZE) / size
  }

  lemma SlotsApart(h: int, size: nat, k: nat, l: nat)
    requires k < l
    ensures Slot(h, size, k) + size <= Slot(h, size, l)
  {
    assert (k + 1) * size <= l * size;
  }

  lemma SlotInside(h: int, size: nat, bytes: nat, k: nat)
    requires size > 0 && bytes >= HEADER_SIZE && k < TotalObjs(bytes, size)
    ensures h + HEADER_SIZE <= Slot(h, size, k)
    ensures Slot(h, size, k) + size <= Slot(h, size, TotalObjs(bytes, size)) <= h + bytes
  {
    SlotsApart(h, size, k, TotalObjs(bytes, size));
    assert TotalObjs(bytes, size) * size <= bytes - HEADER_SIZE;
    assert k * size >= 0;
  }

  /* ----- Free lists ----- */

  /** Memory by address; a byte that was never written is zero. */
  type Memory = map<int, byte>

  function ByteAt(mem: Memory, a: int): byte {
    if a in mem then mem[a] else 0
  }

  function EightAt(mem: Memory, a: int): (r: seq<byte>)
    ensures |r| == 8 && forall i :: 0 <= i < 8 ==> r[i] == ByteAt(mem, a + i)
  {
    [ByteAt(mem, a), ByteAt(mem, a + 1), ByteAt(mem, a + 2), ByteAt(mem, a + 3),
     ByteAt(mem, a + 4), ByteAt(mem, a + 5), ByteAt(mem, a + 6), ByteAt(mem, a + 7)]
  }

  /** The eight bytes at an address, read as a word. */
  function WordAt(mem: Memory, a: int): u64 {
    WordOf(EightAt(mem, a))
  }

  /** The store of a word. */
  function Poke(mem: Memory, a: int, v: u64): (r: Memory)
    ensures forall b :: ByteAt(r, b) == if a <= b < a + 8 then Word(v)[b - a] else ByteAt(mem, b)
  {
    var w := Word(v);
    mem[a := w[0]][a + 1 := w[1]][a + 2 := w[2]][a + 3 := w[3]]
       [a + 4 := w[4]][a + 5 := w[5]][a + 6 := w[6]][a + 7 := w[7]]
  }

  lemma WordSame(mem: Memory, mem': Memory, a: int)
    requires forall b :: a <= b < a + 8 ==> ByteAt(mem', b) == ByteAt(mem, b)
    ensures WordAt(mem', a) == WordAt(mem, a)
  {
    hide ByteAt, WordOf, EightAt;
    assert EightAt(mem', a) == EightAt(mem, a);
  }

  /** A store reads back, and leaves every word alone that it does not meet. */
  lemma PokeWord(mem: Memory, a: int, v: u64)
    ensures WordAt(Poke(mem, a, v), a) == v
    ensures forall b :: a + 8 <= b || b + 8 <= a ==> WordAt(Poke(mem, a, v), b) == WordAt(mem, b)
  {
    hide ByteAt, WordOf, Poke, Word, EightAt;
    assert EightAt(Poke(mem, a, v), a) == Word(v);
    WordRoundTrip(v);
    forall b | a + 8 <= b || b + 8 <= a
      ensures WordAt(Poke(mem, a, v), b) == WordAt(mem, b)
    {
      WordSame(mem, Poke(mem, a, v), b);
    }
  }

  /** The list from `head` on, linked through the first word of each element. */
  ghost predicate Linked(mem: Memory, head: int, chain: seq<int>) {
    && head == Head(chain)
    && (forall i :: 0 <= i < |chain| ==> chain[i] != 0 && WordAt(mem, chain[i]) == Next(chain, i))
    && (forall i, j :: 0 <= i < j < |chain| ==> chain[i] != chain[j])
  }

  lemma LinkedPop(mem: Memory, head: int, chain: seq<int>)
    requires Linked(mem, head, chain) && chain != []
    ensures head in chain && Linked(mem, WordAt(mem, head), chain[1..]) && head !in chain[1..]
  {
    var rest := chain[1..];
    assert WordAt(mem, chain[0]) == Next(chain, 0);
    forall i | 0 <= i < |rest|
      ensures rest[i] != 0 && WordAt(mem, rest[i]) == Next(rest, i)
    {
      assert rest[i] == chain[i + 1] && Next(chain, i + 1) == Next(rest, i);
    }
  }

  lemma LinkedPush(mem: Memory, head: int, chain: seq<int>, p: int)
    requires Linked(mem, head, chain) && p != 0 && 0 <= head < U64
    requires forall i :: 0 <= i < |chain| ==> p + 8 <= chain[i] || chain[i] + 8 <= p
    ensures Linked(Poke(mem, p, head), p, [p] + chain)
  {
    hide WordAt, Poke;
    PokeWord(mem, p, head);
    var now := [p] + chain;
    forall i | 0 <= i < |now|
      ensures now[i] != 0 && WordAt(Poke(mem, p, head), now[i]) == Next(now, i)
    {
      if i > 0 {
        assert now[i] == chain[i - 1] && chain[i - 1] in chain && Next(chain, i - 1) == Next(now, i);
      }
    }
  }

  /** A write outside the list leaves it as it is. */
  lemma LinkedFrame(mem: Memory, mem': Memory, head: int, chain: seq<int>)
    requires Linked(mem, head, chain)
    requires forall i :: 0 <= i < |chain| ==> WordAt(mem', chain[i]) == WordAt(mem, chain[i])
    ensures Linked(mem', head, chain)
  {
  }
}
