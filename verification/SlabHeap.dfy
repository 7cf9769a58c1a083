/** The invariant of the slab heap, and the effect on it of taking and returning one slot. */
module SlabHeap {
  import opened Bytes
  import opened SlabLists

  /** A slab's header in memory. */
  datatype Header = Header(next: int, freeList: int, objSize: nat, totalObjs: nat, freeCount: nat)

  type Headers = map<int, Header>

  /** The header as its five words lie in memory. */
  function HeaderAt(mem: Memory, h: int): Header {
    Header(WordAt(mem, h), WordAt(mem, h + 8), WordAt(mem, h + 16), WordAt(mem, h + 24), WordAt(mem, h + 32))
  }

  ghost predicate Stored(headers: Headers, mem: Memory) {
    forall h :: h in headers ==> HeaderAt(mem, h) == headers[h]
  }

  lemma HeaderSame(mem: Memory, mem': Memory, h: int)
    requires forall b :: h <= b < h + HEADER_SIZE ==> ByteAt(mem', b) == ByteAt(mem, b)
    ensures HeaderAt(mem', h) == HeaderAt(mem, h)
  {
    hide ByteAt, WordAt;
    WordSame(mem, mem', h);
    WordSame(mem, mem', h + 8);
    WordSame(mem, mem', h + 16);
    WordSame(mem, mem', h + 24);
    WordSame(mem, mem', h + 32);
  }

  /** The stores that fill in a header. */
  function PutHeader(mem: Memory, h: int, next: u64, freeList: u64, objSize: u64, totalObjs: u64,
                     freeCount: u64): Memory {
    Poke(Poke(Poke(Poke(Poke(mem, h + 16, objSize), h + 24, totalObjs), h + 32, freeCount), h, next), h + 8, freeList)
  }

  lemma PutHeaderIs(mem: Memory, h: int, next: u64, freeList: u64, objSize: u64, totalObjs: u64, freeCount: u64)
    ensures var mem' := PutHeader(mem, h, next, freeList, objSize, totalObjs, freeCount);
            && HeaderAt(mem', h) == Header(next, freeList, objSize, totalObjs, freeCount)
            && forall b :: !(h <= b < h + HEADER_SIZE) ==> ByteAt(mem', b) == ByteAt(mem, b)
  {
    hide WordAt, Poke;
    var m1 := Poke(mem, h + 16, objSize);
    var m2 := Poke(m1, h + 24, totalObjs);
    var m3 := Poke(m2, h + 32, freeCount);
    var m4 := Poke(m3, h, next);
    PokeWord(mem, h + 16, objSize);
    PokeWord(m1, h + 24, totalObjs);
    PokeWord(m2, h + 32, freeCount);
    PokeWord(m3, h, next);
    PokeWord(m4, h + 8, freeList);
  }

  /** The new head of a slab's list, and its new count. */
  function SetList(mem: Memory, h: int, freeList: u64, freeCount: u64): Memory {
    Poke(Poke(mem, h + 8, freeList), h + 32, freeCount)
  }

  lemma SetListHeader(mem: Memory, h: int, freeList: u64, freeCount: u64)
    ensures HeaderAt(SetList(mem, h, freeList, freeCount), h) ==
            HeaderAt(mem, h).(freeList := freeList, freeCount := freeCount)
    ensures forall b :: !(h <= b < h + HEADER_SIZE) ==>
              ByteAt(SetList(mem, h, freeList, freeCount), b) == ByteAt(mem, b)
  {
    hide WordAt, Poke;
    PokeWord(mem, h + 8, freeList);
    PokeWord(Poke(mem, h + 8, freeList), h + 32, freeCount);
  }

  /** A slab's class, its first page frame, and its free list in order. */
  datatype Info = Info(idx: nat, frame: int, chain: seq<int>)

  type Infos = map<int, Info>

  /** A live object: its slab and slot, and the size asked for. */
  datatype Live = Live(slab: int, slot: nat, size: nat)

  type Lives = map<int, Live>

  function PagesFor(idx: nat): nat {
    (HEADER_SIZE + 4 * IndexToSize(idx) + PAGE - 1) / PAGE
  }

  function SlabBytes(idx: nat): (r: nat)
    ensures r >= HEADER_SIZE + 4 * IndexToSize(idx) && r % PAGE == 0
  {
    PagesFor(idx) * PAGE
  }

  function Total(idx: nat): nat {
    TotalObjs(SlabBytes(idx), IndexToSize(idx))
  }

  lemma TotalAtLeast4(idx: nat)
    ensures Total(idx) >= 4
  {
    hide IndexToSize;
    var size, room := IndexToSize(idx), SlabBytes(idx) - HEADER_SIZE;
    DivAtLeast(room, size, 4);
  }

  /** The pages and objects of a slab of each class. */
  lemma SlabShapes()
    ensures PagesFor(0) == PagesFor(1) == PagesFor(2) == PagesFor(3) == PagesFor(4) == PagesFor(5) == 1
    ensures PagesFor(6) == 2 && PagesFor(7) == 3 && PagesFor(8) == 5
    ensures Total(0) == 253 && Total(1) == 126 && Total(2) == 63 && Total(3) == 31 && Total(4) == 15
    ensures Total(5) == Total(6) == 7 && Total(7) == 5 && Total(8) == 4
  {
    hide IndexToSize;
    ClassSizes();
  }

  lemma DivAtLeast(room: nat, size: nat, n: nat)
    requires size > 0 && room >= n * size
    ensures room / size >= n
  {
    var q := room / size;
    assert q + 1 <= n ==> (q + 1) * size <= n * size;
    assert (q + 1) * size == q * size + size;
  }

  function SlotOf(h: int, idx: nat, k: int): int {
    Slot(h, IndexToSize(idx), k)
  }

  ghost predicate IsSlot(h: int, idx: nat, a: int) {
    exists k: nat :: k < Total(idx) && a == SlotOf(h, idx, k)
  }

  lemma SlotBounds(h: int, idx: nat, k: nat)
    requires k < Total(idx)
    ensures h + HEADER_SIZE <= SlotOf(h, idx, k) && SlotOf(h, idx, k) + IndexToSize(idx) <= h + SlabBytes(idx)
    ensures SlotOf(h, idx, k) < Slot(h, IndexToSize(idx), Total(idx))
  {
    hide IndexToSize, SlabBytes, Slot, TotalObjs;
    SlotInside(h, IndexToSize(idx), SlabBytes(idx), k);
  }

  lemma IsSlotBounds(h: int, idx: nat, a: int)
    requires IsSlot(h, idx, a)
    ensures h + HEADER_SIZE <= a && a + IndexToSize(idx) <= h + SlabBytes(idx)
    ensures a < Slot(h, IndexToSize(idx), Total(idx))
  {
    hide IndexToSize, SlabBytes, Slot, Total;
    var k: nat :| k < Total(idx) && a == SlotOf(h, idx, k);
    SlotBounds(h, idx, k);
  }

  /** One slab: its header describes its class, and its free list runs through its own slots. */
  ghost predicate SlabOk(h: int, hdr: Header, info: Info, mem: Memory) {
    && h > 0 && info.idx < NUM_CACHES
    && hdr.objSize == IndexToSize(info.idx) && hdr.totalObjs == Total(info.idx)
    && hdr.freeCount == |info.chain| && Linked(mem, hdr.freeList, info.chain)
    && (forall i :: 0 <= i < |info.chain| ==> IsSlot(h, info.idx, info.chain[i]))
  }

  ghost predicate Apart(h: int, i: nat, g: int, j: nat) {
    h + SlabBytes(i) <= g || g + SlabBytes(j) <= h
  }

  /** A live object fills a slot that is not free, of the class of its size. */
  ghost predicate LiveOk(a: int, live: Live, infos: Infos) {
    && live.slab in infos
    && var info := infos[live.slab];
    && live.slot < Total(info.idx) && a == SlotOf(live.slab, info.idx, live.slot)
    && a !in info.chain && live.size > 0 && IsClass(live.size, info.idx)
  }

  ghost predicate Heap(headers: Headers, infos: Infos, lives: Lives, mem: Memory) {
    && headers.Keys == infos.Keys
    && (forall h :: h in infos ==> SlabOk(h, headers[h], infos[h], mem))
    && (forall h, g :: h in infos && g in infos && h != g ==> Apart(h, infos[h].idx, g, infos[g].idx))
    && (forall a :: a in lives ==> LiveOk(a, lives[a], infos))
    && (forall h, k: nat :: h in infos && k < Total(infos[h].idx) ==>
          SlotOf(h, infos[h].idx, k) in infos[h].chain || SlotOf(h, infos[h].idx, k) in lives)
  }

  /* ----- How long a list can be ----- */

  ghost function FirstSlots(h: int, idx: nat, n: nat): (r: set<int>)
    ensures |r| <= n
  {
    if n == 0 then {} else FirstSlots(h, idx, n - 1) + {SlotOf(h, idx, n - 1)}
  }

  lemma {:induction false} SlotAmong(h: int, idx: nat, k: nat, n: nat)
    requires k < n
    ensures SlotOf(h, idx, k) in FirstSlots(h, idx, n)
  {
    if k < n - 1 {
      SlotAmong(h, idx, k, n - 1);
    }
  }

  lemma {:induction false} DistinctSize(chain: seq<int>)
    requires forall i, j :: 0 <= i < j < |chain| ==> chain[i] != chain[j]
    ensures |set x | x in chain| == |chain|
    decreases |chain|
  {
    if chain == [] {
      assert (set x | x in chain) == {};
    } else {
      var last, init := chain[|chain| - 1], chain[..|chain| - 1];
      DistinctSize(init);
      assert (set x | x in chain) == (set x | x in init) + {last};
    }
  }

  /** A free list has no more elements than the slab has slots. */
  lemma ChainShort(h: int, hdr: Header, info: Info, mem: Memory)
    requires SlabOk(h, hdr, info, mem)
    ensures |info.chain| <= Total(info.idx)
  {
    hide Total, SlotOf, WordAt, IndexToSize;
    var all, some := FirstSlots(h, info.idx, Total(info.idx)), set x | x in info.chain;
    DistinctSize(info.chain);
    forall x | x in info.chain
      ensures x in all
    {
      var i :| 0 <= i < |info.chain| && info.chain[i] == x;
      assert IsSlot(h, info.idx, info.chain[i]);
      var k: nat :| k < Total(info.idx) && x == SlotOf(h, info.idx, k);
      SlotAmong(h, info.idx, k, Total(info.idx));
    }
    assert all == some + (all - some);
  }

  lemma FewSlots(idx: nat)
    requires idx < NUM_CACHES
    ensures Total(idx) < 0x1_0000 < U64
  {
    hide IndexToSize;
    SizesGrow(idx, NUM_CACHES - 1);
    LargestSize();
    QuotientSmall(SlabBytes(idx) - HEADER_SIZE, IndexToSize(idx));
    RoundedUp(HEADER_SIZE + 4 * IndexToSize(idx));
  }

  lemma RoundedUp(n: nat)
    ensures (n + PAGE - 1) / PAGE * PAGE < n + PAGE
  {
  }

  lemma QuotientSmall(room: nat, size: nat)
    requires size > 0
    ensures room / size <= room
  {
    var q := room / size;
    assert q * size <= room;
    TimesGrows(q, size);
  }

  lemma {:induction false} TimesGrows(q: nat, size: nat)
    requires size > 0
    ensures q <= q * size
  {
    if q > 0 {
      TimesGrows(q - 1, size);
      assert q * size == (q - 1) * size + size;
    }
  }

  /* ----- What the invariant is for ----- */

  /** Live objects never overlap one another, ... */
  lemma LivesApart(headers: Headers, infos: Infos, lives: Lives, mem: Memory, a: int, b: int)
    requires Heap(headers, infos, lives, mem) && a in lives && b in lives && a != b
    ensures a + lives[a].size <= b || b + lives[b].size <= a
  {
    hide IndexToSize, Total, SlabBytes, SlotOf, SlabOk;
    var x, y := lives[a], lives[b];
    assert LiveOk(a, x, infos) && LiveOk(b, y, infos);
    SlotBounds(x.slab, infos[x.slab].idx, x.slot);
    SlotBounds(y.slab, infos[y.slab].idx, y.slot);
    if x.slab == y.slab {
      SlotsOrdered(x.slab, infos[x.slab].idx, x.slot, y.slot);
    } else {
      assert Apart(x.slab, infos[x.slab].idx, y.slab, infos[y.slab].idx);
    }
  }

  lemma SlotsOrdered(h: int, idx: nat, k: nat, l: nat)
    ensures k < l ==> SlotOf(h, idx, k) + IndexToSize(idx) <= SlotOf(h, idx, l)
    ensures l < k ==> SlotOf(h, idx, l) + IndexToSize(idx) <= SlotOf(h, idx, k)
  {
    hide IndexToSize, Slot;
    if k < l {
      SlotsApart(h, IndexToSize(idx), k, l);
    } else if l < k {
      SlotsApart(h, IndexToSize(idx), l, k);
    }
  }

  /** ... nor any slab's header, ... */
  lemma LiveOffHeaders(headers: Headers, infos: Infos, lives: Lives, mem: Memory, a: int, h: int)
    requires Heap(headers, infos, lives, mem) && a in lives && h in infos
    ensures a + lives[a].size <= h || h + HEADER_SIZE <= a
  {
    hide IndexToSize, Total, SlotOf, SlabOk;
    var x := lives[a];
    assert LiveOk(a, x, infos);
    SlotBounds(x.slab, infos[x.slab].idx, x.slot);
    if x.slab != h {
      assert Apart(x.slab, infos[x.slab].idx, h, infos[h].idx);
    }
  }

  /** ... nor any free slot, so that writing to them never disturbs a free list. */
  lemma LiveOffFree(headers: Headers, infos: Infos, lives: Lives, mem: Memory, a: int, h: int, i: nat)
    requires Heap(headers, infos, lives, mem) && a in lives && h in infos && i < |infos[h].chain|
    ensures var c := infos[h].chain[i]; a + lives[a].size <= c || c + IndexToSize(infos[h].idx) <= a
  {
    hide IndexToSize, Total, SlotOf, SlabBytes;
    var x, c := lives[a], infos[h].chain[i];
    assert LiveOk(a, x, infos);
    assert SlabOk(h, headers[h], infos[h], mem);
    assert IsSlot(h, infos[h].idx, c);
    SlotBounds(x.slab, infos[x.slab].idx, x.slot);
    IsSlotBounds(h, infos[h].idx, c);
    if x.slab == h {
      var k: nat :| k < Total(infos[h].idx) && c == SlotOf(h, infos[h].idx, k);
      SlotsOrdered(h, infos[h].idx, x.slot, k);
      assert c in infos[h].chain;
    } else {
      assert Apart(x.slab, infos[x.slab].idx, h, infos[h].idx);
    }
  }

  /* ----- Taking a slot, returning a slot ----- */

  function PopHeader(hdr: Header, mem: Memory): Header
    requires hdr.freeCount > 0
  {
    hdr.(freeList := WordAt(mem, hdr.freeList), freeCount := hdr.freeCount - 1)
  }

  function PushHeader(hdr: Header, p: int): Header {
    hdr.(freeList := p, freeCount := hdr.freeCount + 1)
  }

  lemma PopSlab(h: int, hdr: Header, info: Info, mem: Memory)
    requires SlabOk(h, hdr, info, mem) && hdr.freeCount > 0
    ensures SlabOk(h, PopHeader(hdr, mem), info.(chain := info.chain[1..]), mem)
    ensures IsSlot(h, info.idx, hdr.freeList) && hdr.freeList in info.chain && hdr.freeList !in info.chain[1..]
  {
    hide IsSlot, IndexToSize, Total, Linked;
    assert hdr.freeList == info.chain[0] by {
      assert Linked(mem, hdr.freeList, info.chain);
      LinkedHead(mem, hdr.freeList, info.chain);
    }
    LinkedPop(mem, hdr.freeList, info.chain);
    assert info.chain == [info.chain[0]] + info.chain[1..];
  }

  lemma LinkedHead(mem: Memory, head: int, chain: seq<int>)
    requires Linked(mem, head, chain) && chain != []
    ensures head == chain[0]
  {
  }

  lemma PushSlab(h: int, hdr: Header, info: Info, mem: Memory, p: int)
    requires SlabOk(h, hdr, info, mem) && IsSlot(h, info.idx, p) && p !in info.chain && 0 <= hdr.freeList < U64
    ensures SlabOk(h, PushHeader(hdr, p), info.(chain := [p] + info.chain), Poke(mem, p, hdr.freeList))
  {
    hide IsSlot, IndexToSize, Total, Linked, SlabBytes, Poke;
    IsSlotBounds(h, info.idx, p);
    forall i | 0 <= i < |info.chain|
      ensures p + 8 <= info.chain[i] || info.chain[i] + 8 <= p
    {
      SlotsFar(h, info.idx, p, info.chain[i]);
    }
    LinkedPush(mem, hdr.freeList, info.chain, p);
  }

  /** Different slots of a slab have their first words apart. */
  lemma SlotsFar(h: int, idx: nat, a: int, b: int)
    requires IsSlot(h, idx, a) && IsSlot(h, idx, b) && a != b
    ensures a + 16 <= b || b + 16 <= a
  {
    hide Total, SlotOf;
    var k: nat :| k < Total(idx) && a == SlotOf(h, idx, k);
    var l: nat :| l < Total(idx) && b == SlotOf(h, idx, l);
    SlotsOrdered(h, idx, k, l);
  }

  /** A slab whose free slots a change of memory leaves alone stays as it is. */
  lemma SlabFrame(h: int, hdr: Header, info: Info, mem: Memory, mem': Memory)
    requires SlabOk(h, hdr, info, mem)
    requires forall a :: IsSlot(h, info.idx, a) && a in info.chain ==> WordAt(mem', a) == WordAt(mem, a)
    ensures SlabOk(h, hdr, info, mem')
  {
    hide IsSlot, IndexToSize, Total, Linked, WordAt;
    LinkedFrame(mem, mem', hdr.freeList, info.chain);
  }

  /** Slots of different slabs are different. */
  lemma SlotsOfTwo(h: int, i: nat, a: int, g: int, j: nat, b: int)
    requires IsSlot(h, i, a) && IsSlot(g, j, b) && Apart(h, i, g, j)
    ensures a + 8 <= b || b + 8 <= a
  {
    hide IsSlot, Total, SlabBytes;
    IsSlotBounds(h, i, a);
    IsSlotBounds(g, j, b);
  }

  lemma Pop(headers: Headers, infos: Infos, lives: Lives, mem: Memory, h: int, size: nat) returns (k: nat)
    requires Heap(headers, infos, lives, mem) && h in infos && headers[h].freeCount > 0
    requires size > 0 && IsClass(size, infos[h].idx)
    ensures var a := headers[h].freeList;
            && a !in lives && k < Total(infos[h].idx) && a == SlotOf(h, infos[h].idx, k)
            && Heap(headers[h := PopHeader(headers[h], mem)],
                    infos[h := infos[h].(chain := infos[h].chain[1..])],
                    lives[a := Live(h, k, size)], mem)
  {
    hide IndexToSize, Total, SlotOf, SlabBytes, SlabOk;
    var info, a := infos[h], headers[h].freeList;
    PopSlab(h, headers[h], info, mem);
    k :| k < Total(info.idx) && a == SlotOf(h, info.idx, k);
    NotLive(headers, infos, lives, mem, h, a);
    var infos' := infos[h := info.(chain := info.chain[1..])];
    assert info.chain == [info.chain[0]] + info.chain[1..];
    var lives' := lives[a := Live(h, k, size)];
    forall b | b in lives'
      ensures LiveOk(b, lives'[b], infos')
    {
      if b != a {
        assert LiveOk(b, lives[b], infos);
      }
    }
    forall g, l: nat | g in infos' && l < Total(infos'[g].idx)
      ensures SlotOf(g, infos'[g].idx, l) in infos'[g].chain || SlotOf(g, infos'[g].idx, l) in lives'
    {
      assert SlotOf(g, infos[g].idx, l) in infos[g].chain || SlotOf(g, infos[g].idx, l) in lives;
      if g == h && SlotOf(h, info.idx, l) in info.chain {
        FirstOrRest(info.chain, SlotOf(h, info.idx, l));
        PopFirst(headers[h], info, mem, h);
      }
    }
  }

  lemma PopFirst(hdr: Header, info: Info, mem: Memory, h: int)
    requires SlabOk(h, hdr, info, mem) && info.chain != []
    ensures hdr.freeList == info.chain[0]
  {
    hide IsSlot, IndexToSize, Total;
  }

  lemma FirstOrRest(s: seq<int>, x: int)
    requires x in s
    ensures x == s[0] || x in s[1..]
  {
    assert s == [s[0]] + s[1..];
  }

  lemma NotLive(headers: Headers, infos: Infos, lives: Lives, mem: Memory, h: int, a: int)
    requires Heap(headers, infos, lives, mem) && h in infos && a in infos[h].chain
    ensures a !in lives
  {
    hide IndexToSize;
    if a in lives {
      var i :| 0 <= i < |infos[h].chain| && infos[h].chain[i] == a;
      assert SlabOk(h, headers[h], infos[h], mem);
      assert LiveOk(a, lives[a], infos);
      LiveOffFree(headers, infos, lives, mem, a, h, i);
    }
  }

  lemma Push(headers: Headers, infos: Infos, lives: Lives, mem: Memory, p: int)
    requires Heap(headers, infos, lives, mem) && p in lives && lives[p].slab in infos
    requires 0 <= headers[lives[p].slab].freeList < U64
    ensures var h := lives[p].slab;
            Heap(headers[h := PushHeader(headers[h], p)],
                 infos[h := infos[h].(chain := [p] + infos[h].chain)],
                 lives - {p}, Poke(mem, p, headers[h].freeList))
  {
    hide IndexToSize, Total, SlotOf, SlabBytes, SlabOk, Apart, IsSlot, Poke, WordAt;
    var h := lives[p].slab;
    var info, mem' := infos[h], Poke(mem, p, headers[h].freeList);
    PokeWord(mem, p, headers[h].freeList);
    LiveIsSlot(p, lives[p], infos);
    PushSlab(h, headers[h], info, mem, p);
    var infos', lives' := infos[h := info.(chain := [p] + info.chain)], lives - {p};
    forall g | g in infos && g != h
      ensures SlabOk(g, headers[g], infos[g], mem')
    {
      assert Apart(h, info.idx, g, infos[g].idx);
      forall a | IsSlot(g, infos[g].idx, a) && a in infos[g].chain
        ensures WordAt(mem', a) == WordAt(mem, a)
      {
        SlotsOfTwo(h, info.idx, p, g, infos[g].idx, a);
      }
      SlabFrame(g, headers[g], infos[g], mem, mem');
    }
    forall b | b in lives'
      ensures LiveOk(b, lives'[b], infos')
    {
      assert LiveOk(b, lives[b], infos);
    }
    forall g, l: nat | g in infos' && l < Total(infos'[g].idx)
      ensures SlotOf(g, infos'[g].idx, l) in infos'[g].chain || SlotOf(g, infos'[g].idx, l) in lives'
    {
      var s := SlotOf(g, infos[g].idx, l);
      assert s in infos[g].chain || s in lives;
      if s == p && g != h {
        SlotIsSlot(g, infos[g].idx, l);
        assert Apart(h, info.idx, g, infos[g].idx);
        SlotsOfTwo(h, info.idx, p, g, infos[g].idx, s);
      }
    }
  }

  lemma SlotIsSlot(h: int, idx: nat, k: nat)
    requires k < Total(idx)
    ensures IsSlot(h, idx, SlotOf(h, idx, k))
  {
  }

  lemma LiveIsSlot(a: int, live: Live, infos: Infos)
    requires live.slab in infos && LiveOk(a, live, infos)
    ensures IsSlot(live.slab, infos[live.slab].idx, a) && a !in infos[live.slab].chain
  {
    hide Total, SlotOf;
  }

  /* ----- Adding a slab, writing to an object ----- */

  /** The slots below `n` of a new slab, last pushed first. */
  ghost function Slots(h: int, idx: nat, n: nat): (chain: seq<int>)
    ensures |chain| == n
  {
    seq(n, i requires 0 <= i < n => SlotOf(h, idx, n - 1 - i))
  }

  lemma SlotsPush(h: int, idx: nat, n: nat)
    requires n < Total(idx)
    ensures Slots(h, idx, n + 1) == [SlotOf(h, idx, n)] + Slots(h, idx, n)
    ensures SlotOf(h, idx, n) !in Slots(h, idx, n)
  {
    hide IndexToSize, Total, SlotOf;
    if SlotOf(h, idx, n) in Slots(h, idx, n) {
      var i :| 0 <= i < n && SlotOf(h, idx, n - 1 - i) == SlotOf(h, idx, n);
      SlotsOrdered(h, idx, n - 1 - i, n);
    }
  }

  /** A new slab, all its slots free, beside the others. */
  lemma Add(headers: Headers, infos: Infos, lives: Lives, mem: Memory, h: int, hdr: Header, info: Info, mem': Memory)
    requires Heap(headers, infos, lives, mem) && h !in infos
    requires SlabOk(h, hdr, info, mem') && info.chain == Slots(h, info.idx, Total(info.idx))
    requires forall g :: g in infos ==> Apart(h, info.idx, g, infos[g].idx)
    requires forall a :: !(h <= a < h + SlabBytes(info.idx)) ==> ByteAt(mem', a) == ByteAt(mem, a)
    ensures Heap(headers[h := hdr], infos[h := info], lives, mem')
  {
    hide IndexToSize, Total, SlotOf, SlabBytes, SlabOk, IsSlot, WordAt, ByteAt;
    forall g | g in infos
      ensures SlabOk(g, headers[g], infos[g], mem')
    {
      assert Apart(h, info.idx, g, infos[g].idx);
      forall a | IsSlot(g, infos[g].idx, a) && a in infos[g].chain
        ensures WordAt(mem', a) == WordAt(mem, a)
      {
        IsSlotBounds(g, infos[g].idx, a);
        WordSame(mem, mem', a);
      }
      SlabFrame(g, headers[g], infos[g], mem, mem');
    }
    forall a | a in lives
      ensures LiveOk(a, lives[a], infos[h := info])
    {
      assert LiveOk(a, lives[a], infos);
    }
    forall k: nat | k < Total(info.idx)
      ensures SlotOf(h, info.idx, k) in info.chain
    {
      assert info.chain[Total(info.idx) - 1 - k] == SlotOf(h, info.idx, k);
    }
  }

  /** Writing inside a live object. */
  lemma WriteLive(headers: Headers, infos: Infos, lives: Lives, mem: Memory, a: int, at: int, v: u64)
    requires Heap(headers, infos, lives, mem) && a in lives && a <= at && at + 8 <= a + lives[a].size
    ensures Heap(headers, infos, lives, Poke(mem, at, v))
  {
    hide IndexToSize, Total, SlotOf, SlabBytes, SlabOk, IsSlot, Poke, WordAt;
    PokeWord(mem, at, v);
    forall g | g in infos
      ensures SlabOk(g, headers[g], infos[g], Poke(mem, at, v))
    {
      forall c | IsSlot(g, infos[g].idx, c) && c in infos[g].chain
        ensures at + 8 <= c || c + 8 <= at
      {
        var i :| 0 <= i < |infos[g].chain| && infos[g].chain[i] == c;
        LiveOffFree(headers, infos, lives, mem, a, g, i);
      }
      SlabFrame(g, headers[g], infos[g], mem, Poke(mem, at, v));
    }
  }

  /** A change of headers, or of memory that is no free slot's first word. */
  lemma HeapFrame(headers: Headers, infos: Infos, lives: Lives, mem: Memory, mem': Memory)
    requires Heap(headers, infos, lives, mem)
    requires forall h, i :: h in infos && 0 <= i < |infos[h].chain| ==>
               WordAt(mem', infos[h].chain[i]) == WordAt(mem, infos[h].chain[i])
    ensures Heap(headers, infos, lives, mem')
  {
    hide IndexToSize, Total, SlotOf, SlabBytes, SlabOk, IsSlot, WordAt, LiveOk, Apart;
    forall h | h in infos
      ensures SlabOk(h, headers[h], infos[h], mem')
    {
      SlabFrame(h, headers[h], infos[h], mem, mem');
    }
  }

  /** Writing a header meets no free slot. */
  lemma HeaderOffFree(headers: Headers, infos: Infos, lives: Lives, mem: Memory, h: int, mem': Memory)
    requires Heap(headers, infos, lives, mem) && h in infos
    requires forall b :: !(h <= b < h + HEADER_SIZE) ==> ByteAt(mem', b) == ByteAt(mem, b)
    ensures Heap(headers, infos, lives, mem')
  {
    hide IndexToSize, Total, SlotOf, SlabBytes, IsSlot, WordAt, LiveOk, Linked;
    forall g, i | g in infos && 0 <= i < |infos[g].chain|
      ensures WordAt(mem', infos[g].chain[i]) == WordAt(mem, infos[g].chain[i])
    {
      var c := infos[g].chain[i];
      assert SlabOk(g, headers[g], infos[g], mem);
      IsSlotBounds(g, infos[g].idx, c);
      if g != h {
        assert Apart(g, infos[g].idx, h, infos[h].idx);
        HeaderFits(infos[h].idx);
      }
      SlotWord(infos[g].idx);
      WordSame(mem, mem', c);
    }
    HeapFrame(headers, infos, lives, mem, mem');
  }

  lemma HeaderFits(idx: nat)
    ensures SlabBytes(idx) >= HEADER_SIZE + 64
  {
  }

  lemma SlotWord(idx: nat)
    ensures IndexToSize(idx) >= 16
  {
  }

  /* ----- The lists of slabs ----- */

  /** A list of slabs linked through their headers. */
  ghost predicate Threaded(headers: Headers, head: int, list: seq<int>) {
    && head == Head(list)
    && (forall i :: 0 <= i < |list| ==> list[i] != 0 && list[i] in headers && headers[list[i]].next == Next(list, i))
    && (forall i, j :: 0 <= i < j < |list| ==> list[i] != list[j])
  }

  /** Cache `i` lists exactly the slabs of class `i`. */
  ghost predicate Listed(headers: Headers, infos: Infos, caches: seq<int>, order: seq<seq<int>>) {
    && |caches| == NUM_CACHES && |order| == NUM_CACHES
    && (forall i :: 0 <= i < NUM_CACHES ==> Threaded(headers, caches[i], order[i]))
    && (forall i, h :: 0 <= i < NUM_CACHES && h in order[i] ==> h in infos && infos[h].idx == i)
    && (forall h :: h in infos ==> infos[h].idx < NUM_CACHES && h in order[infos[h].idx])
  }

  lemma ListedUpdate(headers: Headers, infos: Infos, caches: seq<int>, order: seq<seq<int>>, h: int, hdr: Header,
                     info: Info)
    requires Listed(headers, infos, caches, order) && h in headers && h in infos
    requires hdr.next == headers[h].next && info.idx == infos[h].idx
    ensures Listed(headers[h := hdr], infos[h := info], caches, order)
  {
    forall i | 0 <= i < NUM_CACHES
      ensures Threaded(headers[h := hdr], caches[i], order[i])
    {
      assert Threaded(headers, caches[i], order[i]);
    }
  }

  lemma ListedAdd(headers: Headers, infos: Infos, caches: seq<int>, order: seq<seq<int>>, h: int, hdr: Header,
                  info: Info)
    requires Listed(headers, infos, caches, order) && h !in infos && h !in headers && h != 0 && info.idx < NUM_CACHES
    requires hdr.next == caches[info.idx]
    ensures Listed(headers[h := hdr], infos[h := info], caches[info.idx := h], order[info.idx := [h] + order[info.idx]])
  {
    var headers', idx := headers[h := hdr], info.idx;
    var list := order[idx];
    forall i | 0 <= i < NUM_CACHES
      ensures Threaded(headers', caches[i], order[i]) && h !in order[i]
    {
      assert Threaded(headers, caches[i], order[i]);
    }
    ThreadedCons(headers', caches[idx], list, h);
    assert forall g :: g in [h] + list <==> g == h || g in list;
  }

  lemma ThreadedCons(headers: Headers, head: int, list: seq<int>, h: int)
    requires Threaded(headers, head, list) && h != 0 && h in headers && headers[h].next == head && h !in list
    ensures Threaded(headers, h, [h] + list)
  {
    var now := [h] + list;
    forall i | 0 <= i < |now|
      ensures now[i] != 0 && now[i] in headers && headers[now[i]].next == Next(now, i)
    {
      if i > 0 {
        assert now[i] == list[i - 1] && Next(list, i - 1) == Next(now, i);
      }
    }
  }
}
