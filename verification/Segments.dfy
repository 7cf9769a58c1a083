/**
 Loadable segments of an ELF file: the checks the image builder makes on them, and what
 each virtual address shows once they have been mapped in order.
 */
module Segments {
  import opened Bytes
  import opened PageTables
  import opened AddressSpaces

  const USER_STACK_TOP: nat := 0x7FFF_FFFF_0000
  const USER_STACK_PAGES: nat := 8
  const STACK_BOTTOM: nat := USER_STACK_TOP - USER_STACK_PAGES * PAGE_BYTES

  /** A program header of type `PT_LOAD`; `writable` and `executable` are `PF_W` and `PF_X`. */
  datatype Segment = Segment(writable: bool, executable: bool, offset: u64, vaddr: u64, filesz: u64, memsz: u64,
                             align: u64)

  /* ----- Checks ----- */

  predicate PowerOfTwo(n: nat) {
    n == 1 || (n > 1 && n % 2 == 0 && PowerOfTwo(n / 2))
  }

  predicate AlignedValid(s: Segment) {
    s.align <= 1 || (PowerOfTwo(s.align) && s.vaddr % s.align == s.offset % s.align)
  }

  function Start(s: Segment, bias: u64): nat {
    s.vaddr + bias
  }

  function End(s: Segment, bias: u64): nat {
    s.vaddr + bias + s.memsz
  }

  /** `segment_range`: below the stack, above page zero, without wrapping around. */
  predicate RangeOk(s: Segment, bias: u64) {
    && s.vaddr <= U64 - 1 - bias
    && s.memsz <= U64 - 1 - Start(s, bias)
    && End(s, bias) <= USER_TOP
    && (s.memsz > 0 ==> Start(s, bias) >= PAGE_BYTES && End(s, bias) <= STACK_BOTTOM)
  }

  predicate SegmentOk(s: Segment, bias: u64, fileSize: nat) {
    && s.filesz <= s.memsz
    && RangeValid(s.offset, s.filesz, fileSize)
    && AlignedValid(s)
    && RangeOk(s, bias)
    && !(s.writable && s.executable)
  }

  predicate Overlaps(start: nat, end: nat, otherStart: nat, otherEnd: nat) {
    start < otherEnd && otherStart < end
  }

  predicate Clash(s: Segment, t: Segment, bias: u64) {
    s.memsz > 0 && t.memsz > 0 && Overlaps(Start(s, bias), End(s, bias), Start(t, bias), End(t, bias))
  }

  predicate AllOk(segs: seq<Segment>, bias: u64, fileSize: nat) {
    forall i :: 0 <= i < |segs| ==> SegmentOk(segs[i], bias, fileSize)
  }

  /** The segment lists `load_image` accepts. */
  predicate Accepted(segs: seq<Segment>, bias: u64, fileSize: nat) {
    && AllOk(segs, bias, fileSize)
    && (forall i, j :: 0 <= j < i < |segs| ==> !Clash(segs[i], segs[j], bias))
  }

  predicate Contains(s: Segment, bias: u64, a: nat) {
    Start(s, bias) <= a < End(s, bias)
  }

  predicate InFilePart(s: Segment, bias: u64, a: nat) {
    Start(s, bias) <= a < Start(s, bias) + s.filesz
  }

  /** The pages a segment has bytes in. */
  ghost function SegmentPages(s: Segment, bias: u64): set<nat> {
    set q: nat | q < USER_TOP / PAGE_BYTES && Touches(s, bias, q)
  }

  /** The pages that segments have bytes in. */
  ghost function ImagePages(segs: seq<Segment>, bias: u64): set<nat> {
    set q: nat | q < USER_TOP / PAGE_BYTES && TouchedBy(segs, bias, q)
  }

  /** The segment has a byte in page number `q`. */
  predicate Touches(s: Segment, bias: u64, q: nat) {
    s.memsz > 0 && Start(s, bias) / PAGE_BYTES <= q <= (End(s, bias) - 1) / PAGE_BYTES
  }

  /* ----- What an address shows ----- */

  datatype Seen = Unmapped | Mapped(value: byte, writable: bool, nx: bool)

  /** The byte at an address and the permissions of its page. */
  function See(mem: Memory, root: int, a: nat): Seen {
    var leaf := Leaf(mem, root, Indices(a));
    if leaf.present then Mapped(PageByte(mem, leaf.frame, a % PAGE_BYTES), leaf.writable, leaf.nx) else Unmapped
  }

  /** What a program sees, address by address. */
  type View = nat -> Seen

  function ViewOf(mem: Memory, root: int): View {
    (a: nat) => See(mem, root, a)
  }

  ghost predicate Agree(v: View, w: View) {
    forall a: nat :: a < USER_TOP ==> v(a) == w(a)
  }

  /** `view` after a copy of `data` to `address`. */
  function Overwrite(view: View, address: nat, data: seq<byte>): View {
    (a: nat) => if address <= a < address + |data| then AfterWrite(view(a), data[a - address]) else view(a)
  }

  predicate MappedIn(view: View, a: nat, n: nat) {
    a + n <= USER_TOP && forall b: nat :: a <= b < a + n ==> view(b).Mapped?
  }

  function BytesIn(view: View, a: nat, n: nat): (r: seq<byte>)
    requires MappedIn(view, a, n)
    ensures |r| == n && forall i :: 0 <= i < n ==> r[i] == view(a + i).value
  {
    seq(n, i requires 0 <= i < n => view(a + i).value)
  }

  /** The word at a mapped address. */
  function WordIn(view: View, a: nat): Option<u64> {
    if MappedIn(view, a, 8) then Some(WordOf(BytesIn(view, a, 8))) else None
  }

  lemma SeeByte(mem: Memory, root: int, a: nat)
    ensures VByte(mem, root, a) == if See(mem, root, a).Mapped? then Some(See(mem, root, a).value) else None
  {
    hide Leaf, Indices, PageByte;
  }

  lemma WordSeen(mem: Memory, root: int, a: nat)
    ensures WordIn(ViewOf(mem, root), a) == WordAt(mem, root, a)
    ensures MappedIn(ViewOf(mem, root), a, 8) <==> RangeMapped(mem, root, a, 8)
  {
    hide See, VByte, WordOf;
    var view := ViewOf(mem, root);
    forall b: nat | a <= b < a + 8
      ensures VByte(mem, root, b) == if view(b).Mapped? then Some(view(b).value) else None
    {
      SeeByte(mem, root, b);
    }
    if RangeMapped(mem, root, a, 8) {
      forall i | 0 <= i < 8
        ensures BytesIn(ViewOf(mem, root), a, 8)[i] == BytesAt(mem, root, a, 8)[i]
      {
        assert VByte(mem, root, a + i).Some? && view(a + i).Mapped?;
      }
      assert BytesIn(ViewOf(mem, root), a, 8) == BytesAt(mem, root, a, 8);
    }
  }

  lemma WordAgree(v: View, w: View, a: nat)
    requires forall b: nat :: a <= b < a + 8 && b < USER_TOP ==> v(b) == w(b)
    ensures WordIn(v, a) == WordIn(w, a) && (MappedIn(v, a, 8) <==> MappedIn(w, a, 8))
  {
    hide WordOf;
    if MappedIn(v, a, 8) && MappedIn(w, a, 8) {
      assert BytesIn(v, a, 8) == BytesIn(w, a, 8);
    }
  }

  function AfterMap(was: Seen, flags: Flags): Seen {
    if was.Unmapped? then Mapped(0, flags.writable, flags.nx)
    else Mapped(was.value, was.writable || flags.writable, was.nx && flags.nx)
  }

  function AfterWrite(was: Seen, b: byte): Seen {
    if was.Unmapped? then Unmapped else was.(value := b)
  }

  function FlagsOf(s: Segment, nx: bool): Flags {
    Flags(s.writable, nx && !s.executable)
  }

  /** What address `a` shows once the segments have been mapped, one after the other. */
  function SeeImage(segs: seq<Segment>, bias: u64, file: seq<byte>, nx: bool, a: nat): Seen
    requires AllOk(segs, bias, |file|)
    decreases |segs|
  {
    if segs == [] then Unmapped
    else
      var s := segs[|segs| - 1];
      assert SegmentOk(s, bias, |file|);
      AfterSegment(SeeImage(segs[..|segs| - 1], bias, file, nx, a), s, bias, file, nx, a)
  }

  function AfterSegment(was: Seen, s: Segment, bias: u64, file: seq<byte>, nx: bool, a: nat): Seen
    requires RangeValid(s.offset, s.filesz, |file|)
  {
    var m := if Touches(s, bias, a / PAGE_BYTES) then AfterMap(was, FlagsOf(s, nx)) else was;
    if InFilePart(s, bias, a) then AfterWrite(m, file[s.offset + (a - Start(s, bias))]) else m
  }

  /* ----- What the image shows, segment by segment ----- */

  predicate TouchedBy(segs: seq<Segment>, bias: u64, q: nat) {
    exists i :: 0 <= i < |segs| && Touches(segs[i], bias, q)
  }

  predicate WritableBy(segs: seq<Segment>, bias: u64, q: nat) {
    exists i :: 0 <= i < |segs| && Touches(segs[i], bias, q) && segs[i].writable
  }

  predicate ExecutableBy(segs: seq<Segment>, bias: u64, q: nat) {
    exists i :: 0 <= i < |segs| && Touches(segs[i], bias, q) && segs[i].executable
  }

  lemma TouchesContains(s: Segment, bias: u64, a: nat)
    requires Contains(s, bias, a)
    ensures Touches(s, bias, a / PAGE_BYTES)
  {
  }

  /**
   A page is mapped iff a segment touches it, writable iff one of those is, and
   no-execute iff that is enabled and none of those is executable, whatever their order.
   */
  lemma {:induction false} ImagePermissions(segs: seq<Segment>, bias: u64, file: seq<byte>, nx: bool, a: nat)
    requires AllOk(segs, bias, |file|)
    ensures var seen, q := SeeImage(segs, bias, file, nx, a), a / PAGE_BYTES;
            && (seen.Mapped? <==> TouchedBy(segs, bias, q))
            && (seen.Mapped? ==>
                  && (seen.writable <==> WritableBy(segs, bias, q))
                  && (seen.nx <==> nx && !ExecutableBy(segs, bias, q)))
    decreases |segs|
  {
    if segs != [] {
      var init, s, q := segs[..|segs| - 1], segs[|segs| - 1], a / PAGE_BYTES;
      ImagePermissions(init, bias, file, nx, a);
      SnocTouches(init, s, bias, q);
      assert segs == init + [s];
      if InFilePart(s, bias, a) {
        TouchesContains(s, bias, a);
      }
    }
  }

  lemma SnocTouches(init: seq<Segment>, s: Segment, bias: u64, q: nat)
    ensures TouchedBy(init + [s], bias, q) <==> TouchedBy(init, bias, q) || Touches(s, bias, q)
    ensures WritableBy(init + [s], bias, q) <==> WritableBy(init, bias, q) || (Touches(s, bias, q) && s.writable)
    ensures ExecutableBy(init + [s], bias, q) <==> ExecutableBy(init, bias, q) || (Touches(s, bias, q) && s.executable)
  {
    hide Touches;
    var all := init + [s];
    assert all[|init|] == s;
    assert forall i :: 0 <= i < |init| ==> all[i] == init[i];
  }

  lemma PagesSnoc(init: seq<Segment>, s: Segment, bias: u64)
    ensures ImagePages(init + [s], bias) == ImagePages(init, bias) + SegmentPages(s, bias)
  {
    hide Touches, TouchedBy;
    forall q: nat
      ensures TouchedBy(init + [s], bias, q) <==> TouchedBy(init, bias, q) || Touches(s, bias, q)
    {
      SnocTouches(init, s, bias, q);
    }
  }

  lemma PagesPrefix(segs: seq<Segment>, bias: u64, i: nat)
    requires i <= |segs|
    ensures ImagePages(segs[..i], bias) <= ImagePages(segs, bias)
  {
    hide Touches;
  }

  /** A byte outside every segment's file part is zero if its page is mapped at all. */
  lemma {:induction false} ImageZeroes(segs: seq<Segment>, bias: u64, file: seq<byte>, nx: bool, a: nat)
    requires AllOk(segs, bias, |file|)
    requires forall i :: 0 <= i < |segs| ==> !InFilePart(segs[i], bias, a)
    ensures var seen := SeeImage(segs, bias, file, nx, a); seen.Mapped? ==> seen.value == 0
    decreases |segs|
  {
    if segs != [] {
      hide Touches, InFilePart, SegmentOk;
      assert !InFilePart(segs[|segs| - 1], bias, a);
      ImageZeroes(segs[..|segs| - 1], bias, file, nx, a);
    }
  }

  lemma {:induction false} ImageFilePart(segs: seq<Segment>, bias: u64, file: seq<byte>, nx: bool, a: nat, k: nat)
    requires AllOk(segs, bias, |file|)
    requires k < |segs| && InFilePart(segs[k], bias, a)
    requires forall i :: k < i < |segs| ==> !InFilePart(segs[i], bias, a)
    ensures var seen := SeeImage(segs, bias, file, nx, a);
            seen.Mapped? && seen.value == file[segs[k].offset + (a - Start(segs[k], bias))]
    decreases |segs|
  {
    if k == |segs| - 1 {
      TouchesContains(segs[k], bias, a);
    } else {
      hide Touches, InFilePart;
      assert !InFilePart(segs[|segs| - 1], bias, a);
      ImageFilePart(segs[..|segs| - 1], bias, file, nx, a, k);
    }
  }

  /**
   Each byte of each segment of an accepted list shows its file byte below `filesz` and
   zero from there to `memsz`, also where segments share a page.
   */
  lemma ImageBytes(segs: seq<Segment>, bias: u64, file: seq<byte>, nx: bool, a: nat, k: nat)
    requires Accepted(segs, bias, |file|) && k < |segs| && Contains(segs[k], bias, a)
    ensures var seen, s := SeeImage(segs, bias, file, nx, a), segs[k];
            && seen.Mapped?
            && seen.value == if a - Start(s, bias) < s.filesz then file[s.offset + (a - Start(s, bias))] else 0
  {
    forall i | 0 <= i < |segs| && i != k
      ensures !InFilePart(segs[i], bias, a)
    {
      assert SegmentOk(segs[i], bias, |file|);
      assert !Clash(segs[if i < k then k else i], segs[if i < k then i else k], bias);
    }
    ImagePermissions(segs, bias, file, nx, a);
    TouchesContains(segs[k], bias, a);
    if InFilePart(segs[k], bias, a) {
      ImageFilePart(segs, bias, file, nx, a, k);
    } else {
      ImageZeroes(segs, bias, file, nx, a);
    }
  }

  /** Page zero and the stack's pages stay unmapped; an entry point in an executable segment can run. */
  lemma ImageLimits(segs: seq<Segment>, bias: u64, file: seq<byte>, nx: bool, a: nat)
    requires Accepted(segs, bias, |file|)
    ensures a < PAGE_BYTES || a >= STACK_BOTTOM ==> SeeImage(segs, bias, file, nx, a).Unmapped?
    ensures (exists k :: 0 <= k < |segs| && Contains(segs[k], bias, a) && segs[k].executable) ==>
              SeeImage(segs, bias, file, nx, a).Mapped? && !SeeImage(segs, bias, file, nx, a).nx
  {
    hide SeeImage, Contains, Touches, SegmentOk;
    ImagePermissions(segs, bias, file, nx, a);
    if k :| 0 <= k < |segs| && Contains(segs[k], bias, a) && segs[k].executable {
      TouchesContains(segs[k], bias, a);
    }
    if i :| 0 <= i < |segs| && Touches(segs[i], bias, a / PAGE_BYTES) {
      PageInside(segs[i], bias, |file|, a);
    }
  }

  lemma PageInside(s: Segment, bias: u64, fileSize: nat, a: nat)
    requires SegmentOk(s, bias, fileSize) && Touches(s, bias, a / PAGE_BYTES)
    ensures PAGE_BYTES <= a < STACK_BOTTOM
  {
    PageAboveZero(Start(s, bias), a);
    PageBelowStack(End(s, bias) - 1, a);
  }

  lemma PageAboveZero(first: nat, a: nat)
    requires PAGE_BYTES <= first && first / PAGE_BYTES <= a / PAGE_BYTES
    ensures PAGE_BYTES <= a
  {
  }

  lemma PageBelowStack(last: nat, a: nat)
    requires last < STACK_BOTTOM && a / PAGE_BYTES <= last / PAGE_BYTES
    ensures a < STACK_BOTTOM
  {
  }
}
