/**
 What `load_image` accepts and what the program then finds in memory, said in the words of
 the file: sizes, addresses and type numbers are those of the ELF-64 object file format and
 of the System V ABI AMD64 supplement.
 */
module LoadedProgram {
  import opened Bytes
  import opened PageTables
  import opened AddressSpaces
  import opened Segments
  import opened ImageLoader
  import opened Relocations
  import opened RelocatedImage
  import opened InitialStack
  import opened Exec

  /* ----- Accepted headers ----- */

  ghost predicate IsPower(n: nat) {
    exists k: nat :: n == TwoTo(k)
  }

  function TwoTo(k: nat): (r: nat)
    ensures r > 0
  {
    if k == 0 then 1 else 2 * TwoTo(k - 1)
  }

  lemma {:induction false} PowerIs(n: nat)
    ensures PowerOfTwo(n) <==> IsPower(n)
  {
    if n == 1 {
      assert n == TwoTo(0);
    } else if n > 1 && n % 2 == 0 {
      PowerIs(n / 2);
      if k: nat :| n / 2 == TwoTo(k) {
        assert n == TwoTo(k + 1);
      }
      if k: nat :| n == TwoTo(k) {
        assert n / 2 == TwoTo(k - 1);
      }
    }
  }

  /** A loadable segment: in the file, aligned, not both written and executed, between page 1 and the stack. */
  ghost predicate SegmentGood(s: Segment, bias: u64, fileSize: nat) {
    && s.filesz <= s.memsz && s.offset + s.filesz <= fileSize && !(s.writable && s.executable)
    && (s.align > 1 ==> IsPower(s.align) && s.vaddr % s.align == s.offset % s.align)
    && s.vaddr + bias + s.memsz <= 0x8000_0000_0000
    && (s.memsz > 0 ==> 4096 <= s.vaddr + bias && s.vaddr + bias + s.memsz <= 0x7FFF_FFFE_8000)
  }

  /** Address `a` is one of the segment's. */
  predicate Within(s: Segment, bias: u64, a: nat) {
    s.vaddr + bias <= a < s.vaddr + bias + s.memsz
  }

  ghost predicate Disjoint(s: Segment, t: Segment, bias: u64) {
    forall a: nat :: Within(s, bias, a) ==> !Within(t, bias, a)
  }

  /** Every segment is good, no address is in two of them, and the entry point is in one that can be executed. */
  ghost predicate ProgramGood(h: Headers, fileSize: nat) {
    var bias := if h.relocatable then 0x4000_0000 else 0;
    && (h.dynamic.Some? ==> h.relocatable)
    && (forall i :: 0 <= i < |h.segs| ==> SegmentGood(h.segs[i], bias, fileSize))
    && (forall i, j :: 0 <= i < j < |h.segs| ==> Disjoint(h.segs[i], h.segs[j], bias))
    && exists i :: 0 <= i < |h.segs| && h.segs[i].executable && Within(h.segs[i], bias, h.entry + bias)
  }

  lemma SegmentIs(s: Segment, bias: u64, fileSize: nat)
    ensures SegmentOk(s, bias, fileSize) <==> SegmentGood(s, bias, fileSize)
  {
    hide IsPower, PowerOfTwo;
    PowerIs(s.align);
  }

  lemma ClashIs(s: Segment, t: Segment, bias: u64)
    ensures Clash(s, t, bias) <==> !Disjoint(t, s, bias)
  {
    if Clash(s, t, bias) {
      var a := if Start(s, bias) < Start(t, bias) then Start(t, bias) else Start(s, bias);
      assert Within(s, bias, a) && Within(t, bias, a);
    }
  }

  /** Which headers `load_image` accepts. */
  lemma HeadersAre(h: Headers, file: seq<byte>)
    ensures HeadersOk(h, file) <==> ProgramGood(h, |file|)
  {
    hide SegmentOk, SegmentGood, Clash, Disjoint;
    var bias := Bias(h);
    forall i | 0 <= i < |h.segs|
      ensures SegmentOk(h.segs[i], bias, |file|) <==> SegmentGood(h.segs[i], bias, |file|)
    {
      SegmentIs(h.segs[i], bias, |file|);
    }
    forall i, j | 0 <= j < i < |h.segs|
      ensures Clash(h.segs[i], h.segs[j], bias) <==> !Disjoint(h.segs[j], h.segs[i], bias)
    {
      ClashIs(h.segs[i], h.segs[j], bias);
    }
    if ProgramGood(h, |file|) {
      var i :| 0 <= i < |h.segs| && h.segs[i].executable && Within(h.segs[i], bias, h.entry + bias);
      EntryBelow(h.segs[i], bias, |file|, h.entry + bias);
      assert Contains(h.segs[i], bias, h.entry + bias);
    }
  }

  lemma EntryBelow(s: Segment, bias: u64, fileSize: nat, a: nat)
    requires SegmentGood(s, bias, fileSize) && Within(s, bias, a)
    ensures a < U64
  {
  }

  /* ----- The relocation table ----- */

  /** Where the relocation table named by `list` lies in the image, and how many entries it has. */
  function TableAt(list: seq<(u64, u64)>, bias: u64): nat {
    LastValue(list, 7, 0) + bias
  }

  function TableSize(list: seq<(u64, u64)>): nat {
    LastValue(list, 8, 0) / 24
  }

  lemma ImageMapped(h: Headers, file: seq<byte>, nx: bool)
    requires AllOk(h.segs, Bias(h), |file|)
    ensures SegmentsMapped(ImageView(h, file, nx), Bias(h), h.segs)
  {
    hide SeeImage, Touches, Contains, SegmentOk;
    var view, bias := ImageView(h, file, nx), Bias(h);
    forall i, a: nat | 0 <= i < |h.segs| && Contains(h.segs[i], bias, a)
      ensures view(a).Mapped?
    {
      ImagePermissions(h.segs, bias, file, nx, a);
      TouchesContains(h.segs[i], bias, a);
      assert view(a) == SeeImage(h.segs, bias, file, nx, a);
    }
  }

  /** `list` is the entries of the image's dynamic table, and the relocations it names have targets apart. */
  ghost predicate Tabled(h: Headers, file: seq<byte>, nx: bool, list: seq<(u64, u64)>) {
    && HeadersOk(h, file) && h.dynamic.Some?
    && var view, at := ImageView(h, file, nx), h.dynamic.value.0 + Bias(h);
    && Lists(view, at, at + h.dynamic.value.1, list)
    && Apart(view, TableAt(list, Bias(h)), TableSize(list), Bias(h))
  }

  /**
   When an image can be relocated. Its dynamic table, whose entries are `list`, must be usable;
   then, with targets apart, every entry must be RELATIVE and aim into a writable segment.
   */
  lemma RelocationsAre(h: Headers, file: seq<byte>, nx: bool, list: seq<(u64, u64)>)
    requires Tabled(h, file, nx, list)
    ensures var view, bias := ImageView(h, file, nx), Bias(h);
            RelocationsOk(h, file, nx) <==>
              && h.dynamic.value.0 + bias + h.dynamic.value.1 <= 0x8000_0000_0000 && Usable(list, bias)
              && forall k: nat :: k < TableSize(list) ==>
                   Applicable(view, EntryAt(TableAt(list, bias), k), bias, h.segs)
  {
    hide WordIn, SeeImage, Apart, Scan, Relocatable, Applicable, SegmentOk, EntryExecutable, Clash, Usable,
         AllRelocatable;
    var view, bias, vaddr, memsz := ImageView(h, file, nx), Bias(h), h.dynamic.value.0, h.dynamic.value.1;
    TableHere(view, vaddr, memsz, bias, list);
    if Usable(list, bias) {
      TableNames(view, vaddr, memsz, bias, list);
      AllRelocatableIs(view, TableAt(list, bias), TableSize(list), bias, h.segs);
      ImageMapped(h, file, nx);
      forall k: nat | k < TableSize(list)
        ensures Relocatable(view, EntryAt(TableAt(list, bias), k), bias, h.segs) <==>
                Applicable(view, EntryAt(TableAt(list, bias), k), bias, h.segs)
      {
        RelocatableIs(view, EntryAt(TableAt(list, bias), k), bias, h.segs, |file|);
      }
    }
  }

  lemma TableHere(view: View, vaddr: u64, memsz: u64, bias: u64, list: seq<(u64, u64)>)
    requires Lists(view, vaddr + bias, vaddr + bias + memsz, list)
    ensures TableOk(view, vaddr, memsz, bias) <==>
            vaddr + bias + memsz <= 0x8000_0000_0000 && Usable(list, bias)
  {
    hide WordIn, Scan, Allowed, LastValue, Has;
    ScanGoes(view, vaddr + bias, vaddr + bias + memsz, NOTHING, list);
  }

  /* ----- The relocated words ----- */

  /** With targets apart, each target of the finished image is the base plus the addend of its entry. */
  lemma RelocatedWords(h: Headers, file: seq<byte>, nx: bool, list: seq<(u64, u64)>, k: nat)
    requires Tabled(h, file, nx, list) && RelocationsOk(h, file, nx) && k < TableSize(list)
    ensures var was, now, e := ImageView(h, file, nx), FinalView(h, file, nx), TableAt(list, Bias(h)) + 24 * k;
            Relocates(was, now, e, Bias(h)) && Below(was, e, Bias(h))
  {
    hide WordIn, SeeImage, Apart, Scan, SegmentOk, EntryExecutable, Clash, Usable, AllRelocatable, Relocates,
         AfterFirst;
    var view, bias, vaddr, memsz := ImageView(h, file, nx), Bias(h), h.dynamic.value.0, h.dynamic.value.1;
    TableHere(view, vaddr, memsz, bias, list);
    TableNames(view, vaddr, memsz, bias, list);
    WordRelocated(view, TableAt(list, bias), TableSize(list), bias, h.segs, k);
    RelocatesReads(view, FinalView(h, file, nx), TableAt(list, bias) + 24 * k, bias);
    WritableBelow(h.segs, bias, |file|, WordIn(view, TableAt(list, bias) + 24 * k).value + bias);
  }

  /** The target of the entry at `e` ends below the stack. */
  ghost predicate Below(was: View, e: nat, bias: u64) {
    WordIn(was, e).Some? && WordIn(was, e).value + bias + 8 <= STACK_BOTTOM
  }

  lemma RelocatesReads(was: View, now: View, e: nat, bias: u64)
    requires Relocates(was, now, e, bias)
    ensures WordIn(was, e).Some?
  {
  }

  lemma WritableBelow(segs: seq<Segment>, bias: u64, fileSize: nat, t: nat)
    requires AllOk(segs, bias, fileSize) && InWritable(segs, bias, t, 8)
    ensures t + 8 <= STACK_BOTTOM
  {
    var i :| 0 <= i < |segs| && segs[i].writable && RangeOk(segs[i], bias) &&
             Start(segs[i], bias) <= t && t + 8 <= End(segs[i], bias);
  }

  /** In memory, the word an entry at `e` of the image names is the base plus the entry's third word. */
  ghost predicate InMemory(mem: Memory, root: int, was: View, e: nat, bias: u64) {
    && WordIn(was, e).Some? && WordIn(was, e + 16).Some?
    && WordAt(mem, root, WordIn(was, e).value + bias) ==
       Some((bias + WordIn(was, e + 16).value) % 0x1_0000_0000_0000_0000)
  }

  /** The same of the memory that `load_image` leaves. */
  lemma WordsInMemory(mem: Memory, root: int, h: Headers, file: seq<byte>, nx: bool, list: seq<(u64, u64)>, k: nat)
    requires Complete(mem, root, h, file, nx)
    requires Tabled(h, file, nx, list) && RelocationsOk(h, file, nx) && k < TableSize(list)
    ensures InMemory(mem, root, ImageView(h, file, nx), TableAt(list, Bias(h)) + 24 * k, Bias(h))
  {
    hide WordIn, See, Tabled, RelocationsOk, ImageView, FinalView, WordAt, TableAt, TableSize;
    RelocatedWords(h, file, nx, list, k);
    var was, e := ImageView(h, file, nx), TableAt(list, Bias(h)) + 24 * k;
    var target, view := WordIn(was, e).value + Bias(h), ViewOf(mem, root);
    WordAgree(view, FinalView(h, file, nx), target);
    WordSeen(mem, root, target);
  }

  /** Relocating changes no byte of a page that the program cannot write. */
  lemma ReadOnlyKept(h: Headers, file: seq<byte>, nx: bool, a: nat)
    requires HeadersOk(h, file) && RelocationsOk(h, file, nx) && a < 0x8000_0000_0000
    requires ImageView(h, file, nx)(a).Mapped? && !ImageView(h, file, nx)(a).writable
    ensures FinalView(h, file, nx)(a) == ImageView(h, file, nx)(a)
  {
    hide SeeImage, RelocationsOk, Touches, SegmentOk, EntryExecutable, Clash, FinalView;
    var bias := Bias(h);
    FinalOnlyWritable(h, file, nx);
    ImagePermissions(h.segs, bias, file, nx, a);
    WritableTouched(h.segs, bias, a);
  }

  lemma WritableTouched(segs: seq<Segment>, bias: u64, a: nat)
    ensures InWritable(segs, bias, a, 1) ==> WritableBy(segs, bias, a / PAGE_BYTES)
  {
    hide Touches;
    if InWritable(segs, bias, a, 1) {
      var i :| 0 <= i < |segs| && segs[i].writable && RangeOk(segs[i], bias) &&
               Start(segs[i], bias) <= a && a + 1 <= End(segs[i], bias);
      TouchesContains(segs[i], bias, a);
    }
  }

  /* ----- The status ----- */

  /**
   The status of `load_image`: -22 for more than 128 strings in a vector, -8 for headers that
   are not accepted, -12 without a kernel table or a free page, 0 if and only if there are as
   many pages as the image takes, the strings fit the stack's store of 16384 bytes and the
   image can be relocated, and -8 else.
   */
  lemma StatusIs(kernel: bool, free: nat, h: Headers, file: seq<byte>, nx: bool, argv: seq<Str>, envp: seq<Str>,
                 path: Str)
    ensures var status := StatusOf(kernel, free, h, file, nx, argv, envp, path);
            && (status == -22 <==> |argv| > 128 || |envp| > 128)
            && (status == -12 <==> |argv| <= 128 && |envp| <= 128 && ProgramGood(h, |file|) && (!kernel || free == 0))
            && (status == 0 <==>
                  && |argv| <= 128 && |envp| <= 128 && ProgramGood(h, |file|) && kernel && 0 < free
                  && FramesNeeded(h) <= free && RelocationsOk(h, file, nx)
                  && |path| + 1 + |Flatten(argv)| + |Flatten(envp)| <= 16384)
            && status in {-22, -12, -8, 0}
  {
    hide HeadersOk, ProgramGood, FramesNeeded, RelocationsOk, Flatten;
    HeadersAre(h, file);
  }
}
