/**
 Relative relocations of a position-independent image, applied in the new address space
 (System V ABI AMD64 supplement, section 4.4: R_X86_64_RELATIVE stores base plus addend).
 */
module Relocations {
  import opened Bytes
  import opened PageTables
  import opened AddressSpaces
  import opened Segments
  import opened ImageLoader

  const R_X86_64_RELATIVE: nat := 8
  const DT_NULL: nat := 0
  const DT_RELA: nat := 7
  const DT_RELASZ: nat := 8
  const DT_RELAENT: nat := 9

  /** DT_NEEDED, DT_REL, DT_RELSZ, DT_TEXTREL, DT_JMPREL, DT_PLTRELSZ and DT_PLTREL are refused. */
  predicate Refused(tag: u64) {
    tag in {1, 17, 18, 22, 23, 2, 20}
  }

  datatype Info = Info(rela: u64, relaSize: u64, relaEntry: u64, hasRela: bool, hasRelaSize: bool)

  function Update(info: Info, tag: u64, value: u64): Info {
    if tag == DT_RELA then info.(rela := value, hasRela := true)
    else if tag == DT_RELASZ then info.(relaSize := value, hasRelaSize := true)
    else if tag == DT_RELAENT then info.(relaEntry := value)
    else info
  }

  /** What the dynamic table from `pos` to `end` says; `None` if it is refused or not terminated. */
  function Scan(view: View, pos: nat, end: nat, info: Info): Option<Info>
    decreases end - pos
  {
    if pos + 16 > end then None
    else match (WordIn(view, pos), WordIn(view, pos + 8))
      case (Some(tag), Some(value)) =>
        if tag == DT_NULL then Some(info)
        else if Refused(tag) then None
        else Scan(view, pos + 16, end, Update(info, tag, value))
      case _ => None
  }

  const NOTHING: Info := Info(0, 0, 24, false, false)

  /** `segment_is_writable`. */
  predicate InWritable(segs: seq<Segment>, bias: u64, address: nat, length: nat) {
    address + length < U64 &&
    exists i :: 0 <= i < |segs| && segs[i].writable && RangeOk(segs[i], bias) &&
                Start(segs[i], bias) <= address && address + length <= End(segs[i], bias)
  }

  /** The dynamic table is accepted, and the relocation table it names lies in user space. */
  predicate TableOk(view: View, vaddr: u64, memsz: u64, bias: u64) {
    && memsz >= 16 && vaddr + bias < U64 && vaddr + bias + memsz < U64 && vaddr + bias + memsz <= USER_TOP
    && var info := Scan(view, vaddr + bias, vaddr + bias + memsz, NOTHING);
    && info.Some? && info.value.hasRela == info.value.hasRelaSize && info.value.relaEntry == 24
    && (info.value.hasRela && info.value.relaSize != 0 ==>
          && info.value.relaSize % 24 == 0 && info.value.rela + bias < U64
          && info.value.relaSize <= (USER_TOP - (info.value.rela + bias)) % U64)
  }

  /* ----- One relocation after the other ----- */

  /** The address of the `i`th entry. */
  function EntryAt(rela: nat, i: nat): nat {
    rela + 24 * i
  }

  predicate Readable(view: View, at: nat) {
    WordIn(view, at).Some? && WordIn(view, at + 8).Some? && WordIn(view, at + 16).Some?
  }

  function TargetAt(view: View, at: nat, bias: u64): nat
    requires Readable(view, at)
  {
    WordIn(view, at).value + bias
  }

  /** Base plus addend, modulo 2^64. */
  function ValueAt(view: View, at: nat, bias: u64): u64
    requires Readable(view, at)
  {
    (bias + WordIn(view, at + 16).value) % U64
  }

  /** The relocation at `at` can be applied: readable, RELATIVE, and aimed at mapped bytes of a writable segment. */
  predicate Relocatable(view: View, at: nat, bias: u64, segs: seq<Segment>) {
    && Readable(view, at) && WordIn(view, at + 8) == Some(R_X86_64_RELATIVE)
    && TargetAt(view, at, bias) < U64 && InWritable(segs, bias, TargetAt(view, at, bias), 8)
    && MappedIn(view, TargetAt(view, at, bias), 8)
  }

  /** What is seen after the relocation at `at`. */
  function Apply(view: View, at: nat, bias: u64): View
    requires Readable(view, at)
  {
    Overwrite(view, TargetAt(view, at, bias), Word(ValueAt(view, at, bias)))
  }

  /** What is seen after the first `n` entries of the table. */
  function AfterFirst(view: View, rela: nat, n: nat, bias: u64): View {
    if n == 0 then view
    else
      var before := AfterFirst(view, rela, n - 1, bias);
      if Readable(before, EntryAt(rela, n - 1)) then Apply(before, EntryAt(rela, n - 1), bias) else before
  }

  /** Each of the first `n` entries can be applied once those before it have been. */
  ghost predicate AllRelocatable(view: View, rela: nat, n: nat, bias: u64, segs: seq<Segment>) {
    forall k: nat :: k < n ==> Relocatable(AfterFirst(view, rela, k, bias), EntryAt(rela, k), bias, segs)
  }

  /** What an accepted dynamic table says. */
  function TableOf(view: View, vaddr: u64, memsz: u64, bias: u64): Info {
    var info := Scan(view, vaddr + bias, vaddr + bias + memsz, NOTHING);
    if info.Some? then info.value else NOTHING
  }

  function EntriesOf(info: Info): nat {
    if info.hasRela then info.relaSize / 24 else 0
  }

  /** The image with this dynamic table can be relocated. */
  ghost predicate CanRelocate(view: View, vaddr: u64, memsz: u64, bias: u64, segs: seq<Segment>) {
    && TableOk(view, vaddr, memsz, bias)
    && var info := TableOf(view, vaddr, memsz, bias);
    && AllRelocatable(view, info.rela + bias, EntriesOf(info), bias, segs)
  }

  /** What is seen once it has been. */
  ghost function Relocated(view: View, vaddr: u64, memsz: u64, bias: u64): View {
    var info := TableOf(view, vaddr, memsz, bias);
    AfterFirst(view, info.rela + bias, EntriesOf(info), bias)
  }

  /* ----- Only what is seen matters ----- */

  lemma {:induction false} ScanAgree(v: View, w: View, pos: nat, end: nat, info: Info)
    requires Agree(v, w)
    ensures Scan(v, pos, end, info) == Scan(w, pos, end, info)
    decreases end - pos
  {
    hide WordIn;
    if pos + 16 <= end {
      WordAgree(v, w, pos);
      WordAgree(v, w, pos + 8);
      match (WordIn(v, pos), WordIn(v, pos + 8))
      case (Some(tag), Some(value)) => ScanAgree(v, w, pos + 16, end, Update(info, tag, value));
      case _ =>
    }
  }

  lemma EntryAgree(v: View, w: View, at: nat, bias: u64, segs: seq<Segment>)
    requires Agree(v, w)
    ensures WordIn(v, at) == WordIn(w, at) && WordIn(v, at + 8) == WordIn(w, at + 8)
    ensures WordIn(v, at + 16) == WordIn(w, at + 16)
    ensures Relocatable(v, at, bias, segs) <==> Relocatable(w, at, bias, segs)
    ensures Readable(v, at) ==> Agree(Apply(v, at, bias), Apply(w, at, bias))
  {
    hide WordIn, InWritable, Word;
    WordAgree(v, w, at);
    WordAgree(v, w, at + 8);
    WordAgree(v, w, at + 16);
    if Readable(v, at) {
      WordAgree(v, w, TargetAt(v, at, bias));
    }
  }

  lemma {:induction false} AfterAgree(v: View, w: View, rela: nat, n: nat, bias: u64)
    requires Agree(v, w)
    ensures Agree(AfterFirst(v, rela, n, bias), AfterFirst(w, rela, n, bias))
  {
    hide Apply, WordIn;
    if n > 0 {
      AfterAgree(v, w, rela, n - 1, bias);
      EntryAgree(AfterFirst(v, rela, n - 1, bias), AfterFirst(w, rela, n - 1, bias), EntryAt(rela, n - 1), bias, []);
    }
  }

  /** Two images that look alike relocate alike. */
  lemma RelocateAgree(v: View, w: View, vaddr: u64, memsz: u64, bias: u64, segs: seq<Segment>)
    requires Agree(v, w)
    ensures CanRelocate(v, vaddr, memsz, bias, segs) <==> CanRelocate(w, vaddr, memsz, bias, segs)
    ensures Agree(Relocated(v, vaddr, memsz, bias), Relocated(w, vaddr, memsz, bias))
  {
    hide Relocatable, Agree, AfterFirst, Scan;
    ScanAgree(v, w, vaddr + bias, vaddr + bias + memsz, NOTHING);
    var rela := TableOf(v, vaddr, memsz, bias).rela + bias;
    forall k: nat
      ensures Agree(AfterFirst(v, rela, k, bias), AfterFirst(w, rela, k, bias))
      ensures Relocatable(AfterFirst(v, rela, k, bias), EntryAt(rela, k), bias, segs) <==>
              Relocatable(AfterFirst(w, rela, k, bias), EntryAt(rela, k), bias, segs)
    {
      AfterAgree(v, w, rela, k, bias);
      EntryAgree(AfterFirst(v, rela, k, bias), AfterFirst(w, rela, k, bias), EntryAt(rela, k), bias, segs);
    }
  }

  /* ----- Only writable segments change ----- */

  /** Only bytes of writable segments differ, and no permission does. */
  ghost predicate OnlyWritable(v: View, w: View, bias: u64, segs: seq<Segment>) {
    forall a: nat :: a < USER_TOP ==>
      w(a) == v(a) || (InWritable(segs, bias, a, 1) && w(a).Mapped? && w(a) == AfterWrite(v(a), w(a).value))
  }

  lemma OnlyWritableSame(v: View, bias: u64, segs: seq<Segment>)
    ensures OnlyWritable(v, v, bias, segs)
  {
  }

  lemma OnlyWritableWrite(v: View, w: View, bias: u64, segs: seq<Segment>, target: nat, data: seq<byte>)
    requires Agree(w, Overwrite(v, target, data)) && |data| <= 8 && InWritable(segs, bias, target, 8)
    ensures OnlyWritable(v, w, bias, segs)
  {
    forall a | target <= a < target + |data|
      ensures InWritable(segs, bias, a, 1)
    {
    }
  }

  lemma OnlyWritableTrans(u: View, v: View, w: View, bias: u64, segs: seq<Segment>)
    requires OnlyWritable(u, v, bias, segs) && OnlyWritable(v, w, bias, segs)
    ensures OnlyWritable(u, w, bias, segs)
  {
    hide InWritable;
  }

  /** A whole run over the table changes bytes of writable segments only. */
  lemma {:induction false} RelocatesWritable(view: View, rela: nat, n: nat, bias: u64, segs: seq<Segment>)
    requires AllRelocatable(view, rela, n, bias, segs)
    ensures OnlyWritable(view, AfterFirst(view, rela, n, bias), bias, segs)
  {
    hide InWritable, OnlyWritable, WordIn;
    OnlyWritableSame(view, bias, segs);
    if n > 0 {
      RelocatesWritable(view, rela, n - 1, bias, segs);
      var before, at := AfterFirst(view, rela, n - 1, bias), EntryAt(rela, n - 1);
      assert Relocatable(before, at, bias, segs);
      OnlyWritableWrite(before, Apply(before, at, bias), bias, segs, TargetAt(before, at, bias),
                        Word(ValueAt(before, at, bias)));
      OnlyWritableTrans(view, before, Apply(before, at, bias), bias, segs);
    }
  }

  /* ----- The loops ----- */

  method ReadWord(space: AddressSpace, a: nat) returns (word: Option<u64>)
    requires space.Valid()
    ensures word == WordIn(ViewOf(space.ram.mem, space.root), a)
  {
    hide VByte, Tree, See, WordIn;
    WordSeen(space.ram.mem, space.root, a);
    var ok, data := space.CopyFromSpace(a, 8);
    if !ok {
      return None;
    }
    forall i | 0 <= i < 8
      ensures data[i] == BytesAt(space.ram.mem, space.root, a, 8)[i]
    {
      assert VByte(space.ram.mem, space.root, a + i) == Some(data[a + i - a]);
    }
    assert data == BytesAt(space.ram.mem, space.root, a, 8);
    return Some(WordOf(data));
  }

  /** The loop over the dynamic table. */
  method ScanDynamic(space: AddressSpace, cursor: nat, end: nat) returns (info: Option<Info>)
    requires space.Valid() && cursor + 16 <= end
    ensures info == Scan(ViewOf(space.ram.mem, space.root), cursor, end, NOTHING)
  {
    hide WordIn, Tree, ViewOf;
    var found := NOTHING;
    var position := cursor;
    while position <= end - 16
      invariant cursor <= position
      invariant Scan(ViewOf(space.ram.mem, space.root), cursor, end, NOTHING) ==
                Scan(ViewOf(space.ram.mem, space.root), position, end, found)
      decreases end - position
    {
      var tag := ReadWord(space, position);
      var value := ReadWord(space, position + 8);
      if tag.None? || value.None? {
        return None;
      }
      if tag.value == DT_NULL {
        return Some(found);
      }
      if Refused(tag.value) {
        return None;
      }
      found := Update(found, tag.value, value.value);
      position := position + 16;
    }
    return None;
  }

  lemma WrittenAgrees(m0: Memory, m1: Memory, root: int, address: nat, data: seq<byte>)
    requires SameLeaves(m0, m1, root) && Written(m0, m1, root, address, data)
    ensures Agree(ViewOf(m1, root), Overwrite(ViewOf(m0, root), address, data))
  {
    hide See, SameLeaves, Written;
    SeeWritten(m0, m1, root, address, data);
  }

  /** The body of the loop over the relocation table. */
  method ApplyOne(space: AddressSpace, at: nat, bias: u64, segs: seq<Segment>) returns (ok: bool)
    requires space.Valid()
    modifies space.ram
    ensures space.Valid() && Copies(old(space.ram.mem), space.ram.mem, space.root, space.sh.level.Keys)
    ensures ok <==> Relocatable(ViewOf(old(space.ram.mem), space.root), at, bias, segs)
    ensures ok ==> Agree(ViewOf(space.ram.mem, space.root), Apply(ViewOf(old(space.ram.mem), space.root), at, bias))
    ensures OnlyWritable(ViewOf(old(space.ram.mem), space.root), ViewOf(space.ram.mem, space.root), bias, segs)
  {
    hide WordIn, Tree, Leaf, See, InWritable, Word, RangeMapped, Written, OnlyWritable, ViewOf, Overwrite, Agree;
    hide MappedIn, Copies;
    ghost var view := ViewOf(space.ram.mem, space.root);
    OnlyWritableSame(view, bias, segs);
    CopiesRefl(space.ram.mem, space.root, space.sh.level.Keys);
    var offset := ReadWord(space, at);
    var info := ReadWord(space, at + 8);
    var addend := ReadWord(space, at + 16);
    if offset.None? || info.None? || addend.None? {
      return false;
    }
    if info.value % U32 != R_X86_64_RELATIVE || info.value / U32 != 0 || offset.value > U64 - 1 - bias {
      return false;
    }
    var target := offset.value + bias;
    if !InWritable(segs, bias, target, 8) {
      return false;
    }
    var data := Word((bias + addend.value) % U64);
    WordSeen(space.ram.mem, space.root, target);
    ok := space.CopyToSpace(target, data);
    CopiesLeaves(old(space.ram.mem), space.ram.mem, space.root, space.sh.level.Keys);
    ghost var n: nat :| n <= |data| && Written(old(space.ram.mem), space.ram.mem, space.root, target, data[..n]);
    WrittenAgrees(old(space.ram.mem), space.ram.mem, space.root, target, data[..n]);
    OnlyWritableWrite(view, ViewOf(space.ram.mem, space.root), bias, segs, target, data[..n]);
    if ok {
      WrittenAgrees(old(space.ram.mem), space.ram.mem, space.root, target, data);
    }
  }

  lemma CopiesLeaves(m0: Memory, m1: Memory, root: int, owned: set<int>)
    requires Copies(m0, m1, root, owned)
    ensures SameLeaves(m0, m1, root)
  {
  }

  /**
   `apply_relative_relocations`: it succeeds exactly if the dynamic table is accepted and every
   entry can be applied in its turn, and then each has been; in every case only writable
   segments changed.
   */
  method ApplyRelativeRelocations(space: AddressSpace, vaddr: u64, memsz: u64, bias: u64, segs: seq<Segment>)
    returns (ok: bool)
    requires space.Valid()
    modifies space.ram
    ensures space.Valid() && Copies(old(space.ram.mem), space.ram.mem, space.root, space.sh.level.Keys)
    ensures OnlyWritable(ViewOf(old(space.ram.mem), space.root), ViewOf(space.ram.mem, space.root), bias, segs)
    ensures ok <==> CanRelocate(ViewOf(old(space.ram.mem), space.root), vaddr, memsz, bias, segs)
    ensures ok ==> Agree(ViewOf(space.ram.mem, space.root),
                         Relocated(ViewOf(old(space.ram.mem), space.root), vaddr, memsz, bias))
  {
    hide WordIn, Tree, Leaf, Scan, OnlyWritable, Relocatable, ViewOf, Agree, Copies, AfterFirst, See;
    ghost var view := ViewOf(space.ram.mem, space.root);
    OnlyWritableSame(view, bias, segs);
    CopiesRefl(space.ram.mem, space.root, space.sh.level.Keys);
    if memsz < 16 || vaddr > U64 - 1 - bias {
      return false;
    }
    var cursor := vaddr + bias;
    var end := cursor + memsz;
    if end >= U64 || end > USER_TOP {
      return false;
    }
    var info := ScanDynamic(space, cursor, end);
    if info.None? {
      return false;
    }
    var found := info.value;
    if found.hasRela != found.hasRelaSize || found.relaEntry != 24 {
      return false;
    }
    if !found.hasRela || found.relaSize == 0 {
      AfterNone(view, found.rela + bias, bias);
      return true;
    }
    if found.relaSize % 24 != 0 || found.rela > U64 - 1 - bias {
      return false;
    }
    var rela := found.rela + bias;
    if found.relaSize > (USER_TOP - rela) % U64 {
      return false;
    }
    ok := ApplyTable(space, rela, found.relaSize, bias, segs);
  }

  lemma AfterNone(view: View, rela: nat, bias: u64)
    ensures AfterFirst(view, rela, 0, bias) == view && Agree(view, view)
  {
  }

  /** The loop over the relocation table. */
  method ApplyTable(space: AddressSpace, rela: nat, size: nat, bias: u64, segs: seq<Segment>) returns (ok: bool)
    requires space.Valid() && size % 24 == 0
    modifies space.ram
    ensures space.Valid() && Copies(old(space.ram.mem), space.ram.mem, space.root, space.sh.level.Keys)
    ensures OnlyWritable(ViewOf(old(space.ram.mem), space.root), ViewOf(space.ram.mem, space.root), bias, segs)
    ensures ok <==> AllRelocatable(ViewOf(old(space.ram.mem), space.root), rela, size / 24, bias, segs)
    ensures ok ==> Agree(ViewOf(space.ram.mem, space.root),
                         AfterFirst(ViewOf(old(space.ram.mem), space.root), rela, size / 24, bias))
  {
    hide WordIn, Tree, Leaf, OnlyWritable, Relocatable, ViewOf, Agree, Copies, AfterFirst, See, Apply;
    ghost var view, k := ViewOf(space.ram.mem, space.root), 0;
    OnlyWritableSame(view, bias, segs);
    CopiesRefl(space.ram.mem, space.root, space.sh.level.Keys);
    AfterNone(view, rela, bias);
    var offset := 0;
    while offset < size
      invariant 0 <= k && offset == 24 * k <= size
      invariant space.Valid() && Copies(old(space.ram.mem), space.ram.mem, space.root, space.sh.level.Keys)
      invariant OnlyWritable(view, ViewOf(space.ram.mem, space.root), bias, segs)
      invariant Agree(ViewOf(space.ram.mem, space.root), AfterFirst(view, rela, k, bias))
      invariant AllRelocatable(view, rela, k, bias, segs)
    {
      ghost var m1 := space.ram.mem;
      ghost var before := AfterFirst(view, rela, k, bias);
      assert rela + offset == EntryAt(rela, k);
      EntryAgree(ViewOf(m1, space.root), before, EntryAt(rela, k), bias, segs);
      var applied := ApplyOne(space, rela + offset, bias, segs);
      CopiesTrans(old(space.ram.mem), m1, space.ram.mem, space.root, space.sh.level.Keys);
      OnlyWritableTrans(view, ViewOf(m1, space.root), ViewOf(space.ram.mem, space.root), bias, segs);
      if !applied {
        assert !Relocatable(AfterFirst(view, rela, k, bias), EntryAt(rela, k), bias, segs);
        return false;
      }
      OneMore(view, ViewOf(m1, space.root), ViewOf(space.ram.mem, space.root), rela, k, bias, segs);
      k := k + 1;
      offset := offset + 24;
    }
    return true;
  }

  lemma OneMore(view: View, v: View, w: View, rela: nat, k: nat, bias: u64, segs: seq<Segment>)
    requires Agree(v, AfterFirst(view, rela, k, bias)) && Relocatable(v, EntryAt(rela, k), bias, segs)
    requires Agree(w, Apply(v, EntryAt(rela, k), bias)) && AllRelocatable(view, rela, k, bias, segs)
    ensures Agree(w, AfterFirst(view, rela, k + 1, bias)) && AllRelocatable(view, rela, k + 1, bias, segs)
  {
    hide WordIn, Apply, InWritable, MappedIn;
    EntryAgree(v, AfterFirst(view, rela, k, bias), EntryAt(rela, k), bias, segs);
  }
}
