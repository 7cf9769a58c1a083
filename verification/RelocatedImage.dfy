/**
 What relocating does to an image as a whole: when the targets lie apart, each holds base
 plus the addend its entry had at the start, and every other byte is as it was.
 */
module RelocatedImage {
  import opened Bytes
  import opened PageTables
  import opened Segments
  import opened Relocations

  /** No target meets a later entry or a later target. */
  ghost predicate Apart(view: View, rela: nat, n: nat, bias: u64) {
    forall i: nat, j: nat :: i < j < n ==> ApartPair(view, EntryAt(rela, i), EntryAt(rela, j), bias)
  }

  ghost predicate ApartPair(view: View, first: nat, later: nat, bias: u64) {
    Readable(view, first) ==>
      && !Overlap(TargetAt(view, first, bias), 8, later, 24)
      && (Readable(view, later) ==> !Overlap(TargetAt(view, first, bias), 8, TargetAt(view, later, bias), 8))
  }

  ghost predicate Covers(view: View, at: nat, bias: u64, a: nat) {
    Readable(view, at) && TargetAt(view, at, bias) <= a < TargetAt(view, at, bias) + 8
  }

  /** Address `a` of the target of the entry at `at` shows its byte of base plus addend. */
  ghost predicate ShowsValue(was: View, now: View, at: nat, bias: u64, a: nat) {
    Covers(was, at, bias, a) ==>
      now(a) == AfterWrite(was(a), Word(ValueAt(was, at, bias))[a - TargetAt(was, at, bias)])
  }

  /** After the first `n` entries. */
  ghost predicate Shown(was: View, now: View, rela: nat, n: nat, bias: u64) {
    && (forall i: nat :: i < n ==> Readable(was, EntryAt(rela, i)))
    && (forall i: nat, a: nat :: i < n && a < USER_TOP ==> ShowsValue(was, now, EntryAt(rela, i), bias, a))
    && (forall a: nat :: a < USER_TOP && Untouched(was, rela, n, bias, a) ==> now(a) == was(a))
  }

  ghost predicate Untouched(was: View, rela: nat, n: nat, bias: u64, a: nat) {
    forall i: nat :: i < n ==> !Covers(was, EntryAt(rela, i), bias, a)
  }

  /** An entry that no earlier target meets is still what it was. */
  lemma EntryKept(was: View, now: View, rela: nat, k: nat, n: nat, bias: u64)
    requires Shown(was, now, rela, k, bias) && k < n && Apart(was, rela, n, bias)
    ensures var at := EntryAt(rela, k);
            && WordIn(now, at) == WordIn(was, at) && WordIn(now, at + 8) == WordIn(was, at + 8)
            && WordIn(now, at + 16) == WordIn(was, at + 16)
  {
    hide WordIn, ShowsValue;
    var at := EntryAt(rela, k);
    forall a: nat | at <= a < at + 24 && a < USER_TOP
      ensures now(a) == was(a)
    {
      forall i: nat | i < k
        ensures !Covers(was, EntryAt(rela, i), bias, a)
      {
        assert ApartPair(was, EntryAt(rela, i), EntryAt(rela, k), bias);
      }
      assert Untouched(was, rela, k, bias, a);
    }
    WordAgree(now, was, at);
    WordAgree(now, was, at + 8);
    WordAgree(now, was, at + 16);
  }

  /** One more entry. */
  lemma ShownStep(was: View, now: View, rela: nat, k: nat, n: nat, bias: u64)
    requires Shown(was, now, rela, k, bias) && k < n && Apart(was, rela, n, bias)
    requires Readable(now, EntryAt(rela, k))
    ensures Shown(was, Apply(now, EntryAt(rela, k), bias), rela, k + 1, bias)
  {
    hide WordIn, Word, Apart;
    EntryKept(was, now, rela, k, n, bias);
    var at := EntryAt(rela, k);
    assert Readable(was, at);
    var after := Apply(now, at, bias);
    assert after == Overwrite(now, TargetAt(was, at, bias), Word(ValueAt(was, at, bias)));
    forall i: nat, a: nat | i < k + 1 && a < USER_TOP
      ensures ShowsValue(was, after, EntryAt(rela, i), bias, a)
    {
      StepValue(was, now, after, rela, i, k, n, bias, a);
    }
    forall a: nat | a < USER_TOP && Untouched(was, rela, k + 1, bias, a)
      ensures after(a) == was(a)
    {
      assert !Covers(was, EntryAt(rela, k), bias, a);
      assert Untouched(was, rela, k, bias, a);
    }
  }

  lemma StepValue(was: View, now: View, after: View, rela: nat, i: nat, k: nat, n: nat, bias: u64, a: nat)
    requires i <= k < n && a < USER_TOP && Apart(was, rela, n, bias) && Readable(was, EntryAt(rela, k))
    requires Shown(was, now, rela, k, bias)
    requires var at := EntryAt(rela, k); after == Overwrite(now, TargetAt(was, at, bias), Word(ValueAt(was, at, bias)))
    ensures ShowsValue(was, after, EntryAt(rela, i), bias, a)
  {
    hide WordIn, Word, Overwrite, ShowsValue, ApartPair, Covers, Readable;
    if i < k {
      assert ApartPair(was, EntryAt(rela, i), EntryAt(rela, k), bias);
      assert ShowsValue(was, now, EntryAt(rela, i), bias, a);
      ValueKept(was, now, after, EntryAt(rela, i), EntryAt(rela, k), bias, a);
    } else {
      if Covers(was, EntryAt(rela, k), bias, a) {
        forall j: nat | j < k
          ensures !Covers(was, EntryAt(rela, j), bias, a)
        {
          assert ApartPair(was, EntryAt(rela, j), EntryAt(rela, k), bias);
          CoverOne(was, EntryAt(rela, j), EntryAt(rela, k), bias, a);
        }
        assert Untouched(was, rela, k, bias, a);
      }
      ValueWritten(was, now, after, EntryAt(rela, k), bias, a);
    }
  }

  lemma CoverOne(was: View, first: nat, later: nat, bias: u64, a: nat)
    requires ApartPair(was, first, later, bias) && Covers(was, later, bias, a)
    ensures !Covers(was, first, bias, a)
  {
    hide WordIn;
  }

  lemma ValueKept(was: View, now: View, after: View, first: nat, later: nat, bias: u64, a: nat)
    requires a < USER_TOP && ApartPair(was, first, later, bias) && ShowsValue(was, now, first, bias, a)
    requires Readable(was, later)
    requires after == Overwrite(now, TargetAt(was, later, bias), Word(ValueAt(was, later, bias)))
    ensures ShowsValue(was, after, first, bias, a)
  {
    hide WordIn, Word, AfterWrite;
  }

  lemma ValueWritten(was: View, now: View, after: View, at: nat, bias: u64, a: nat)
    requires a < USER_TOP && Readable(was, at) && (Covers(was, at, bias, a) ==> now(a) == was(a))
    requires after == Overwrite(now, TargetAt(was, at, bias), Word(ValueAt(was, at, bias)))
    ensures ShowsValue(was, after, at, bias, a)
  {
    hide WordIn, Word, AfterWrite;
  }

  /** The whole table: what each target holds depends only on the image before any relocation. */
  lemma {:induction false} StepsShow(view: View, rela: nat, n: nat, bias: u64, segs: seq<Segment>, k: nat)
    requires k <= n && AllRelocatable(view, rela, n, bias, segs) && Apart(view, rela, n, bias)
    ensures Shown(view, AfterFirst(view, rela, k, bias), rela, k, bias)
    decreases k
  {
    hide WordIn, Apart, InWritable, MappedIn, Apply, Shown, Relocatable;
    if k == 0 {
      ShownNone(view, rela, bias);
    } else {
      StepsShow(view, rela, n, bias, segs, k - 1);
      assert Relocatable(AfterFirst(view, rela, k - 1, bias), EntryAt(rela, k - 1), bias, segs);
      RelocatableReads(AfterFirst(view, rela, k - 1, bias), EntryAt(rela, k - 1), bias, segs);
      ShownStep(view, AfterFirst(view, rela, k - 1, bias), rela, k - 1, n, bias);
    }
  }

  lemma ShownNone(view: View, rela: nat, bias: u64)
    ensures Shown(view, view, rela, 0, bias)
  {
  }

  lemma RelocatableReads(view: View, at: nat, bias: u64, segs: seq<Segment>)
    requires Relocatable(view, at, bias, segs)
    ensures Readable(view, at)
  {
  }

  /* ----- The words themselves ----- */

  /** Relocating maps and unmaps nothing. */
  lemma StaysMapped(was: View, now: View, rela: nat, n: nat, bias: u64, a: nat)
    requires Shown(was, now, rela, n, bias) && a < USER_TOP
    ensures now(a).Mapped? <==> was(a).Mapped?
  {
    hide WordIn, Word;
    if !Untouched(was, rela, n, bias, a) {
      var i: nat :| i < n && Covers(was, EntryAt(rela, i), bias, a);
      assert ShowsValue(was, now, EntryAt(rela, i), bias, a);
    }
  }

  lemma RangeStaysMapped(was: View, now: View, rela: nat, n: nat, bias: u64, a: nat)
    requires Shown(was, now, rela, n, bias)
    ensures MappedIn(now, a, 8) <==> MappedIn(was, a, 8)
  {
    hide Shown;
    if a + 8 <= USER_TOP {
      forall b: nat | a <= b < a + 8
        ensures now(b).Mapped? <==> was(b).Mapped?
      {
        StaysMapped(was, now, rela, n, bias, b);
      }
    }
  }

  lemma TargetShown(was: View, now: View, at: nat, bias: u64)
    requires Readable(was, at) && MappedIn(now, TargetAt(was, at, bias), 8)
    requires MappedIn(was, TargetAt(was, at, bias), 8)
    requires forall a: nat :: a < USER_TOP ==> ShowsValue(was, now, at, bias, a)
    ensures WordIn(now, TargetAt(was, at, bias)) == Some(ValueAt(was, at, bias))
  {
    hide WordIn, WordOf, Word;
    var target, value := TargetAt(was, at, bias), ValueAt(was, at, bias);
    forall i | 0 <= i < 8
      ensures BytesIn(now, target, 8)[i] == Word(value)[i]
    {
      assert ShowsValue(was, now, at, bias, target + i);
    }
    assert BytesIn(now, target, 8) == Word(value);
    WordRoundTrip(value);
    WordInIs(now, target);
  }

  lemma WordInIs(view: View, a: nat)
    requires MappedIn(view, a, 8)
    ensures WordIn(view, a) == Some(WordOf(BytesIn(view, a, 8)))
  {
  }

  /**
   The word at the address an entry names, moved by the base, is the base plus the third word
   of the entry, modulo 2^64.
   */
  ghost predicate Relocates(was: View, now: View, e: nat, bias: u64) {
    && WordIn(was, e).Some? && WordIn(was, e + 8) == Some(8) && WordIn(was, e + 16).Some?
    && WordIn(now, WordIn(was, e).value + bias) ==
       Some((bias + WordIn(was, e + 16).value) % 0x1_0000_0000_0000_0000)
  }

  /** With targets apart, entry `k` of the table has been applied as the image before says. */
  lemma WordRelocated(view: View, rela: nat, n: nat, bias: u64, segs: seq<Segment>, k: nat)
    requires AllRelocatable(view, rela, n, bias, segs) && Apart(view, rela, n, bias) && k < n
    ensures Relocates(view, AfterFirst(view, rela, n, bias), rela + 24 * k, bias)
    ensures InWritable(segs, bias, WordIn(view, rela + 24 * k).value + bias, 8)
  {
    hide WordIn, Apart, InWritable, Apply, Shown, AfterFirst, Word, WordOf, MappedIn;
    var now := AfterFirst(view, rela, n, bias);
    StepsShow(view, rela, n, bias, segs, n);
    var at, before := EntryAt(rela, k), AfterFirst(view, rela, k, bias);
    StepsShow(view, rela, n, bias, segs, k);
    assert Relocatable(before, at, bias, segs);
    EntryKept(view, before, rela, k, n, bias);
    RangeStaysMapped(view, before, rela, k, bias, TargetAt(view, at, bias));
    RangeStaysMapped(view, now, rela, n, bias, TargetAt(view, at, bias));
    ShownAll(view, now, rela, n, bias, k);
    TargetShown(view, now, at, bias);
  }

  lemma ShownAll(was: View, now: View, rela: nat, n: nat, bias: u64, k: nat)
    requires Shown(was, now, rela, n, bias) && k < n
    ensures forall a: nat :: a < USER_TOP ==> ShowsValue(was, now, EntryAt(rela, k), bias, a)
  {
    hide ShowsValue;
  }

  /* ----- Which tables can be applied ----- */

  /** Eight bytes at `t` lie in one writable segment. */
  predicate WordWritable(segs: seq<Segment>, bias: u64, t: nat) {
    exists i :: 0 <= i < |segs| && segs[i].writable
                && segs[i].vaddr + bias <= t && t + 8 <= segs[i].vaddr + bias + segs[i].memsz
  }

  /** An entry of type 8 and no symbol, for eight bytes of a writable segment. */
  predicate Applicable(view: View, e: nat, bias: u64, segs: seq<Segment>) {
    && WordIn(view, e).Some? && WordIn(view, e + 8) == Some(8) && WordIn(view, e + 16).Some?
    && WordWritable(segs, bias, WordIn(view, e).value + bias)
  }

  /** Every byte of every segment is mapped. */
  ghost predicate SegmentsMapped(view: View, bias: u64, segs: seq<Segment>) {
    forall i, a: nat :: 0 <= i < |segs| && Contains(segs[i], bias, a) ==> view(a).Mapped?
  }

  lemma RelocatableIs(view: View, e: nat, bias: u64, segs: seq<Segment>, fileSize: nat)
    requires AllOk(segs, bias, fileSize) && SegmentsMapped(view, bias, segs)
    ensures Relocatable(view, e, bias, segs) <==> Applicable(view, e, bias, segs)
  {
    hide WordIn;
    if Applicable(view, e, bias, segs) {
      var t := WordIn(view, e).value + bias;
      var i :| 0 <= i < |segs| && segs[i].writable
               && segs[i].vaddr + bias <= t && t + 8 <= segs[i].vaddr + bias + segs[i].memsz;
      assert SegmentOk(segs[i], bias, fileSize);
      assert forall b: nat :: t <= b < t + 8 ==> Contains(segs[i], bias, b);
    }
  }

  /** With targets apart, whether the table can be applied shows in the image before. */
  lemma {:induction false} AllRelocatableIs(view: View, rela: nat, n: nat, bias: u64, segs: seq<Segment>)
    requires Apart(view, rela, n, bias)
    ensures AllRelocatable(view, rela, n, bias, segs) <==>
            forall k: nat :: k < n ==> Relocatable(view, EntryAt(rela, k), bias, segs)
  {
    hide WordIn, Relocatable, Shown, AfterFirst;
    if n > 0 {
      AllRelocatableIs(view, rela, n - 1, bias, segs);
      if AllRelocatable(view, rela, n - 1, bias, segs) {
        var before := AfterFirst(view, rela, n - 1, bias);
        StepsShow(view, rela, n - 1, bias, segs, n - 1);
        EntryKept(view, before, rela, n - 1, n, bias);
        SameRelocatable(view, before, rela, n - 1, bias, segs);
      }
    }
  }

  lemma SameRelocatable(was: View, now: View, rela: nat, k: nat, bias: u64, segs: seq<Segment>)
    requires Shown(was, now, rela, k, bias)
    requires var at := EntryAt(rela, k);
             && WordIn(now, at) == WordIn(was, at) && WordIn(now, at + 8) == WordIn(was, at + 8)
             && WordIn(now, at + 16) == WordIn(was, at + 16)
    ensures Relocatable(now, EntryAt(rela, k), bias, segs) <==> Relocatable(was, EntryAt(rela, k), bias, segs)
  {
    hide WordIn, Shown, MappedIn, InWritable;
    if Readable(was, EntryAt(rela, k)) {
      RangeStaysMapped(was, now, rela, k, bias, TargetAt(was, EntryAt(rela, k), bias));
    }
  }

  /* ----- What the dynamic table says ----- */

  /** `list` is the tags and values of the dynamic table at `pos`, up to the terminator. */
  ghost predicate Lists(view: View, pos: nat, end: nat, list: seq<(u64, u64)>) {
    && pos + 16 * |list| + 16 <= end
    && (forall i :: 0 <= i < |list| ==> list[i].0 != 0 && Says(view, pos + 16 * i, list[i]))
    && WordIn(view, pos + 16 * |list|) == Some(0) && WordIn(view, pos + 16 * |list| + 8).Some?
  }

  predicate Says(view: View, at: nat, entry: (u64, u64)) {
    WordIn(view, at) == Some(entry.0) && WordIn(view, at + 8) == Some(entry.1)
  }

  /** The last value with a tag, or `other` if there is none. */
  function LastValue(list: seq<(u64, u64)>, tag: nat, other: u64): u64 {
    if list == [] then other
    else if list[|list| - 1].0 == tag then list[|list| - 1].1
    else LastValue(list[..|list| - 1], tag, other)
  }

  predicate Has(list: seq<(u64, u64)>, tag: nat) {
    exists i :: 0 <= i < |list| && list[i].0 == tag
  }

  /** Nothing that only a dynamic linker could do is asked for. */
  predicate Allowed(list: seq<(u64, u64)>) {
    forall i :: 0 <= i < |list| ==> list[i].0 !in {1, 2, 17, 18, 20, 22, 23}
  }

  /** What the list says of the relocation table: where it is (7), its size (8) and the size of an entry (9). */
  function Tells(info: Info, list: seq<(u64, u64)>): Info {
    Info(LastValue(list, 7, info.rela), LastValue(list, 8, info.relaSize), LastValue(list, 9, info.relaEntry),
         info.hasRela || Has(list, 7), info.hasRelaSize || Has(list, 8))
  }

  lemma {:induction false} LastValueFront(e: (u64, u64), rest: seq<(u64, u64)>, tag: nat, other: u64)
    ensures LastValue([e] + rest, tag, other) == LastValue(rest, tag, if e.0 == tag then e.1 else other)
    decreases |rest|
  {
    var all := [e] + rest;
    if rest == [] {
      assert all[..0] == [];
    } else {
      assert all[..|all| - 1] == [e] + rest[..|rest| - 1];
      LastValueFront(e, rest[..|rest| - 1], tag, other);
    }
  }

  lemma TellsFront(info: Info, e: (u64, u64), rest: seq<(u64, u64)>)
    ensures Tells(info, [e] + rest) == Tells(Update(info, e.0, e.1), rest)
    ensures Allowed([e] + rest) <==> !Refused(e.0) && Allowed(rest)
  {
    LastValueFront(e, rest, 7, info.rela);
    LastValueFront(e, rest, 8, info.relaSize);
    LastValueFront(e, rest, 9, info.relaEntry);
    var all := [e] + rest;
    assert all[0] == e && forall i :: 0 <= i < |rest| ==> all[i + 1] == rest[i];
  }

  lemma {:induction false} ScanGoes(view: View, pos: nat, end: nat, info: Info, list: seq<(u64, u64)>)
    requires Lists(view, pos, end, list)
    ensures Scan(view, pos, end, info) == if Allowed(list) then Some(Tells(info, list)) else None
    decreases |list|
  {
    hide WordIn, Tells, Allowed, Update, Refused;
    if list == [] {
      NothingTold(info);
    } else {
      var e, rest := list[0], list[1..];
      assert list == [e] + rest && Says(view, pos + 16 * 0, e);
      ListsRest(view, pos, end, list);
      ScanGoes(view, pos + 16, end, Update(info, e.0, e.1), rest);
      TellsFront(info, e, rest);
    }
  }

  lemma ListsRest(view: View, pos: nat, end: nat, list: seq<(u64, u64)>)
    requires Lists(view, pos, end, list) && list != []
    ensures Lists(view, pos + 16, end, list[1..])
  {
    hide WordIn;
    forall i | 0 <= i < |list[1..]|
      ensures Says(view, pos + 16 + 16 * i, list[1..][i])
    {
      assert Says(view, pos + 16 * (i + 1), list[i + 1]);
    }
  }

  lemma NothingTold(info: Info)
    ensures Tells(info, []) == info && Allowed([])
  {
  }

  lemma {:induction false} ScanFinds(view: View, pos: nat, end: nat, info: Info) returns (list: seq<(u64, u64)>)
    requires Scan(view, pos, end, info).Some?
    ensures Lists(view, pos, end, list)
    decreases end - pos
  {
    hide WordIn, Update, Refused;
    var tag, value := WordIn(view, pos).value, WordIn(view, pos + 8).value;
    if tag == 0 {
      list := [];
    } else {
      var rest := ScanFinds(view, pos + 16, end, Update(info, tag, value));
      list := [(tag, value)] + rest;
      forall i | 0 <= i < |list|
        ensures list[i].0 != 0 && Says(view, pos + 16 * i, list[i])
      {
        if i > 0 {
          assert list[i] == rest[i - 1] && Says(view, pos + 16 + 16 * (i - 1), rest[i - 1]);
        }
      }
    }
  }

  /** The relocation table that may be named: by both entries or none, whole entries of 24 bytes, in user space. */
  predicate Usable(list: seq<(u64, u64)>, bias: u64) {
    var rela, size := LastValue(list, 7, 0), LastValue(list, 8, 0);
    && Allowed(list) && (Has(list, 7) <==> Has(list, 8)) && LastValue(list, 9, 24) == 24
    && (Has(list, 7) && size != 0 ==>
          && size % 24 == 0 && rela + bias < 0x1_0000_0000_0000_0000
          && size <= (0x8000_0000_0000 - (rela + bias)) % 0x1_0000_0000_0000_0000)
  }

  /** Which dynamic tables are accepted, and what they say. */
  lemma TableIs(view: View, vaddr: u64, memsz: u64, bias: u64)
    ensures TableOk(view, vaddr, memsz, bias) <==>
            && memsz >= 16 && vaddr + bias + memsz <= 0x8000_0000_0000
            && exists list :: Lists(view, vaddr + bias, vaddr + bias + memsz, list) && Usable(list, bias)
  {
    hide WordIn, Scan, Lists, Allowed, LastValue;
    var pos, end := vaddr + bias, vaddr + bias + memsz;
    forall list | Lists(view, pos, end, list)
      ensures Scan(view, pos, end, NOTHING) == if Allowed(list) then Some(Tells(NOTHING, list)) else None
    {
      ScanGoes(view, pos, end, NOTHING, list);
    }
    if TableOk(view, vaddr, memsz, bias) {
      var list := ScanFinds(view, pos, end, NOTHING);
      assert Lists(view, pos, end, list) && Usable(list, bias);
    } else if list :| Lists(view, pos, end, list) && Usable(list, bias) {
      assert Scan(view, pos, end, NOTHING) == Some(Tells(NOTHING, list));
    }
  }

  /** The entries an accepted table names: none, or those of tags 7 and 8. */
  lemma TableNames(view: View, vaddr: u64, memsz: u64, bias: u64, list: seq<(u64, u64)>)
    requires Lists(view, vaddr + bias, vaddr + bias + memsz, list) && Usable(list, bias)
    ensures var info := TableOf(view, vaddr, memsz, bias);
            info.rela == LastValue(list, 7, 0) && 24 * EntriesOf(info) == LastValue(list, 8, 0)
  {
    hide WordIn, Scan, Lists, Allowed;
    ScanGoes(view, vaddr + bias, vaddr + bias + memsz, NOTHING, list);
    NoValue(list, 8, 0);
  }

  lemma {:induction false} NoValue(list: seq<(u64, u64)>, tag: nat, other: u64)
    ensures !Has(list, tag) ==> LastValue(list, tag, other) == other
    decreases |list|
  {
    if list != [] && !Has(list, tag) {
      NoValue(list[..|list| - 1], tag, other);
    }
  }
}
