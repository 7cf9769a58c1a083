/** `load_elf64` as a whole, and its image at two load biases. */
module DynLoader {
  import opened Bytes
  import opened DynRelocs
  import opened DynLink

  /* ----- The relocation tables ----- */

  function Entries(at: nat, n: nat): (r: seq<nat>)
    ensures |r| == n && forall i :: 0 <= i < n ==> r[i] == at + i * RELA_SIZE
  {
    seq(n, i requires 0 <= i < n => at + i * RELA_SIZE)
  }

  /** The error `apply_relocations` returns before it reads an entry, if any. */
  function TableCode(base: u64, span: nat, d: Dynamic, address: u64, size: u64): int {
    if size == 0 then OK
    else if size % RELA_SIZE != 0 || d.symtab.None? || d.syment != Some(SYMBOL_SIZE)
            || d.strtab.None? || d.strsz.None? then
      INVALID_DYNAMIC_TABLE
    else if !InImage(address, size, base, span) then INVALID_DYNAMIC_TABLE
    else OK
  }

  function TableEntries(base: u64, span: nat, d: Dynamic, address: u64, size: u64): (r: seq<nat>)
    ensures forall i :: 0 <= i < |r| ==> r[i] + RELA_SIZE <= span
  {
    if size == 0 || TableCode(base, span, d, address, size) != OK then []
    else
      LastEntry(address - base, size / RELA_SIZE, size);
      Entries(address - base, size / RELA_SIZE)
  }

  lemma LastEntry(at: nat, n: nat, size: nat)
    requires n * RELA_SIZE <= size
    ensures forall i :: 0 <= i < n ==> Entries(at, n)[i] + RELA_SIZE <= at + size
  {
  }

  function OrZero(x: Option<u64>): u64 {
    if x.Some? then x.value else 0
  }

  function ContextOf(base: u64, span: nat, d: Dynamic, resolve: Str -> Option<u64>): Context {
    Context(base, span, OrZero(d.symtab), OrZero(d.strtab), OrZero(d.strsz), resolve)
  }

  /** `apply_relocations`. */
  function ApplyTable(mem: seq<byte>, base: u64, span: nat, d: Dynamic, resolve: Str -> Option<u64>, bias: u64,
                      address: u64, size: u64): (p: Progress)
    requires span <= |mem|
    ensures |p.mem| == |mem|
  {
    var p := Relocate(mem, ContextOf(base, span, d, resolve), bias, TableEntries(base, span, d, address, size));
    if TableCode(base, span, d, address, size) != OK then p.(code := TableCode(base, span, d, address, size)) else p
  }

  /* ----- The whole load ----- */

  /** What `load_elf64` returns and leaves in memory; `entry` and `size` are written on success only. */
  datatype Loaded = Loaded(code: int, mem: seq<byte>, entry: u64, size: nat)

  predicate PltUnsupported(d: Dynamic) {
    d.jmprel.None? || d.pltrel != Some(DT_RELA)
  }

  function Finish(i: Image, resolve: Str -> Option<u64>, bias: u64): (r: Loaded)
    requires i.Image? && i.span <= |i.mem|
    ensures |r.mem| == |i.mem| && (r.code != OK ==> r.entry == r.size == 0)
  {
    var d := i.dynamic;
    var p := ApplyTable(i.mem, i.base, i.span, d, resolve, bias, OrZero(d.rela), OrZero(d.relasz));
    if p.code != OK then Loaded(p.code, p.mem, 0, 0)
    else if OrZero(d.pltrelsz) != 0 && PltUnsupported(d) then Loaded(UNSUPPORTED, p.mem, 0, 0)
    else
      var q := ApplyTable(p.mem, i.base, i.span, d, resolve, bias, OrZero(d.jmprel), OrZero(d.pltrelsz));
      if q.code != OK then Loaded(q.code, q.mem, 0, 0)
      else if !InImage(i.entry, 1, i.base, i.span) then Loaded(INVALID_ELF, q.mem, 0, 0)
      else Loaded(OK, q.mem, (bias + i.entry) % U64, i.span)
  }

  /** `load_elf64`. */
  ghost function Load(file: seq<byte>, mem: seq<byte>, load: Str -> bool, resolve: Str -> Option<u64>,
                      bias: u64): (r: Loaded)
    ensures |r.mem| == |mem| && (r.code != OK ==> r.entry == r.size == 0)
  {
    var i := Prepare(file, mem, load);
    if i.Refused? then Loaded(i.code, i.mem, 0, 0) else Finish(i, resolve, bias)
  }

  /* ----- Two biases ----- */

  /** The entries of both tables, as far as the checks let the linker go. */
  function AllEntries(i: Image): (r: seq<nat>)
    requires i.Image?
    ensures forall k :: 0 <= k < |r| ==> r[k] + RELA_SIZE <= i.span
  {
    var d := i.dynamic;
    TableEntries(i.base, i.span, d, OrZero(d.rela), OrZero(d.relasz)) +
    if TableCode(i.base, i.span, d, OrZero(d.rela), OrZero(d.relasz)) != OK || PltUnsupported(d) then []
    else TableEntries(i.base, i.span, d, OrZero(d.jmprel), OrZero(d.pltrelsz))
  }

  /** The error no bias changes, once every relocation is applied. */
  function RestCode(i: Image): int
    requires i.Image?
  {
    var d := i.dynamic;
    var first := TableCode(i.base, i.span, d, OrZero(d.rela), OrZero(d.relasz));
    var second := TableCode(i.base, i.span, d, OrZero(d.jmprel), OrZero(d.pltrelsz));
    if first != OK then first
    else if OrZero(d.pltrelsz) != 0 && PltUnsupported(d) then UNSUPPORTED
    else if second != OK then second
    else if !InImage(i.entry, 1, i.base, i.span) then INVALID_ELF
    else OK
  }

  /** The two tables are one run of relocations. */
  lemma FinishIs(i: Image, resolve: Str -> Option<u64>, bias: u64)
    requires i.Image? && i.span <= |i.mem|
    ensures var p := Relocate(i.mem, ContextOf(i.base, i.span, i.dynamic, resolve), bias, AllEntries(i));
            var r := Finish(i, resolve, bias);
            && r.mem == p.mem && r.code == (if p.code != OK then p.code else RestCode(i))
            && (r.code == OK ==> r.entry == (bias + i.entry) % U64 && r.size == i.span)
            && (r.code != OK ==> r.size == 0)
  {
    hide Relocate, InImage;
    var d, c := i.dynamic, ContextOf(i.base, i.span, i.dynamic, resolve);
    var one := TableEntries(i.base, i.span, d, OrZero(d.rela), OrZero(d.relasz));
    var two := TableEntries(i.base, i.span, d, OrZero(d.jmprel), OrZero(d.pltrelsz));
    RelocateAppend(i.mem, c, bias, one, two);
    RelocateAppend(i.mem, c, bias, one, []);
    assert one + [] == one;
    var p := Relocate(i.mem, c, bias, one);
    RelocateNone(i.mem, c, bias);
    RelocateNone(p.mem, c, bias);
  }

  lemma RelocateNone(mem: seq<byte>, c: Context, bias: u64)
    requires c.span <= |mem|
    ensures Relocate(mem, c, bias, []) == Progress(mem, 0, OK)
  {
  }

  /**
   Rebasing. Where no target overlaps a later target or what a later relocation reads, the
   same file at two load biases gives the same result, and images that differ only at
   RELATIVE targets and targets of defined symbols that are not absolute, each by exactly
   the difference of the biases modulo 2^64.
   */
  lemma LoadRebased(file: seq<byte>, mem: seq<byte>, load: Str -> bool, resolve: Str -> Option<u64>, b: u64, b': u64)
    requires var i := Prepare(file, mem, load);
             i.Image? ==> Separate(i.mem, ContextOf(i.base, i.span, i.dynamic, resolve), AllEntries(i))
    ensures var r, r' := Load(file, mem, load, resolve, b), Load(file, mem, load, resolve, b');
            && r'.code == r.code && r'.size == r.size
            && (r.code == OK ==> r'.entry == (r.entry + b' - b) % U64)
    ensures var i := Prepare(file, mem, load);
            var r, r' := Load(file, mem, load, resolve, b), Load(file, mem, load, resolve, b');
            if i.Refused? then r' == r
            else var c := ContextOf(i.base, i.span, i.dynamic, resolve);
            exists n: nat :: n <= |AllEntries(i)| && (r.code == OK ==> n == |AllEntries(i)|) &&
              Rebased(i.mem, c, b, b', AllEntries(i)[..n], Progress(r.mem, n, r.code), Progress(r'.mem, n, r.code))
  {
    hide Prepare, Finish, Relocate, Rebased, Separate, AllEntries, RestCode;
    var i := Prepare(file, mem, load);
    if i.Image? {
      var c, ats := ContextOf(i.base, i.span, i.dynamic, resolve), AllEntries(i);
      var p, p' := Relocate(i.mem, c, b, ats), Relocate(i.mem, c, b', ats);
      FinishIs(i, resolve, b);
      FinishIs(i, resolve, b');
      Rebase(i.mem, c, b, b', ats);
      AllApplied(i.mem, c, b, ats);
      RebasedPrefix(i.mem, c, b, b', ats, p, p', Finish(i, resolve, b).code);
      Shift(b, b', i.entry);
    }
  }

  lemma AllApplied(mem: seq<byte>, c: Context, bias: u64, ats: seq<nat>)
    requires c.span <= |mem| && (forall i :: 0 <= i < |ats| ==> ats[i] + RELA_SIZE <= |mem|) && Separate(mem, c, ats)
    ensures var p := Relocate(mem, c, bias, ats); p.code == OK ==> p.applied == |ats|
  {
    hide Relocate, Separate, Stored, OnlyTargets, Relocation;
    RelocatePlaces(mem, c, bias, ats);
  }

  lemma RebasedPrefix(mem: seq<byte>, c: Context, b: u64, b': u64, ats: seq<nat>, p: Progress, p': Progress, code: int)
    requires c.span <= |mem| == |p.mem| == |p'.mem| && forall i :: 0 <= i < |ats| ==> ats[i] + RELA_SIZE <= |mem|
    requires Rebased(mem, c, b, b', ats, p, p')
    ensures p'.code == p.code && p.applied <= |ats|
    ensures Rebased(mem, c, b, b', ats[..p.applied], Progress(p.mem, p.applied, code),
              Progress(p'.mem, p.applied, code))
  {
    hide WordRebased, Follows, Covers;
    var done := ats[..p.applied];
    forall q | 0 <= q < |mem| && p'.mem[q] != p.mem[q]
      ensures exists i :: 0 <= i < p.applied && Follows(mem, c, done[i]) && Covers(mem, c, done[i], q)
    {
      var i :| 0 <= i < p.applied && Follows(mem, c, ats[i]) && Covers(mem, c, ats[i], q);
      assert done[i] == ats[i];
    }
  }

  /* ----- The image in closed form ----- */

  /** Segment `i - 1` is the last that brings a byte to `q`; with `i == 0` none does. */
  ghost predicate LastBrings(file: seq<byte>, phoff: nat, n: nat, base: u64, q: nat, i: nat)
    requires HasPrograms(file, phoff, n)
  {
    && i <= n && (forall j: nat :: i <= j < n ==> !Brings(ProgramAt(file, phoff, j), base, q))
    && (i > 0 ==> Brings(ProgramAt(file, phoff, i - 1), base, q))
  }

  /** Byte `b` at `q` is the file's, zero where no segment brings one, and what memory held behind the image. */
  ghost predicate ShowsFile(file: seq<byte>, mem: seq<byte>, i: Image, q: nat, b: byte)
    requires i.Image? && q < |mem|
  {
    && |file| >= EHDR_SIZE && HasPrograms(file, ReadWord(file, 32), Read(file, 56, 2))
    && exists k: nat :: LastBrings(file, ReadWord(file, 32), Read(file, 56, 2), i.base, q, k) &&
         if k == 0 then b == (if q < i.span then 0 else mem[q])
         else IsFileByte(file, ProgramAt(file, ReadWord(file, 32), k - 1), i.base, q, b)
  }

  lemma {:induction false} LastExists(file: seq<byte>, phoff: nat, n: nat, base: u64, q: nat, k: nat) returns (i: nat)
    requires HasPrograms(file, phoff, n) && k <= n
    requires forall j: nat :: k <= j < n ==> !Brings(ProgramAt(file, phoff, j), base, q)
    ensures LastBrings(file, phoff, n, base, q, i)
    decreases k
  {
    hide ProgramAt, Brings;
    if k == 0 || Brings(ProgramAt(file, phoff, k - 1), base, q) {
      return k;
    }
    i := LastExists(file, phoff, n, base, q, k - 1);
  }

  lemma PreparedByte(file: seq<byte>, mem: seq<byte>, load: Str -> bool, q: nat)
    requires Prepare(file, mem, load).Image? && q < |mem|
    ensures ShowsFile(file, mem, Prepare(file, mem, load), q, Prepare(file, mem, load).mem[q])
  {
    hide ReadWord, Read, ScanDynamic, DynamicCode, ProgramAt, Copied, ScanPrograms, AllFit, IsFileByte, Brings, InImage;
    var i, phoff, n := Prepare(file, mem, load), ReadWord(file, 32), Read(file, 56, 2);
    HeaderFacts(file);
    var e := ScanPrograms(file, phoff, n).value;
    HeaderAllFits(file, e);
    MoreRoom(file, phoff, n, e.base, e.end - e.base, |mem|);
    var blank := Splice(mem, 0, Zeros(e.end - e.base));
    assert i.mem == Copied(blank, file, phoff, n, e.base);
    var k := LastExists(file, phoff, n, e.base, q, n);
    CopiedByte(blank, file, phoff, n, e.base, q, k);
  }

  lemma HeaderFacts(file: seq<byte>)
    requires HeaderCode(file) == OK
    ensures |file| >= EHDR_SIZE && HasPrograms(file, ReadWord(file, 32), Read(file, 56, 2))
    ensures var e := ScanPrograms(file, ReadWord(file, 32), Read(file, 56, 2)); e.Some? && e.value.base < e.value.end
  {
    hide ReadWord, Read, ScanPrograms, HasPrograms, WellFormed;
  }

  /**
   What a load leaves in memory. Where no target overlaps a later target or what a later
   relocation reads, the first `n` entries have stored the values they have in the image
   before any relocation, and every byte off their targets is that of the last segment
   bringing one, or zero; the load stops at an entry that is bad in that image, or has
   applied every entry of both tables.
   */
  lemma LoadedEntries(file: seq<byte>, mem: seq<byte>, load: Str -> bool, resolve: Str -> Option<u64>, bias: u64)
    returns (n: nat)
    requires var i := Prepare(file, mem, load);
             i.Image? && Separate(i.mem, ContextOf(i.base, i.span, i.dynamic, resolve), AllEntries(i))
    ensures var i, r := Prepare(file, mem, load), Load(file, mem, load, resolve, bias);
            var c, ats := ContextOf(i.base, i.span, i.dynamic, resolve), AllEntries(i);
            && n <= |ats| && (n == |ats| ==> r.code == RestCode(i))
            && (n < |ats| ==> r.code != OK && Relocation(i.mem, c, bias, ats[n]) == Bad(r.code))
            && (forall k :: 0 <= k < n ==> Stored(i.mem, c, bias, ats[k], r.mem))
            && (forall q: nat :: q < |mem| && OffTargets(i.mem, c, ats[..n], q) ==>
                  ShowsFile(file, mem, i, q, r.mem[q]))
            && (r.code == OK ==> r.entry == (bias + i.entry) % U64 && r.size == i.span)
  {
    hide Prepare, Finish, Relocate, Separate, AllEntries, RestCode, Stored, ShowsFile, Covers, Relocation;
    var i := Prepare(file, mem, load);
    var c, ats := ContextOf(i.base, i.span, i.dynamic, resolve), AllEntries(i);
    var p, r := Relocate(i.mem, c, bias, ats), Load(file, mem, load, resolve, bias);
    FinishIs(i, resolve, bias);
    RelocatePlaces(i.mem, c, bias, ats);
    n := p.applied;
    forall q: nat | q < |mem| && OffTargets(i.mem, c, ats[..n], q)
      ensures ShowsFile(file, mem, i, q, r.mem[q])
    {
      PreparedByte(file, mem, load, q);
    }
  }

  /** No entry at `ats` aims at byte `q`. */
  ghost predicate OffTargets(mem: seq<byte>, c: Context, ats: seq<nat>, q: nat)
    requires forall k :: 0 <= k < |ats| ==> ats[k] + RELA_SIZE <= |mem|
  {
    forall k :: 0 <= k < |ats| ==> !Covers(mem, c, ats[k], q)
  }

  /* ----- The loader's own steps ----- */

  /** `memcpy` into the image. */
  method StoreBytes(image: array<byte>, at: nat, data: seq<byte>)
    requires at + |data| <= image.Length
    modifies image
    ensures image[..] == Splice(old(image[..]), at, data)
  {
    forall i | 0 <= i < |data| {
      image[at + i] := data[i];
    }
  }

  /** The scan of `bounded_string`. */
  method FindString(strings: seq<byte>, offset: nat) returns (r: Option<Str>)
    ensures r == BoundedString(strings, offset)
  {
    if offset >= |strings| {
      return None;
    }
    var i := offset;
    while i < |strings|
      invariant offset <= i <= |strings| && forall j :: offset <= j < i ==> strings[j] != 0
    {
      if strings[i] == 0 {
        ghost var s := BoundedString(strings, offset);
        assert s.Some?;
        FirstZero(strings, offset, i, s.value);
        return Some(strings[offset..i]);
      }
      i := i + 1;
    }
    return None;
  }

  lemma FirstZero(strings: seq<byte>, offset: nat, i: nat, name: Str)
    requires offset <= i < |strings| && strings[i] == 0 && forall j :: offset <= j < i ==> strings[j] != 0
    requires offset + |name| < |strings| && strings[offset + |name|] == 0 && strings[offset..offset + |name|] == name
    ensures name == strings[offset..i]
  {
    assert forall j :: 0 <= j < |name| ==> name[j] in name && strings[offset + j] == name[j];
  }

  /** The first loop over the program headers. */
  method ReadPrograms(file: seq<byte>, phoff: nat, phnum: nat) returns (r: Option<Extent>)
    requires HasPrograms(file, phoff, phnum)
    ensures r == ScanPrograms(file, phoff, phnum)
  {
    hide ProgramAt, Widen;
    var e := Extent(U64 - 1, 0, 0, 0, false);
    for i := 0 to phnum
      invariant ScanPrograms(file, phoff, i) == Some(e)
    {
      var p := ProgramAt(file, phoff, i);
      var w := Widen(e, p, |file|);
      if w.None? {
        RefusedStays(file, phoff, i + 1, phnum);
        return None;
      }
      e := w.value;
    }
    return Some(e);
  }

  lemma {:induction false} RefusedStays(file: seq<byte>, phoff: nat, i: nat, n: nat)
    requires HasPrograms(file, phoff, n) && i <= n && ScanPrograms(file, phoff, i).None?
    ensures ScanPrograms(file, phoff, n).None?
    decreases n
  {
    hide ProgramAt, Widen;
    if i < n {
      RefusedStays(file, phoff, i, n - 1);
    }
  }

  lemma FitPrefix(file: seq<byte>, phoff: nat, i: nat, n: nat, base: u64, room: nat)
    requires HasPrograms(file, phoff, n) && AllFit(file, phoff, n, base, room) && i <= n
    ensures HasPrograms(file, phoff, i) && AllFit(file, phoff, i, base, room)
  {
    hide ProgramAt, FitsAt;
  }

  /** The second loop over the program headers: its range check never fails. */
  method CopySegments(file: seq<byte>, phoff: nat, phnum: nat, image: array<byte>, base: u64, span: nat)
    returns (ok: bool)
    requires HasPrograms(file, phoff, phnum) && AllFit(file, phoff, phnum, base, span) && span <= image.Length
    requires AllFit(file, phoff, phnum, base, image.Length)
    modifies image
    ensures ok && image[..] == Copied(old(image[..]), file, phoff, phnum, base)
  {
    hide ProgramAt, Acceptable, AllFit;
    ghost var before := image[..];
    FitPrefix(file, phoff, 0, phnum, base, |before|);
    for i := 0 to phnum
      invariant AllFit(file, phoff, i, base, |before|) && image[..] == Copied(before, file, phoff, i, base)
    {
      var p := ProgramAt(file, phoff, i);
      FitPrefix(file, phoff, i + 1, phnum, base, |before|);
      FitPrefix(file, phoff, i, phnum, base, |before|);
      OneFits(file, phoff, i, phnum, base, span);
      AcceptedInFile(p, |file|);
      if p.kind != PT_LOAD || p.memsz == 0 {
        continue;
      }
      if !InImage(p.vaddr, p.memsz, base, span) {
        return false;
      }
      StoreBytes(image, p.vaddr - base, file[p.offset..p.offset + p.filesz]);
    }
    return true;
  }

  lemma OneFits(file: seq<byte>, phoff: nat, i: nat, n: nat, base: u64, room: nat)
    requires HasPrograms(file, phoff, n) && AllFit(file, phoff, n, base, room) && i < n
    ensures HasPrograms(file, phoff, i + 1) && FitsAt(ProgramAt(file, phoff, i), |file|, base, room)
  {
    hide FitsAt;
  }

  /** The loop over the dynamic table. */
  method ReadDynamic(image: array<byte>, pos: nat, size: nat) returns (r: Option<Dynamic>)
    requires pos + size <= image.Length
    ensures r == ScanDynamic(image[..], pos, pos + size, NO_DYNAMIC)
  {
    hide ReadWord, Update;
    var d := NO_DYNAMIC;
    var cursor := 0;
    while cursor + DYN_SIZE <= size
      invariant ScanDynamic(image[..], pos, pos + size, NO_DYNAMIC) ==
                ScanDynamic(image[..], pos + cursor, pos + size, d)
      decreases size - cursor
    {
      var tag := ReadWord(image[..], pos + cursor);
      if tag == DT_NULL {
        return Some(d);
      }
      d := Update(d, tag, ReadWord(image[..], pos + cursor + 8));
      cursor := cursor + DYN_SIZE;
    }
    return None;
  }

  /** The loops that ask for the dependencies. */
  method AskDependencies(image: array<byte>, pos: nat, size: nat, strings: Option<seq<byte>>, load: Str -> bool)
    returns (code: int)
    requires pos + size <= image.Length
    ensures code == Needed(image[..], pos, pos + size, strings, load)
  {
    hide ReadWord, BoundedString;
    var cursor := 0;
    while cursor + DYN_SIZE <= size
      invariant Needed(image[..], pos, pos + size, strings, load) ==
                Needed(image[..], pos + cursor, pos + size, strings, load)
      decreases size - cursor
    {
      var tag := ReadWord(image[..], pos + cursor);
      if tag == DT_NULL {
        return OK;
      }
      if tag == DT_NEEDED {
        if strings.None? {
          return INVALID_DYNAMIC_TABLE;
        }
        var name := FindString(strings.value, ReadWord(image[..], pos + cursor + 8));
        if name.None? {
          return INVALID_DYNAMIC_TABLE;
        }
        if !load(name.value) {
          return DEPENDENCY_ERROR;
        }
      }
      cursor := cursor + DYN_SIZE;
    }
    return OK;
  }

  /** `apply_relocations`. */
  method ApplyRelocations(image: array<byte>, base: u64, span: nat, d: Dynamic, resolve: Str -> Option<u64>, bias: u64,
                          address: u64, size: u64) returns (code: int)
    requires span <= image.Length
    modifies image
    ensures var p := ApplyTable(old(image[..]), base, span, d, resolve, bias, address, size);
            code == p.code && image[..] == p.mem
  {
    hide Relocate, InImage;
    var c := ContextOf(base, span, d, resolve);
    RelocateNone(image[..], c, bias);
    code := TableCode(base, span, d, address, size);
    if size == 0 || code != OK {
      return;
    }
    assert InImage(address, size, base, span);
    StartOk(address, size, base, span);
    code := RelocateEntries(image, c, bias, address - base, size / RELA_SIZE);
  }

  lemma StartOk(address: u64, size: u64, base: u64, span: nat)
    requires InImage(address, size, base, span)
    ensures base <= address && address - base + size / RELA_SIZE * RELA_SIZE <= span
  {
  }

  /** The loop of `apply_relocations`. */
  method RelocateEntries(image: array<byte>, c: Context, bias: u64, at: nat, n: nat) returns (code: int)
    requires c.span <= image.Length && at + n * RELA_SIZE <= c.span
    modifies image
    ensures forall i :: 0 <= i < n ==> Entries(at, n)[i] + RELA_SIZE <= |old(image[..])|
    ensures var p := Relocate(old(image[..]), c, bias, Entries(at, n)); code == p.code && image[..] == p.mem
  {
    hide Relocation, Relocate, Entries, Splice, Word;
    ghost var before, ats := image[..], Entries(at, n);
    RelocateNone(before, c, bias);
    for i := 0 to n
      invariant Relocate(before, c, bias, ats[..i]) == Progress(image[..], i, OK)
    {
      RelocateNext(before, c, bias, ats, i);
      match Relocation(image[..], c, bias, at + i * RELA_SIZE)
      case Bad(error) =>
        StoppedStays(before, c, bias, ats, i + 1);
        return error;
      case Store(target, value) =>
        StoreBytes(image, target, Word(value));
    }
    assert ats[..n] == ats;
    return OK;
  }

  lemma RelocateNext(mem: seq<byte>, c: Context, bias: u64, ats: seq<nat>, i: nat)
    requires c.span <= |mem| && (forall k :: 0 <= k < |ats| ==> ats[k] + RELA_SIZE <= |mem|) && i < |ats|
    ensures Relocate(mem, c, bias, ats[..i + 1]) == Step(Relocate(mem, c, bias, ats[..i]), c, bias, ats[i])
  {
    hide Step;
    assert ats[..i + 1][..i] == ats[..i];
  }

  lemma {:induction false} StoppedStays(mem: seq<byte>, c: Context, bias: u64, ats: seq<nat>, i: nat)
    requires c.span <= |mem| && (forall k :: 0 <= k < |ats| ==> ats[k] + RELA_SIZE <= |mem|) && i <= |ats|
    requires Relocate(mem, c, bias, ats[..i]).code != OK
    ensures Relocate(mem, c, bias, ats) == Relocate(mem, c, bias, ats[..i])
    decreases |ats|
  {
    hide Relocation;
    if i == |ats| {
      assert ats[..i] == ats;
    } else {
      var init := ats[..|ats| - 1];
      assert init[..i] == ats[..i];
      StoppedStays(mem, c, bias, init, i);
    }
  }

  /** The checks on the headers. */
  method CheckHeaders(file: seq<byte>) returns (code: int, e: Extent)
    ensures code == HeaderCode(file)
    ensures code == OK ==>
              && |file| >= EHDR_SIZE && HasPrograms(file, ReadWord(file, 32), Read(file, 56, 2))
              && ScanPrograms(file, ReadWord(file, 32), Read(file, 56, 2)) == Some(e) && e.base < e.end
  {
    hide ReadWord, Read, ScanPrograms, WellFormed;
    e := Extent(U64 - 1, 0, 0, 0, false);
    if |file| < EHDR_SIZE {
      return INVALID_ARGUMENT, e;
    }
    if !WellFormed(file) {
      return INVALID_ELF, e;
    }
    if Read(file, 16, 2) != 3 || Read(file, 18, 2) != 62 {
      return UNSUPPORTED, e;
    }
    if !HasPrograms(file, ReadWord(file, 32), Read(file, 56, 2)) {
      return INVALID_ELF, e;
    }
    var scanned := ReadPrograms(file, ReadWord(file, 32), Read(file, 56, 2));
    if scanned.None? {
      return INVALID_ELF, e;
    }
    e := scanned.value;
    if e.base == U64 - 1 || e.end <= e.base || !e.hasDynamic {
      return INVALID_ELF, e;
    }
    return OK, e;
  }

  /** The checks on the dynamic table, once it has been read. */
  method CheckDynamic(image: array<byte>, pos: nat, size: nat, d: Dynamic, base: u64, span: nat, load: Str -> bool)
    returns (code: int)
    requires span <= image.Length && pos + size <= image.Length
    ensures code == DynamicCode(image[..], pos, pos + size, d, base, span, load)
  {
    hide Needed, InImage;
    if StringsOutside(d, base, span) {
      return INVALID_DYNAMIC_TABLE;
    }
    code := AskDependencies(image, pos, size, Strings(image[..], d, base, span), load);
    if code != OK {
      return;
    }
    if d.relsz != 0 {
      return UNSUPPORTED;
    }
    if d.relasz.Some? && d.relasz.value != 0 && (d.rela.None? || d.relaent != Some(RELA_SIZE)) {
      return INVALID_DYNAMIC_TABLE;
    }
  }

  /** Everything before the load bias is used. */
  method PrepareImage(file: seq<byte>, image: array<byte>, load: Str -> bool) returns (code: int, e: Extent, d: Dynamic)
    modifies image
    ensures var i := Prepare(file, old(image[..]), load);
            && image[..] == i.mem && (code == OK <==> i.Image?)
            && (i.Refused? ==> code == i.code)
            && (i.Image? ==>
                |file| >= EHDR_SIZE && e.base <= e.end
                && i == Image(image[..], e.base, e.end - e.base, d, ReadWord(file, 24)))
  {
    hide ReadWord, Read, ScanPrograms, Copied, HeaderCode, ScanDynamic, DynamicCode, AllFit, HasPrograms;
    d := NO_DYNAMIC;
    code, e := CheckHeaders(file);
    if code != OK {
      return;
    }
    var span := e.end - e.base;
    if span > image.Length {
      return INSUFFICIENT_MEMORY, e, d;
    }
    var phoff, phnum := ReadWord(file, 32), Read(file, 56, 2);
    HeaderAllFits(file, e);
    MoreRoom(file, phoff, phnum, e.base, span, image.Length);
    StoreBytes(image, 0, Zeros(span));
    var ok := CopySegments(file, phoff, phnum, image, e.base, span);
    if e.dynamicSize < DYN_SIZE || !InImage(e.dynamic, e.dynamicSize, e.base, span) {
      return INVALID_DYNAMIC_TABLE, e, d;
    }
    var pos := e.dynamic - e.base;
    var scanned := ReadDynamic(image, pos, e.dynamicSize);
    if scanned.None? {
      return INVALID_DYNAMIC_TABLE, e, d;
    }
    d := scanned.value;
    code := CheckDynamic(image, pos, e.dynamicSize, d, e.base, span, load);
  }

  /** `load_elf64`. */
  method LoadElf64(file: seq<byte>, image: array<byte>, load: Str -> bool, resolve: Str -> Option<u64>, bias: u64)
    returns (code: int, entry: u64, size: nat)
    requires image.Length + DYN_SIZE <= U64
    modifies image
    ensures Loaded(code, image[..], entry, size) == Load(file, old(image[..]), load, resolve, bias)
  {
    hide Prepare, ApplyTable, InImage, ReadWord;
    entry, size := 0, 0;
    var e, d;
    code, e, d := PrepareImage(file, image, load);
    if code != OK {
      return;
    }
    var base, span := e.base, e.end - e.base;
    if d.relasz.Some? {
      code := ApplyRelocations(image, base, span, d, resolve, bias, OrZero(d.rela), d.relasz.value);
      if code != OK {
        return;
      }
    } else {
      NothingToApply(image[..], base, span, d, resolve, bias, OrZero(d.rela));
    }
    if d.pltrelsz.Some? && d.pltrelsz.value != 0 {
      if PltUnsupported(d) {
        code := UNSUPPORTED;
        return;
      }
      code := ApplyRelocations(image, base, span, d, resolve, bias, d.jmprel.value, d.pltrelsz.value);
      if code != OK {
        return;
      }
    } else {
      NothingToApply(image[..], base, span, d, resolve, bias, OrZero(d.jmprel));
    }
    if !InImage(ReadWord(file, 24), 1, base, span) {
      code := INVALID_ELF;
      return;
    }
    entry, size := (bias + ReadWord(file, 24)) % U64, span;
  }

  lemma NothingToApply(mem: seq<byte>, base: u64, span: nat, d: Dynamic, resolve: Str -> Option<u64>, bias: u64,
                       address: u64)
    requires span <= |mem|
    ensures ApplyTable(mem, base, span, d, resolve, bias, address, 0) == Progress(mem, 0, OK)
  {
    RelocateNone(mem, ContextOf(base, span, d, resolve), bias);
  }
}
