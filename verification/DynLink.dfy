/**
 The dynamic linker: one ELF64 shared object is laid out flat in memory the caller
 provides, its dependencies are asked for, and its RELA relocations are applied.
 */
module DynLink {
  import opened Bytes
  import opened DynRelocs

  const EHDR_SIZE: nat := 64
  const PHDR_SIZE: nat := 56
  const DYN_SIZE: nat := 16
  const PT_LOAD: nat := 1
  const PT_DYNAMIC: nat := 2

  const DT_NULL: nat := 0
  const DT_NEEDED: nat := 1
  const DT_PLTRELSZ: nat := 2
  const DT_STRTAB: nat := 5
  const DT_SYMTAB: nat := 6
  const DT_RELA: nat := 7
  const DT_RELASZ: nat := 8
  const DT_RELAENT: nat := 9
  const DT_STRSZ: nat := 10
  const DT_SYMENT: nat := 11
  const DT_REL: nat := 17
  const DT_RELSZ: nat := 18
  const DT_PLTREL: nat := 20
  const DT_JMPREL: nat := 23

  /* ----- Headers ----- */

  /** The identification and sizes every accepted header has. */
  predicate WellFormed(file: seq<byte>)
    requires |file| >= EHDR_SIZE
  {
    && file[..4] == [0x7F, 0x45, 0x4C, 0x46] && file[4] == 2 && file[5] == 1 && file[6] == 1
    && Read(file, 20, 4) == 1 && Read(file, 52, 2) == EHDR_SIZE
    && Read(file, 54, 2) == PHDR_SIZE && Read(file, 56, 2) != 0
  }

  datatype Program = Program(kind: nat, offset: u64, vaddr: u64, filesz: u64, memsz: u64) {
    predicate Loads() { kind == PT_LOAD && memsz != 0 }
  }

  predicate HasPrograms(file: seq<byte>, phoff: nat, n: nat) {
    RangeValid(phoff, n * PHDR_SIZE, |file|)
  }

  function ProgramAt(file: seq<byte>, phoff: nat, i: nat): Program
    requires HasPrograms(file, phoff, i + 1)
  {
    var at := phoff + i * PHDR_SIZE;
    Program(Read(file, at, 4), ReadWord(file, at + 8), ReadWord(file, at + 16),
      ReadWord(file, at + 32), ReadWord(file, at + 40))
  }

  /** A loadable segment with its file bytes in the file and its addresses below 2^64. */
  predicate Acceptable(p: Program, total: nat) {
    p.filesz <= p.memsz && RangeValid(p.offset, p.filesz, total) && (p.vaddr + p.memsz) % U64 >= p.vaddr
  }

  /** The span of the loadable segments, and the dynamic segment. */
  datatype Extent = Extent(base: u64, end: u64, dynamic: u64, dynamicSize: u64, hasDynamic: bool)

  function Widen(e: Extent, p: Program, total: nat): Option<Extent> {
    if p.kind == PT_LOAD then
      if !Acceptable(p, total) then None
      else if p.memsz == 0 then Some(e)
      else
        var end := (p.vaddr + p.memsz) % U64;
        Some(e.(base := if p.vaddr < e.base then p.vaddr else e.base, end := if end > e.end then end else e.end))
    else if p.kind == PT_DYNAMIC then Some(e.(dynamic := p.vaddr, dynamicSize := p.memsz, hasDynamic := true))
    else Some(e)
  }

  /** What the first `n` program headers span; `None` if one of them is refused. */
  function ScanPrograms(file: seq<byte>, phoff: nat, n: nat): Option<Extent>
    requires HasPrograms(file, phoff, n)
  {
    if n == 0 then Some(Extent(U64 - 1, 0, 0, 0, false))
    else match ScanPrograms(file, phoff, n - 1)
      case None => None
      case Some(e) => Widen(e, ProgramAt(file, phoff, n - 1), |file|)
  }

  /** The span holds every segment, and no more than it must. */
  ghost predicate Tight(file: seq<byte>, phoff: nat, n: nat, e: Extent)
    requires HasPrograms(file, phoff, n)
  {
    && (forall i: nat :: i < n ==> Fits(ProgramAt(file, phoff, i), |file|, e))
    && (e.base < U64 - 1 ==>
        exists i: nat :: i < n && ProgramAt(file, phoff, i).Loads() && ProgramAt(file, phoff, i).vaddr == e.base)
    && (e.end > 0 ==> exists i: nat :: i < n && EndsAt(ProgramAt(file, phoff, i), e.end))
  }

  predicate EndsAt(p: Program, end: nat) {
    p.Loads() && p.vaddr + p.memsz == end
  }

  predicate Fits(p: Program, total: nat, e: Extent) {
    && (p.kind == PT_LOAD ==> Acceptable(p, total))
    && (p.Loads() ==> e.base <= p.vaddr && p.vaddr + p.memsz <= e.end)
  }

  lemma {:induction false} ScanIsTight(file: seq<byte>, phoff: nat, n: nat)
    requires HasPrograms(file, phoff, n) && ScanPrograms(file, phoff, n).Some?
    ensures Tight(file, phoff, n, ScanPrograms(file, phoff, n).value)
    decreases n
  {
    hide ReadWord, Read;
    if n > 0 {
      ScanIsTight(file, phoff, n - 1);
      var e, p := ScanPrograms(file, phoff, n - 1).value, ProgramAt(file, phoff, n - 1);
      WidenFits(e, p, |file|);
    }
  }

  lemma WidenFits(e: Extent, p: Program, total: nat)
    requires Widen(e, p, total).Some?
    ensures var w := Widen(e, p, total).value;
            && Fits(p, total, w) && w.base <= e.base && e.end <= w.end
            && (w.base < e.base ==> p.Loads() && p.vaddr == w.base) && (e.end < w.end ==> EndsAt(p, w.end))
  {
    if p.kind == PT_LOAD {
      Wrap(p.vaddr + p.memsz);
    }
  }

  /* ----- The image ----- */

  function Place(mem: seq<byte>, file: seq<byte>, p: Program, base: u64): (r: seq<byte>)
    requires p.Loads() ==> base <= p.vaddr && p.vaddr - base + p.filesz <= |mem|
    requires p.Loads() ==> RangeValid(p.offset, p.filesz, |file|)
    ensures |r| == |mem|
  {
    if p.Loads() then Splice(mem, p.vaddr - base, file[p.offset..p.offset + p.filesz]) else mem
  }

  ghost predicate AllFit(file: seq<byte>, phoff: nat, n: nat, base: u64, room: nat)
    requires HasPrograms(file, phoff, n)
  {
    forall i: nat :: i < n ==> FitsAt(ProgramAt(file, phoff, i), |file|, base, room)
  }

  predicate FitsAt(p: Program, total: nat, base: u64, room: nat) {
    p.Loads() ==> Acceptable(p, total) && base <= p.vaddr && p.vaddr - base + p.memsz <= room
  }

  /** The file bytes of the first `n` program headers' segments, copied in order. */
  ghost function Copied(mem: seq<byte>, file: seq<byte>, phoff: nat, n: nat, base: u64): (r: seq<byte>)
    requires HasPrograms(file, phoff, n) && AllFit(file, phoff, n, base, |mem|)
    ensures |r| == |mem|
  {
    if n == 0 then mem
    else
      assert FitsAt(ProgramAt(file, phoff, n - 1), |file|, base, |mem|);
      Place(Copied(mem, file, phoff, n - 1, base), file, ProgramAt(file, phoff, n - 1), base)
  }

  /** Segment `p` brings a file byte to position `q` of the image. */
  predicate Brings(p: Program, base: u64, q: nat) {
    p.Loads() && base <= p.vaddr && p.vaddr - base <= q < p.vaddr - base + p.filesz
  }

  /** A byte that segments `i` on do not bring stays as the first `i` left it. */
  lemma {:induction false} CopiedKeeps(mem: seq<byte>, file: seq<byte>, phoff: nat, i: nat, n: nat, base: u64, q: nat)
    requires HasPrograms(file, phoff, n) && AllFit(file, phoff, n, base, |mem|) && q < |mem| && i <= n
    requires forall j: nat :: i <= j < n ==> !Brings(ProgramAt(file, phoff, j), base, q)
    ensures HasPrograms(file, phoff, i) && AllFit(file, phoff, i, base, |mem|)
    ensures Copied(mem, file, phoff, n, base)[q] == Copied(mem, file, phoff, i, base)[q]
    decreases n
  {
    hide ProgramAt, Acceptable;
    if i < n {
      CopiedKeeps(mem, file, phoff, i, n - 1, base, q);
      var p := ProgramAt(file, phoff, n - 1);
      assert FitsAt(p, |file|, base, |mem|);
      AcceptedInFile(p, |file|);
      assert !Brings(p, base, q);
    }
  }

  /** Each byte of the image is that of the last segment that brings one there, or what it was. */
  lemma CopiedByte(mem: seq<byte>, file: seq<byte>, phoff: nat, n: nat, base: u64, q: nat, i: nat)
    requires HasPrograms(file, phoff, n) && AllFit(file, phoff, n, base, |mem|) && q < |mem| && i <= n
    requires forall j: nat :: i <= j < n ==> !Brings(ProgramAt(file, phoff, j), base, q)
    ensures i == 0 ==> Copied(mem, file, phoff, n, base)[q] == mem[q]
    ensures i > 0 && Brings(ProgramAt(file, phoff, i - 1), base, q) ==>
              IsFileByte(file, ProgramAt(file, phoff, i - 1), base, q, Copied(mem, file, phoff, n, base)[q])
  {
    hide ProgramAt, Acceptable, Place, IsFileByte, Brings;
    CopiedKeeps(mem, file, phoff, i, n, base, q);
    if i > 0 {
      var p := ProgramAt(file, phoff, i - 1);
      assert FitsAt(p, |file|, base, |mem|);
      AcceptedInFile(p, |file|);
      PlacedByte(Copied(mem, file, phoff, i - 1, base), file, p, base, q);
    }
  }

  lemma PlacedByte(mem: seq<byte>, file: seq<byte>, p: Program, base: u64, q: nat)
    requires p.Loads() ==> base <= p.vaddr && p.vaddr - base + p.filesz <= |mem|
    requires p.Loads() ==> RangeValid(p.offset, p.filesz, |file|)
    requires q < |mem|
    ensures Brings(p, base, q) ==> IsFileByte(file, p, base, q, Place(mem, file, p, base)[q])
  {
  }

  predicate IsFileByte(file: seq<byte>, p: Program, base: u64, q: nat, b: byte) {
    var at := p.offset + q - (p.vaddr - base);
    0 <= at < |file| && file[at] == b
  }

  lemma AcceptedInFile(p: Program, total: nat)
    ensures Acceptable(p, total) ==> RangeValid(p.offset, p.filesz, total) && p.filesz <= p.memsz
  {
  }

  /* ----- The dynamic table ----- */

  /** The entries of the dynamic table the linker looks at; `relsz` is nonzero when REL relocations are announced. */
  datatype Dynamic = Dynamic(
    strtab: Option<u64>, strsz: Option<u64>, symtab: Option<u64>, syment: Option<u64>,
    rela: Option<u64>, relasz: Option<u64>, relaent: Option<u64>,
    jmprel: Option<u64>, pltrelsz: Option<u64>, pltrel: Option<u64>, relsz: u64)

  const NO_DYNAMIC: Dynamic := Dynamic(None, None, None, None, None, None, None, None, None, None, 0)

  function Update(d: Dynamic, tag: u64, value: u64): Dynamic {
    if tag == DT_STRTAB then d.(strtab := Some(value))
    else if tag == DT_STRSZ then d.(strsz := Some(value))
    else if tag == DT_SYMTAB then d.(symtab := Some(value))
    else if tag == DT_SYMENT then d.(syment := Some(value))
    else if tag == DT_RELA then d.(rela := Some(value))
    else if tag == DT_RELASZ then d.(relasz := Some(value))
    else if tag == DT_RELAENT then d.(relaent := Some(value))
    else if tag == DT_JMPREL then d.(jmprel := Some(value))
    else if tag == DT_PLTRELSZ then d.(pltrelsz := Some(value))
    else if tag == DT_PLTREL then d.(pltrel := Some(value))
    else if tag == DT_REL then d.(relsz := 1)
    else if tag == DT_RELSZ then d.(relsz := value)
    else d
  }

  /** The table from `pos` to `end`, after `d`; `None` if it is not terminated. */
  function ScanDynamic(mem: seq<byte>, pos: nat, end: nat, d: Dynamic): Option<Dynamic>
    requires end <= |mem|
    decreases end - pos
  {
    if pos + DYN_SIZE > end then None
    else if ReadWord(mem, pos) == DT_NULL then Some(d)
    else ScanDynamic(mem, pos + DYN_SIZE, end, Update(d, ReadWord(mem, pos), ReadWord(mem, pos + 8)))
  }

  /** The result of asking for every DT_NEEDED entry from `pos` on; without strings any such entry is an error. */
  function Needed(mem: seq<byte>, pos: nat, end: nat, strings: Option<seq<byte>>, load: Str -> bool): int
    requires end <= |mem|
    decreases end - pos
  {
    if pos + DYN_SIZE > end || ReadWord(mem, pos) == DT_NULL then OK
    else if ReadWord(mem, pos) != DT_NEEDED then Needed(mem, pos + DYN_SIZE, end, strings, load)
    else if strings.None? then INVALID_DYNAMIC_TABLE
    else match BoundedString(strings.value, ReadWord(mem, pos + 8))
      case None => INVALID_DYNAMIC_TABLE
      case Some(name) => if load(name) then Needed(mem, pos + DYN_SIZE, end, strings, load) else DEPENDENCY_ERROR
  }

  /** Where entry `i` of the table at `pos` lies. */
  function EntryAt(pos: nat, i: nat): nat {
    pos + 16 * i
  }

  /** Entry `i` lies in the table, before its terminator. */
  ghost predicate InTable(mem: seq<byte>, pos: nat, end: nat, i: nat)
    requires end <= |mem|
  {
    EntryAt(pos, i) + 16 <= end && forall j: nat :: j <= i ==> ReadWord(mem, EntryAt(pos, j)) != 0
  }

  /** A dependency has a name in the string table and could be loaded. */
  predicate Satisfied(strings: Option<seq<byte>>, offset: u64, load: Str -> bool) {
    strings.Some? && BoundedString(strings.value, offset).Some? && load(BoundedString(strings.value, offset).value)
  }

  /** An entry that names a dependency is satisfied. */
  ghost predicate EntryOk(mem: seq<byte>, pos: nat, end: nat, i: nat, strings: Option<seq<byte>>, load: Str -> bool)
    requires end <= |mem|
  {
    InTable(mem, pos, end, i) && ReadWord(mem, EntryAt(pos, i)) == 1 ==>
      Satisfied(strings, ReadWord(mem, EntryAt(pos, i) + 8), load)
  }

  lemma TableShift(mem: seq<byte>, pos: nat, next: nat, end: nat, i: nat)
    requires end <= |mem| && next == pos + DYN_SIZE <= end && ReadWord(mem, pos) != DT_NULL
    ensures InTable(mem, pos, end, i + 1) <==> InTable(mem, next, end, i)
    ensures EntryAt(pos, i + 1) == EntryAt(next, i)
  {
    hide ReadWord;
    assert EntryAt(pos, 0) == pos;
    if InTable(mem, next, end, i) {
      forall j: nat | j <= i + 1
        ensures ReadWord(mem, EntryAt(pos, j)) != DT_NULL
      {
        assert j > 0 ==> EntryAt(pos, j) == EntryAt(next, j - 1);
      }
    }
    if InTable(mem, pos, end, i + 1) {
      forall j: nat | j <= i
        ensures ReadWord(mem, EntryAt(next, j)) != DT_NULL
      {
        assert EntryAt(next, j) == EntryAt(pos, j + 1);
      }
    }
  }

  ghost predicate AllOk(mem: seq<byte>, pos: nat, end: nat, strings: Option<seq<byte>>, load: Str -> bool)
    requires end <= |mem|
  {
    forall i: nat :: EntryOk(mem, pos, end, i, strings, load)
  }

  /** Asking succeeds exactly when every dependency named before the terminator is satisfied. */
  lemma {:induction false} NeededOk(mem: seq<byte>, pos: nat, end: nat, strings: Option<seq<byte>>, load: Str -> bool)
    requires end <= |mem|
    ensures Needed(mem, pos, end, strings, load) == OK <==> AllOk(mem, pos, end, strings, load)
    decreases end - pos
  {
    hide ReadWord, BoundedString, AllOk;
    if pos + DYN_SIZE > end || ReadWord(mem, pos) == DT_NULL {
      NothingThere(mem, pos, end, strings, load);
    } else {
      NeededOk(mem, pos + DYN_SIZE, end, strings, load);
      FromFirst(mem, pos, pos + DYN_SIZE, end, strings, load);
    }
  }

  lemma NothingThere(mem: seq<byte>, pos: nat, end: nat, strings: Option<seq<byte>>, load: Str -> bool)
    requires end <= |mem| && (pos + DYN_SIZE > end || ReadWord(mem, pos) == DT_NULL)
    ensures AllOk(mem, pos, end, strings, load)
  {
    hide ReadWord, BoundedString;
    assert EntryAt(pos, 0) == pos;
  }

  /** All entries are the first one and those after it. */
  lemma FromFirst(mem: seq<byte>, pos: nat, next: nat, end: nat, strings: Option<seq<byte>>, load: Str -> bool)
    requires end <= |mem| && next == pos + DYN_SIZE <= end && ReadWord(mem, pos) != DT_NULL
    ensures AllOk(mem, pos, end, strings, load) <==>
              && (ReadWord(mem, pos) == DT_NEEDED ==> Satisfied(strings, ReadWord(mem, pos + 8), load))
              && AllOk(mem, next, end, strings, load)
  {
    hide ReadWord, Satisfied, InTable;
    assert EntryAt(pos, 0) == pos;
    assert InTable(mem, pos, end, 0) by {
      FirstThere(mem, pos, end);
    }
    if AllOk(mem, pos, end, strings, load) {
      assert EntryOk(mem, pos, end, 0, strings, load);
      forall i: nat
        ensures EntryOk(mem, next, end, i, strings, load)
      {
        TableShift(mem, pos, next, end, i);
        assert EntryOk(mem, pos, end, i + 1, strings, load);
      }
    } else {
      var i: nat :| !EntryOk(mem, pos, end, i, strings, load);
      if i > 0 {
        TableShift(mem, pos, next, end, i - 1);
        assert AllOk(mem, next, end, strings, load) ==> EntryOk(mem, next, end, i - 1, strings, load);
      }
    }
  }

  lemma FirstThere(mem: seq<byte>, pos: nat, end: nat)
    requires end <= |mem| && pos + DYN_SIZE <= end && ReadWord(mem, pos) != DT_NULL
    ensures InTable(mem, pos, end, 0)
  {
    hide ReadWord;
    assert EntryAt(pos, 0) == pos;
  }

  /** The string table, when the dynamic table names one and it lies in the image. */
  function Strings(mem: seq<byte>, d: Dynamic, base: u64, span: nat): Option<seq<byte>>
    requires span <= |mem|
  {
    if d.strtab.Some? && d.strsz.Some? && InImage(d.strtab.value, d.strsz.value, base, span)
    then Some(mem[d.strtab.value - base..d.strtab.value - base + d.strsz.value]) else None
  }

  predicate StringsOutside(d: Dynamic, base: u64, span: nat) {
    d.strtab.Some? && d.strsz.Some? && !InImage(d.strtab.value, d.strsz.value, base, span)
  }

  /* ----- Loading up to the relocations ----- */

  /** An image ready to relocate, or the error and what memory then holds. */
  datatype Image = Image(mem: seq<byte>, base: u64, span: nat, dynamic: Dynamic, entry: u64)
                 | Refused(code: int, mem: seq<byte>)

  /** The checks between the dynamic table and the relocations. */
  function DynamicCode(mem: seq<byte>, pos: nat, end: nat, d: Dynamic, base: u64, span: nat, load: Str -> bool): int
    requires span <= |mem| && end <= |mem|
  {
    if StringsOutside(d, base, span) then INVALID_DYNAMIC_TABLE
    else
      var needed := Needed(mem, pos, end, Strings(mem, d, base, span), load);
      if needed != OK then needed
      else if d.relsz != 0 then UNSUPPORTED
      else if d.relasz.Some? && d.relasz.value != 0
              && (d.rela.None? || d.relaent != Some(RELA_SIZE)) then INVALID_DYNAMIC_TABLE
      else OK
  }

  /** The errors of the ELF header and the program headers. */
  function HeaderCode(file: seq<byte>): int {
    if |file| < EHDR_SIZE then INVALID_ARGUMENT
    else if !WellFormed(file) then INVALID_ELF
    else if Read(file, 16, 2) != 3 || Read(file, 18, 2) != 62 then UNSUPPORTED
    else if !HasPrograms(file, ReadWord(file, 32), Read(file, 56, 2)) then INVALID_ELF
    else match ScanPrograms(file, ReadWord(file, 32), Read(file, 56, 2))
      case None => INVALID_ELF
      case Some(e) => if e.base == U64 - 1 || e.end <= e.base || !e.hasDynamic then INVALID_ELF else OK
  }

  lemma HeaderAllFits(file: seq<byte>, e: Extent)
    requires |file| >= EHDR_SIZE && HasPrograms(file, ReadWord(file, 32), Read(file, 56, 2))
    requires ScanPrograms(file, ReadWord(file, 32), Read(file, 56, 2)) == Some(e) && e.base < e.end
    ensures AllFit(file, ReadWord(file, 32), Read(file, 56, 2), e.base, e.end - e.base)
  {
    hide ReadWord, Read, ProgramAt, Acceptable;
    var phoff, n := ReadWord(file, 32), Read(file, 56, 2);
    ScanIsTight(file, phoff, n);
    forall i: nat | i < n
      ensures FitsAt(ProgramAt(file, phoff, i), |file|, e.base, e.end - e.base)
    {
      assert Fits(ProgramAt(file, phoff, i), |file|, e);
    }
  }

  lemma MoreRoom(file: seq<byte>, phoff: nat, n: nat, base: u64, room: nat, more: nat)
    requires HasPrograms(file, phoff, n) && AllFit(file, phoff, n, base, room) && room <= more
    ensures AllFit(file, phoff, n, base, more)
  {
    hide ProgramAt, Acceptable;
    forall i: nat | i < n
      ensures FitsAt(ProgramAt(file, phoff, i), |file|, base, more)
    {
      assert FitsAt(ProgramAt(file, phoff, i), |file|, base, room);
    }
  }

  /** Everything `load_elf64` does before it uses the load bias. */
  ghost function Prepare(file: seq<byte>, mem: seq<byte>, load: Str -> bool): (r: Image)
    ensures |r.mem| == |mem|
    ensures r.Image? ==> r.span <= |r.mem|
    ensures r.Refused? ==> r.code != OK
  {
    if HeaderCode(file) != OK then Refused(HeaderCode(file), mem)
    else
      var phoff, phnum := ReadWord(file, 32), Read(file, 56, 2);
      var e := ScanPrograms(file, phoff, phnum).value;
      var span := e.end - e.base;
      if span > |mem| then Refused(INSUFFICIENT_MEMORY, mem)
      else
        HeaderAllFits(file, e);
        MoreRoom(file, phoff, phnum, e.base, span, |mem|);
        var image := Copied(Splice(mem, 0, Zeros(span)), file, phoff, phnum, e.base);
        if e.dynamicSize < DYN_SIZE || !InImage(e.dynamic, e.dynamicSize, e.base, span) then
          Refused(INVALID_DYNAMIC_TABLE, image)
        else
          var pos := e.dynamic - e.base;
          match ScanDynamic(image, pos, pos + e.dynamicSize, NO_DYNAMIC)
          case None => Refused(INVALID_DYNAMIC_TABLE, image)
          case Some(d) =>
            var code := DynamicCode(image, pos, pos + e.dynamicSize, d, e.base, span, load);
            if code != OK then Refused(code, image) else Image(image, e.base, span, d, ReadWord(file, 24))
  }
}
