/**
 What `load_elf64` makes of a shared object, said in the words of the file and of the image:
 the numbers are those of the ELF-64 object file format and of the System V ABI AMD64
 supplement, sections 4.3 and 4.4.
 */
module LinkedImage {
  import opened Bytes
  import opened DynRelocs
  import opened DynLink
  import opened DynLoader

  /* ----- Relocated words ----- */

  /** `name` is the string at `offset` of a string table, up to its zero byte. */
  predicate NameIs(strings: seq<byte>, offset: nat, name: Str) {
    offset + |name| < |strings| && strings[offset..offset + |name|] == name && strings[offset + |name|] == 0
  }

  /**
   `v` is what the symbol at `s` stands for: its value if it is absolute, the value moved
   with the image if it is defined, else what the resolver answers to its name, and 0 if
   that is nothing and the symbol is weak.
   */
  ghost predicate SymbolIs(mem: seq<byte>, strings: seq<byte>, resolve: Str -> Option<u64>, bias: u64, s: nat, v: u64)
    requires s + 24 <= |mem|
  {
    var section, value := FromLE(mem[s + 6..s + 8]), WordOf(mem[s + 8..s + 16]);
    if section == 0xFFF1 then v == value
    else if section != 0 then v == (bias + value) % 0x1_0000_0000_0000_0000
    else exists name: Str :: NameIs(strings, FromLE(mem[s..s + 4]), name) &&
           if resolve(name).Some? then v == resolve(name).value else v == 0 && mem[s + 4] / 16 == 2
  }

  /** Where symbol `index` of the table at virtual address `symtab` lies in the image. */
  function SymbolPlace(symtab: u64, index: nat, base: u64): int {
    (symtab + 24 * index) % 0x1_0000_0000_0000_0000 - base
  }

  /** `word` is S + A for type 1, and S for types 6 and 7, with the symbol at `s`. */
  ghost predicate SymbolicIs(mem: seq<byte>, strings: seq<byte>, resolve: Str -> Option<u64>, bias: u64, s: nat,
                             kind: nat, addend: u64, word: u64)
    requires s + 24 <= |mem|
  {
    kind in {1, 6, 7} &&
    exists v: u64 :: SymbolIs(mem, strings, resolve, bias, s, v) &&
      word == if kind == 1 then (v + addend) % 0x1_0000_0000_0000_0000 else v
  }

  /**
   In `m` the word that the relocation entry at `at` of `mem` aims at is what its type says:
   B + A for type 8, and what its symbol makes it for types 1, 6 and 7.
   */
  ghost predicate TargetIs(mem: seq<byte>, base: u64, d: Dynamic, resolve: Str -> Option<u64>, bias: u64, at: nat,
                           m: seq<byte>)
    requires at + 24 <= |mem|
  {
    var offset, info, addend := WordOf(mem[at..at + 8]), WordOf(mem[at + 8..at + 16]), WordOf(mem[at + 16..at + 24]);
    var t, kind, index := offset - base, info % 0x1_0000_0000, info / 0x1_0000_0000;
    && 0 <= t && t + 8 <= |m|
    && if kind == 8 then index == 0 && WordOf(m[t..t + 8]) == (bias + addend) % 0x1_0000_0000_0000_0000
       else HasSymbol(mem, base, d, index) &&
            var s, strings := SymbolPlace(d.symtab.value, index, base), d.strtab.value - base;
            SymbolicIs(mem, mem[strings..strings + d.strsz.value], resolve, bias, s, kind, addend, WordOf(m[t..t + 8]))
  }

  /** Symbol `index` and the string table lie in memory. */
  predicate HasSymbol(mem: seq<byte>, base: u64, d: Dynamic, index: nat) {
    && d.symtab.Some? && d.strtab.Some? && d.strsz.Some?
    && 0 <= SymbolPlace(d.symtab.value, index, base) && SymbolPlace(d.symtab.value, index, base) + 24 <= |mem|
    && base <= d.strtab.value && d.strtab.value - base + d.strsz.value <= |mem|
  }

  /** What `Lookup` does, in terms of where the symbol and the strings lie. */
  lemma LookupAt(mem: seq<byte>, c: Context, bias: u64, index: nat, s: int, strings: int)
    requires c.span <= |mem| && index < U32
    requires s == SymbolPlace(c.symtab, index, c.base) && strings == c.strtab - c.base
    ensures Lookup(mem, c, bias, index) ==
            if 0 <= s && s + 24 <= c.span && 0 <= strings && strings + c.strsz <= c.span then
              Meaning(SymbolAt(mem, s), mem[strings..strings + c.strsz], c.resolve, bias)
            else Unknown(INVALID_DYNAMIC_TABLE)
  {
    hide SymbolAt, Meaning, SymbolPlace, Context.SymbolAddress;
    NoWrap(index);
    PlaceIs(c, index);
  }

  lemma NoWrap(index: nat)
    requires index < U32
    ensures index * SYMBOL_SIZE % U64 / SYMBOL_SIZE == index
  {
    assert index * SYMBOL_SIZE < U64;
  }

  lemma PlaceIs(c: Context, index: nat)
    ensures c.SymbolAddress(index) - c.base == SymbolPlace(c.symtab, index, c.base)
  {
  }

  lemma MeaningIs(mem: seq<byte>, strings: seq<byte>, resolve: Str -> Option<u64>, bias: u64, s: nat)
    requires s + 24 <= |mem|
    ensures var r := Meaning(SymbolAt(mem, s), strings, resolve, bias);
            r.At? ==> SymbolIs(mem, strings, resolve, bias, s, r.address)
  {
    hide WordOf, FromLE, BoundedString;
    var offset := FromLE(mem[s..s + 4]);
    if BoundedString(strings, offset).Some? {
      assert NameIs(strings, offset, BoundedString(strings, offset).value);
    }
  }

  /** A stored relocation has left the word the ABI asks for. */
  lemma StoredIs(mem: seq<byte>, base: u64, span: nat, d: Dynamic, resolve: Str -> Option<u64>, bias: u64, at: nat,
                 m: seq<byte>)
    requires span <= |mem| == |m| && at + 24 <= |mem|
    requires Stored(mem, ContextOf(base, span, d, resolve), bias, at, m)
    requires d.symtab.Some? && d.strtab.Some? && d.strsz.Some?
    ensures TargetIs(mem, base, d, resolve, bias, at, m)
  {
    hide WordOf, Word, Lookup, SymbolIs, SymbolPlace, Meaning, SymbolAt;
    var c, r := ContextOf(base, span, d, resolve), Relocation(mem, ContextOf(base, span, d, resolve), bias, at);
    WordRoundTrip(r.value);
    var rela := RelaAt(mem, at);
    DistanceFits(rela);
    if rela.Symbolic() {
      var s, strings := SymbolPlace(c.symtab, rela.Index(), base), c.strtab - base;
      LookupAt(mem, c, bias, rela.Index(), s, strings);
      MeaningIs(mem, mem[strings..strings + c.strsz], resolve, bias, s);
    }
  }

  /* ----- Why an entry is refused ----- */

  /** The word at virtual address `offset` lies in the image. */
  predicate Aimed(offset: u64, base: u64, span: nat) {
    base <= offset && offset - base + 8 <= span
  }

  /** The symbol and the string table lie in the image, and the symbol's name ends inside the table. */
  ghost predicate Named(mem: seq<byte>, base: u64, span: nat, d: Dynamic, index: nat)
    requires span <= |mem| && d.symtab.Some? && d.strtab.Some? && d.strsz.Some?
  {
    var s, strings := SymbolPlace(d.symtab.value, index, base), d.strtab.value - base;
    && 0 <= s && s + 24 <= span && 0 <= strings && strings + d.strsz.value <= span
    && Ends(mem[strings..strings + d.strsz.value], FromLE(mem[s..s + 4]))
  }

  /** A string at `offset` ends inside the table. */
  predicate Ends(strings: seq<byte>, offset: nat) {
    exists i :: offset <= i < |strings| && strings[i] == 0
  }

  /** Neither the object nor the resolver defines the symbol, and it is not weak. */
  ghost predicate Undefined(mem: seq<byte>, strings: seq<byte>, resolve: Str -> Option<u64>, s: nat)
    requires s + 24 <= |mem|
  {
    && FromLE(mem[s + 6..s + 8]) == 0 && mem[s + 4] / 16 != 2
    && exists name: Str :: NameIs(strings, FromLE(mem[s..s + 4]), name) && resolve(name).None?
  }

  /** The entry at `at` is refused with `code`: -5 for a bad table, -8 for another type, -7 for no definition. */
  ghost predicate Refuses(mem: seq<byte>, base: u64, span: nat, d: Dynamic, resolve: Str -> Option<u64>, at: nat,
                          code: int)
    requires span <= |mem| && at + 24 <= |mem| && d.symtab.Some? && d.strtab.Some? && d.strsz.Some?
  {
    var offset, info := WordOf(mem[at..at + 8]), WordOf(mem[at + 8..at + 16]);
    var kind, index := info % 0x1_0000_0000, info / 0x1_0000_0000;
    if !Aimed(offset, base, span) then code == -5
    else if kind == 8 then index != 0 && code == -5
    else if kind !in {1, 6, 7} then code == -8
    else if !Named(mem, base, span, d, index) then code == -5
    else
      var s, strings := SymbolPlace(d.symtab.value, index, base), d.strtab.value - base;
      code == -7 && Undefined(mem, mem[strings..strings + d.strsz.value], resolve, s)
  }

  lemma NameUnique(strings: seq<byte>, offset: nat, x: Str, y: Str)
    requires NameIs(strings, offset, x) && NameIs(strings, offset, y)
    ensures x == y
  {
    assert forall j :: 0 <= j < |x| ==> x[j] in x && strings[offset + j] == x[j];
    assert forall j :: 0 <= j < |y| ==> y[j] in y && strings[offset + j] == y[j];
  }

  lemma NameFound(strings: seq<byte>, offset: nat, name: Str)
    requires NameIs(strings, offset, name)
    ensures BoundedString(strings, offset) == Some(name)
  {
    hide BoundedString;
    assert strings[offset + |name|] == 0;
    NameUnique(strings, offset, name, BoundedString(strings, offset).value);
  }

  lemma LookupFails(mem: seq<byte>, base: u64, span: nat, d: Dynamic, resolve: Str -> Option<u64>, bias: u64,
                    index: nat)
    requires span <= |mem| && index < 0x1_0000_0000 && d.symtab.Some? && d.strtab.Some? && d.strsz.Some?
    ensures var r := Lookup(mem, ContextOf(base, span, d, resolve), bias, index);
            if !Named(mem, base, span, d, index) then r == Unknown(-5)
            else
              var s, strings := SymbolPlace(d.symtab.value, index, base), d.strtab.value - base;
              if Undefined(mem, mem[strings..strings + d.strsz.value], resolve, s) then r == Unknown(-7) else r.At?
  {
    hide WordOf, FromLE, BoundedString, NameIs, Lookup, SymbolPlace, Undefined;
    var s, strings := SymbolPlace(d.symtab.value, index, base), d.strtab.value - base;
    LookupAt(mem, ContextOf(base, span, d, resolve), bias, index, s, strings);
    if Named(mem, base, span, d, index) {
      Unresolved(mem, mem[strings..strings + d.strsz.value], resolve, s);
    }
  }

  lemma Unresolved(mem: seq<byte>, strings: seq<byte>, resolve: Str -> Option<u64>, s: nat)
    requires s + 24 <= |mem| && Ends(strings, FromLE(mem[s..s + 4]))
    ensures BoundedString(strings, FromLE(mem[s..s + 4])).Some?
    ensures Undefined(mem, strings, resolve, s) <==>
            && FromLE(mem[s + 6..s + 8]) == 0 && mem[s + 4] / 16 != 2
            && resolve(BoundedString(strings, FromLE(mem[s..s + 4])).value).None?
  {
    hide WordOf, FromLE, BoundedString;
    var offset := FromLE(mem[s..s + 4]);
    assert NameIs(strings, offset, BoundedString(strings, offset).value);
    forall name: Str | NameIs(strings, offset, name)
      ensures BoundedString(strings, offset) == Some(name)
    {
      NameFound(strings, offset, name);
    }
  }

  /** An entry is refused for exactly these reasons. */
  lemma RefusedIs(mem: seq<byte>, base: u64, span: nat, d: Dynamic, resolve: Str -> Option<u64>, bias: u64, at: nat,
                  code: int)
    requires span <= |mem| && at + 24 <= |mem| && d.symtab.Some? && d.strtab.Some? && d.strsz.Some?
    ensures Relocation(mem, ContextOf(base, span, d, resolve), bias, at) == Bad(code) <==>
            Refuses(mem, base, span, d, resolve, at, code)
  {
    hide WordOf, Lookup, Named, Undefined;
    var rela := RelaAt(mem, at);
    DistanceFits(rela);
    if rela.Symbolic() {
      LookupFails(mem, base, span, d, resolve, bias, rela.Index());
    }
  }

  /* ----- What the dynamic table says ----- */

  function TagAt(mem: seq<byte>, pos: nat, i: nat): u64
    requires pos + 16 * i + 16 <= |mem|
  {
    WordOf(mem[pos + 16 * i..pos + 16 * i + 8])
  }

  function ValueAt(mem: seq<byte>, pos: nat, i: nat): u64
    requires pos + 16 * i + 16 <= |mem|
  {
    WordOf(mem[pos + 16 * i + 8..pos + 16 * i + 16])
  }

  /** Entry `i` lies before the terminator and its tag is `key`; a REL table, of tag 17, counts as one of size 1. */
  ghost predicate Says(mem: seq<byte>, pos: nat, end: nat, key: nat, i: nat, value: u64)
    requires end <= |mem|
  {
    InTable(mem, pos, end, i) &&
    if key == 18 && TagAt(mem, pos, i) == 17 then value == 1
    else TagAt(mem, pos, i) == key && value == ValueAt(mem, pos, i)
  }

  ghost predicate Silent(mem: seq<byte>, pos: nat, end: nat, key: nat, from: nat)
    requires end <= |mem|
  {
    forall i: nat, value: u64 :: from <= i ==> !Says(mem, pos, end, key, i, value)
  }

  /** `v` is the value of the last entry for `key` before the terminator, and `other` if there is none. */
  ghost predicate Told(mem: seq<byte>, pos: nat, end: nat, key: nat, other: Option<u64>, v: Option<u64>)
    requires end <= |mem|
  {
    || (v == other && Silent(mem, pos, end, key, 0))
    || (v.Some? && exists i: nat :: LastWord(mem, pos, end, key, i, v.value))
  }

  /** Entry `i` says so, and none after it says anything. */
  ghost predicate LastWord(mem: seq<byte>, pos: nat, end: nat, key: nat, i: nat, value: u64)
    requires end <= |mem|
  {
    Says(mem, pos, end, key, i, value) && Silent(mem, pos, end, key, i + 1)
  }

  const KEYS: set<nat> := {2, 5, 6, 7, 8, 9, 10, 11, 18, 20, 23}

  function Field(d: Dynamic, key: nat): Option<u64> {
    match key
    case 2 => d.pltrelsz
    case 5 => d.strtab
    case 6 => d.symtab
    case 7 => d.rela
    case 8 => d.relasz
    case 9 => d.relaent
    case 10 => d.strsz
    case 11 => d.syment
    case 18 => Some(d.relsz)
    case 20 => d.pltrel
    case 23 => d.jmprel
    case _ => None
  }

  lemma SaysShift(mem: seq<byte>, pos: nat, end: nat, key: nat, i: nat, value: u64)
    requires end <= |mem| && pos + 16 <= end && ReadWord(mem, pos) != 0
    ensures Says(mem, pos, end, key, i + 1, value) <==> Says(mem, pos + 16, end, key, i, value)
  {
    hide WordOf, InTable;
    TableShift(mem, pos, pos + 16, end, i);
    assert InTable(mem, pos, end, i + 1) ==> EntryAt(pos, i + 1) + 16 <= end by {
      InTableFits(mem, pos, end, i + 1);
    }
    assert InTable(mem, pos + 16, end, i) ==> EntryAt(pos + 16, i) + 16 <= end by {
      InTableFits(mem, pos + 16, end, i);
    }
  }

  lemma InTableFits(mem: seq<byte>, pos: nat, end: nat, i: nat)
    requires end <= |mem|
    ensures InTable(mem, pos, end, i) ==> pos + 16 * i + 16 <= end
  {
  }

  lemma SilentShift(mem: seq<byte>, pos: nat, end: nat, key: nat, from: nat)
    requires end <= |mem| && pos + 16 <= end && ReadWord(mem, pos) != 0 && Silent(mem, pos + 16, end, key, from)
    ensures Silent(mem, pos, end, key, from + 1)
  {
    hide Says, WordOf;
    forall i: nat, value: u64 | from + 1 <= i
      ensures !Says(mem, pos, end, key, i, value)
    {
      SaysShift(mem, pos, end, key, i - 1, value);
    }
  }

  lemma {:induction false} ScanTells(mem: seq<byte>, pos: nat, end: nat, d: Dynamic, key: nat)
    requires end <= |mem| && ScanDynamic(mem, pos, end, d).Some? && key in KEYS
    ensures Told(mem, pos, end, key, Field(d, key), Field(ScanDynamic(mem, pos, end, d).value, key))
    decreases end - pos
  {
    hide WordOf, Says, Silent, Update, Field;
    var r := ScanDynamic(mem, pos, end, d).value;
    if ReadWord(mem, pos) == 0 {
      NothingSaid(mem, pos, end, key);
    } else {
      var tag, value := ReadWord(mem, pos), ReadWord(mem, pos + 8);
      ScanTells(mem, pos + 16, end, Update(d, tag, value), key);
      var v, next := Field(r, key), pos + 16;
      if i: nat :| v.Some? && LastWord(mem, next, end, key, i, v.value) {
        SaysShift(mem, pos, end, key, i, v.value);
        SilentShift(mem, pos, end, key, i + 1);
        assert LastWord(mem, pos, end, key, i + 1, v.value);
      } else {
        SilentShift(mem, pos, end, key, 0);
        FirstSays(mem, pos, end, d, key);
      }
    }
  }

  lemma NothingSaid(mem: seq<byte>, pos: nat, end: nat, key: nat)
    requires end <= |mem| && pos + 16 <= end && ReadWord(mem, pos) == 0
    ensures Silent(mem, pos, end, key, 0)
  {
    hide WordOf;
    assert EntryAt(pos, 0) == pos;
  }

  /** If the entries after the first say nothing, the first decides. */
  lemma FirstSays(mem: seq<byte>, pos: nat, end: nat, d: Dynamic, key: nat)
    requires end <= |mem| && pos + 16 <= end && ReadWord(mem, pos) != 0 && Silent(mem, pos, end, key, 1) && key in KEYS
    ensures Told(mem, pos, end, key, Field(d, key),
                 Field(Update(d, ReadWord(mem, pos), ReadWord(mem, pos + 8)), key))
  {
    hide WordOf;
    var v := Field(Update(d, ReadWord(mem, pos), ReadWord(mem, pos + 8)), key);
    FirstThere(mem, pos, end);
    assert v.Some? && Says(mem, pos, end, key, 0, v.value) ==> LastWord(mem, pos, end, key, 0, v.value);
  }

  /** Every field is what the last entry with its tag says, and missing exactly if there is no such entry. */
  lemma DynamicIs(mem: seq<byte>, pos: nat, end: nat)
    requires end <= |mem| && ScanDynamic(mem, pos, end, NO_DYNAMIC).Some?
    ensures var d := ScanDynamic(mem, pos, end, NO_DYNAMIC).value;
            && Told(mem, pos, end, 5, None, d.strtab) && Told(mem, pos, end, 10, None, d.strsz)
            && Told(mem, pos, end, 6, None, d.symtab) && Told(mem, pos, end, 11, None, d.syment)
            && Told(mem, pos, end, 7, None, d.rela) && Told(mem, pos, end, 8, None, d.relasz)
            && Told(mem, pos, end, 9, None, d.relaent) && Told(mem, pos, end, 23, None, d.jmprel)
            && Told(mem, pos, end, 2, None, d.pltrelsz) && Told(mem, pos, end, 20, None, d.pltrel)
            && Told(mem, pos, end, 18, Some(0), Some(d.relsz))
  {
    hide Told, ScanDynamic;
    ScanTells(mem, pos, end, NO_DYNAMIC, 2);
    ScanTells(mem, pos, end, NO_DYNAMIC, 5);
    ScanTells(mem, pos, end, NO_DYNAMIC, 6);
    ScanTells(mem, pos, end, NO_DYNAMIC, 7);
    ScanTells(mem, pos, end, NO_DYNAMIC, 8);
    ScanTells(mem, pos, end, NO_DYNAMIC, 9);
    ScanTells(mem, pos, end, NO_DYNAMIC, 10);
    ScanTells(mem, pos, end, NO_DYNAMIC, 11);
    ScanTells(mem, pos, end, NO_DYNAMIC, 18);
    ScanTells(mem, pos, end, NO_DYNAMIC, 20);
    ScanTells(mem, pos, end, NO_DYNAMIC, 23);
  }

  /* ----- What the headers say ----- */

  /** A program header, laid out as ELF-64 lays it out, is read back field by field. */
  lemma ProgramLayout(file: seq<byte>, phoff: nat, i: nat, kind: u32, flags: u32, offset: u64, vaddr: u64, paddr: u64,
                      filesz: u64, memsz: u64, align: u64)
    requires phoff + 56 * (i + 1) <= |file|
    requires file[phoff + 56 * i..phoff + 56 * i + 56] ==
             ToLE(kind, 4) + ToLE(flags, 4) + Word(offset) + Word(vaddr) + Word(paddr) + Word(filesz) + Word(memsz) +
             Word(align)
    ensures HasPrograms(file, phoff, i + 1)
    ensures ProgramAt(file, phoff, i) == Program(kind, offset, vaddr, filesz, memsz)
  {
    hide Word, WordOf, ToLE, FromLE;
    var at := phoff + 56 * i;
    var header := file[at..at + 56];
    SliceOf(file, at, 56, 0, 4);
    SliceOf(file, at, 56, 8, 16);
    SliceOf(file, at, 56, 16, 24);
    SliceOf(file, at, 56, 32, 40);
    SliceOf(file, at, 56, 40, 48);
    assert header[0..4] == ToLE(kind, 4) && header[8..16] == Word(offset) && header[16..24] == Word(vaddr);
    assert header[32..40] == Word(filesz) && header[40..48] == Word(memsz);
    Pow256Of4();
    LERoundTrip(kind, 4);
    WordRoundTrip(offset);
    WordRoundTrip(vaddr);
    WordRoundTrip(filesz);
    WordRoundTrip(memsz);
  }

  /** The identification of a 64-bit little-endian object of version 1, and the sizes its header names. */
  predicate Identified(file: seq<byte>)
    requires |file| >= 64
  {
    && file[0] == 0x7F && file[1] == 'E' as int && file[2] == 'L' as int && file[3] == 'F' as int
    && file[4] == 2 && file[5] == 1 && file[6] == 1 && FromLE(file[20..24]) == 1
    && FromLE(file[52..54]) == 64 && FromLE(file[54..56]) == 56 && FromLE(file[56..58]) != 0
  }

  /** A segment that can be loaded: its bytes are in the file, and its end is an address. */
  predicate SegmentFits(p: Program, total: nat) {
    p.kind == 1 ==> p.filesz <= p.memsz && p.offset + p.filesz <= total && p.vaddr + p.memsz < 0x1_0000_0000_0000_0000
  }

  /** The program headers are in the file; every segment fits, one is loaded, and one is the dynamic table. */
  ghost predicate Programs(file: seq<byte>)
    requires |file| >= 64
  {
    var phoff, n := WordOf(file[32..40]), FromLE(file[56..58]);
    && phoff + 56 * n <= |file|
    && (forall i: nat :: i < n ==> SegmentFits(ProgramAt(file, phoff, i), |file|))
    && (exists i: nat :: i < n && TakesRoom(ProgramAt(file, phoff, i)))
    && (exists i: nat :: i < n && ProgramAt(file, phoff, i).kind == 2)
  }

  predicate TakesRoom(p: Program) {
    p.kind == 1 && p.memsz > 0
  }

  lemma {:induction false} ScanAccepts(file: seq<byte>, phoff: nat, n: nat)
    requires HasPrograms(file, phoff, n)
    ensures ScanPrograms(file, phoff, n).Some? <==>
            forall i: nat :: i < n ==> SegmentFits(ProgramAt(file, phoff, i), |file|)
    ensures ScanPrograms(file, phoff, n).Some? ==>
              var e := ScanPrograms(file, phoff, n).value;
              && (e.hasDynamic <==> exists i: nat :: i < n && ProgramAt(file, phoff, i).kind == 2)
              && (e.base < e.end <==> exists i: nat :: i < n && TakesRoom(ProgramAt(file, phoff, i)))
              && (e.base < e.end || (e.base == 0xFFFF_FFFF_FFFF_FFFF && e.end == 0))
    decreases n
  {
    hide ProgramAt;
    if n > 0 {
      ScanAccepts(file, phoff, n - 1);
      var p := ProgramAt(file, phoff, n - 1);
      Wrap(p.vaddr + p.memsz);
    }
  }

  /** The header check: -1 for too few bytes, -3 for another type or machine, -2 for anything else that is wrong. */
  lemma HeaderIs(file: seq<byte>)
    ensures HeaderCode(file) ==
            if |file| < 64 then -1
            else if !Identified(file) then -2
            else if FromLE(file[16..18]) != 3 || FromLE(file[18..20]) != 62 then -3
            else if !Programs(file) then -2
            else 0
  {
    hide WordOf, FromLE, ScanPrograms, ProgramAt;
    if |file| >= 64 {
      assert file[..4] == [file[0], file[1], file[2], file[3]];
      var phoff, n := WordOf(file[32..40]), FromLE(file[56..58]);
      if phoff + 56 * n <= |file| {
        ScanAccepts(file, phoff, n);
      }
    }
  }

  /* ----- The dependencies and the end of the table ----- */

  /** The dynamic table has a terminator. */
  ghost predicate Terminated(mem: seq<byte>, pos: nat, end: nat)
    requires end <= |mem|
  {
    exists i: nat :: EntryAt(pos, i) + 16 <= end && ReadWord(mem, EntryAt(pos, i)) == 0
  }

  lemma {:induction false} ScanEnds(mem: seq<byte>, pos: nat, end: nat, d: Dynamic)
    requires end <= |mem|
    ensures ScanDynamic(mem, pos, end, d).Some? <==> Terminated(mem, pos, end)
    decreases end - pos
  {
    hide ReadWord, Update;
    assert EntryAt(pos, 0) == pos;
    if pos + 16 <= end && ReadWord(mem, pos) != 0 {
      ScanEnds(mem, pos + 16, end, Update(d, ReadWord(mem, pos), ReadWord(mem, pos + 8)));
      var next := pos + 16;
      if i: nat :| EntryAt(pos, i) + 16 <= end && ReadWord(mem, EntryAt(pos, i)) == 0 {
        assert EntryAt(pos, i) == EntryAt(next, i - 1);
      }
      if i: nat :| EntryAt(next, i) + 16 <= end && ReadWord(mem, EntryAt(next, i)) == 0 {
        assert EntryAt(next, i) == EntryAt(pos, i + 1);
      }
    }
  }

  /** Entry `i` is the first dependency that fails: -5 if it has no name, -6 if it could not be loaded. */
  ghost predicate FirstMissing(mem: seq<byte>, pos: nat, end: nat, strings: Option<seq<byte>>, load: Str -> bool,
                               i: nat, code: int)
    requires end <= |mem|
  {
    && InTable(mem, pos, end, i) && !EntryOk(mem, pos, end, i, strings, load)
    && (forall j: nat :: j < i ==> EntryOk(mem, pos, end, j, strings, load))
    && (code == if strings.Some? && Ends(strings.value, ReadWord(mem, EntryAt(pos, i) + 8)) then -6 else -5)
  }

  lemma {:induction false} NeededStops(mem: seq<byte>, pos: nat, end: nat, strings: Option<seq<byte>>,
                                       load: Str -> bool)
    requires end <= |mem| && Needed(mem, pos, end, strings, load) != OK
    ensures exists i: nat :: FirstMissing(mem, pos, end, strings, load, i, Needed(mem, pos, end, strings, load))
    decreases end - pos
  {
    hide ReadWord, BoundedString, InTable, EntryOk, FirstMissing;
    var code := Needed(mem, pos, end, strings, load);
    FirstThere(mem, pos, end);
    if ReadWord(mem, pos) == 1 && !Satisfied(strings, ReadWord(mem, pos + 8), load) {
      MissingHere(mem, pos, end, strings, load, code);
    } else {
      NeededStops(mem, pos + 16, end, strings, load);
      var i: nat :| FirstMissing(mem, pos + 16, end, strings, load, i, code);
      MissingLater(mem, pos, pos + 16, end, strings, load, i, code);
    }
  }

  lemma MissingHere(mem: seq<byte>, pos: nat, end: nat, strings: Option<seq<byte>>, load: Str -> bool, code: int)
    requires end <= |mem| && pos + 16 <= end && ReadWord(mem, pos) == 1 && InTable(mem, pos, end, 0)
    requires !Satisfied(strings, ReadWord(mem, pos + 8), load)
    requires code == if strings.Some? && BoundedString(strings.value, ReadWord(mem, pos + 8)).Some? then -6 else -5
    ensures FirstMissing(mem, pos, end, strings, load, 0, code)
  {
    hide ReadWord, BoundedString;
    assert EntryAt(pos, 0) == pos;
  }

  lemma MissingLater(mem: seq<byte>, pos: nat, next: nat, end: nat, strings: Option<seq<byte>>, load: Str -> bool,
                     i: nat, code: int)
    requires end <= |mem| && next == pos + 16 <= end && ReadWord(mem, pos) != 0
    requires ReadWord(mem, pos) == 1 ==> Satisfied(strings, ReadWord(mem, pos + 8), load)
    requires FirstMissing(mem, next, end, strings, load, i, code)
    ensures FirstMissing(mem, pos, end, strings, load, i + 1, code)
  {
    hide ReadWord, Satisfied, InTable, Ends;
    assert EntryAt(pos, 0) == pos;
    TableShift(mem, pos, next, end, i);
    forall j: nat | j < i + 1
      ensures EntryOk(mem, pos, end, j, strings, load)
    {
      if j > 0 {
        TableShift(mem, pos, next, end, j - 1);
        assert EntryOk(mem, next, end, j - 1, strings, load);
      }
    }
  }

  /* ----- Up to the relocations ----- */

  /** Header `k` is the last that names the dynamic table. */
  ghost predicate LastDynamic(file: seq<byte>, phoff: nat, n: nat, k: nat)
    requires HasPrograms(file, phoff, n)
  {
    && k < n && ProgramAt(file, phoff, k).kind == 2
    && forall j: nat :: k < j < n ==> ProgramAt(file, phoff, j).kind != 2
  }

  lemma {:induction false} DynamicFound(file: seq<byte>, phoff: nat, n: nat) returns (k: nat)
    requires HasPrograms(file, phoff, n) && ScanPrograms(file, phoff, n).Some?
    requires ScanPrograms(file, phoff, n).value.hasDynamic
    ensures LastDynamic(file, phoff, n, k)
    ensures var e, p := ScanPrograms(file, phoff, n).value, ProgramAt(file, phoff, k);
            e.dynamic == p.vaddr && e.dynamicSize == p.memsz
    decreases n
  {
    hide ProgramAt, Acceptable;
    if ProgramAt(file, phoff, n - 1).kind == 2 {
      k := n - 1;
    } else {
      k := DynamicFound(file, phoff, n - 1);
    }
  }

  /** The dynamic table of an image is in order: its strings, its dependencies, and the form of its relocations. */
  ghost predicate InOrder(mem: seq<byte>, base: u64, span: nat, pos: nat, end: nat, d: Dynamic, load: Str -> bool)
    requires span <= |mem| && end <= |mem|
  {
    && (d.strtab.Some? && d.strsz.Some? ==> base <= d.strtab.value && d.strtab.value - base + d.strsz.value <= span)
    && AllOk(mem, pos, end, StringsOf(mem, base, d), load)
    && d.relsz == 0 && (OrZero(d.relasz) != 0 ==> d.rela.Some? && d.relaent == Some(24))
  }

  /** The bytes of the string table, if there is one and it is in memory. */
  function StringsOf(mem: seq<byte>, base: u64, d: Dynamic): Option<seq<byte>> {
    if d.strtab.Some? && d.strsz.Some? && base <= d.strtab.value && d.strtab.value - base + d.strsz.value <= |mem| then
      Some(mem[d.strtab.value - base..d.strtab.value - base + d.strsz.value])
    else None
  }

  /** Why the dynamic table is not in order. */
  ghost predicate OutOfOrder(mem: seq<byte>, base: u64, span: nat, pos: nat, end: nat, d: Dynamic, load: Str -> bool,
                             code: int)
    requires span <= |mem| && end <= |mem|
  {
    if d.strtab.Some? && d.strsz.Some?
       && !(base <= d.strtab.value && d.strtab.value - base + d.strsz.value <= span) then code == -5
    else if !AllOk(mem, pos, end, StringsOf(mem, base, d), load) then
      exists i: nat :: FirstMissing(mem, pos, end, StringsOf(mem, base, d), load, i, code)
    else code == if d.relsz != 0 then -3 else -5
  }

  lemma OrderIs(mem: seq<byte>, base: u64, span: nat, pos: nat, end: nat, d: Dynamic, load: Str -> bool)
    requires span <= |mem| && end <= |mem|
    ensures var code := DynamicCode(mem, pos, end, d, base, span, load);
            if InOrder(mem, base, span, pos, end, d, load) then code == 0
            else code != 0 && OutOfOrder(mem, base, span, pos, end, d, load, code)
  {
    hide Needed, AllOk, FirstMissing;
    if !StringsOutside(d, base, span) {
      var strings := Strings(mem, d, base, span);
      assert strings == StringsOf(mem, base, d);
      NeededOk(mem, pos, end, strings, load);
      if Needed(mem, pos, end, strings, load) != OK {
        NeededStops(mem, pos, end, strings, load);
      }
    }
  }

  /**
   An accepted file up to its relocations: the image spans the loaded segments; -4 if that is
   more than there is room for, -5 if the dynamic table is not in the image or has no
   terminator, and else what is wrong with it.
   */
  lemma PreparedIs(file: seq<byte>, mem: seq<byte>, load: Str -> bool) returns (k: nat, e: Extent)
    requires HeaderCode(file) == OK
    ensures |file| >= 64 && HasPrograms(file, WordOf(file[32..40]), FromLE(file[56..58])) && e.base < e.end
    ensures LastDynamic(file, WordOf(file[32..40]), FromLE(file[56..58]), k)
    ensures Tight(file, WordOf(file[32..40]), FromLE(file[56..58]), e)
    ensures var i, p := Prepare(file, mem, load), ProgramAt(file, WordOf(file[32..40]), k);
            var pos, end := p.vaddr - e.base, p.vaddr - e.base + p.memsz;
            if e.end - e.base > |mem| then i == Refused(-4, mem)
            else if p.memsz < 16 || p.vaddr < e.base || p.vaddr + p.memsz > e.end || !Terminated(i.mem, pos, end) then
              i == Refused(-5, i.mem)
            else
              var d := ScanDynamic(i.mem, pos, end, NO_DYNAMIC);
              && d.Some?
              && if InOrder(i.mem, e.base, e.end - e.base, pos, end, d.value, load) then
                   i == Image(i.mem, e.base, e.end - e.base, d.value, WordOf(file[24..32]))
                 else i.Refused? && OutOfOrder(i.mem, e.base, e.end - e.base, pos, end, d.value, load, i.code)
  {
    hide WordOf, FromLE, ScanPrograms, ProgramAt, Copied, ScanDynamic, DynamicCode, AllFit, Tight;
    hide InOrder, OutOfOrder, Terminated, HeaderCode, WellFormed;
    HeaderFacts(file);
    var phoff, n := ReadWord(file, 32), Read(file, 56, 2);
    e := ScanPrograms(file, phoff, n).value;
    HasOne(file);
    ScanIsTight(file, phoff, n);
    k := DynamicFound(file, phoff, n);
    var p, i := ProgramAt(file, phoff, k), Prepare(file, mem, load);
    var pos, end := p.vaddr - e.base, p.vaddr - e.base + p.memsz;
    if e.end - e.base <= |mem| && p.memsz >= 16 && p.vaddr >= e.base && p.vaddr + p.memsz <= e.end {
      ScanEnds(i.mem, pos, end, NO_DYNAMIC);
      if Terminated(i.mem, pos, end) {
        OrderIs(i.mem, e.base, e.end - e.base, pos, end, ScanDynamic(i.mem, pos, end, NO_DYNAMIC).value, load);
      }
    }
  }

  lemma HasOne(file: seq<byte>)
    requires HeaderCode(file) == OK
    ensures |file| >= 64 && HasPrograms(file, ReadWord(file, 32), Read(file, 56, 2))
    ensures var e := ScanPrograms(file, ReadWord(file, 32), Read(file, 56, 2)); e.Some? && e.value.hasDynamic
  {
    hide ReadWord, Read, ScanPrograms, HasPrograms, WellFormed;
  }

  /* ----- The loaded image ----- */

  /** Every word that an entry of the relocation table at `address` aims at is what the entry says. */
  ghost predicate TableWords(i: Image, resolve: Str -> Option<u64>, bias: u64, address: Option<u64>,
                             size: Option<u64>, m: seq<byte>)
    requires i.Image?
  {
    forall k: nat :: 24 * k < OrZero(size) ==>
      address.Some? && WordIs(i, resolve, bias, RelaPlace(i, OrZero(address), k), m)
  }

  /** Where entry `k` of a table at virtual address `address` lies in the image. */
  function RelaPlace(i: Image, address: u64, k: nat): int
    requires i.Image?
  {
    address - i.base + 24 * k
  }

  ghost predicate WordIs(i: Image, resolve: Str -> Option<u64>, bias: u64, at: int, m: seq<byte>)
    requires i.Image?
  {
    0 <= at && at + 24 <= |i.mem| && TargetIs(i.mem, i.base, i.dynamic, resolve, bias, at, m)
  }

  /** A relocation table is empty, or lies in the image with whole entries and the tables its entries need. */
  predicate TableFits(i: Image, address: Option<u64>, size: Option<u64>)
    requires i.Image?
  {
    var d, a, n := i.dynamic, OrZero(address), OrZero(size);
    n == 0 || (n % 24 == 0 && d.symtab.Some? && d.syment == Some(24) && d.strtab.Some? && d.strsz.Some?
               && i.base <= a && a - i.base + n <= i.span)
  }

  /** What is wrong once the entries are done with: -5 for a table, -3 for the kind of the second, -2 for the entry. */
  lemma RestIs(i: Image)
    requires i.Image?
    ensures var d := i.dynamic;
            RestCode(i) ==
            if !TableFits(i, d.rela, d.relasz) then -5
            else if OrZero(d.pltrelsz) != 0 && (d.jmprel.None? || d.pltrel != Some(7)) then -3
            else if !TableFits(i, d.jmprel, d.pltrelsz) then -5
            else if !(i.base <= i.entry < i.base + i.span) then -2
            else 0
  {
  }

  lemma EntriesHaveSymbols(i: Image)
    requires i.Image? && AllEntries(i) != []
    ensures i.dynamic.symtab.Some? && i.dynamic.strtab.Some? && i.dynamic.strsz.Some?
  {
    hide InImage;
  }

  lemma PreparedTables(file: seq<byte>, mem: seq<byte>, load: Str -> bool)
    requires Prepare(file, mem, load).Image?
    ensures var i := Prepare(file, mem, load);
            && |file| >= 64 && i.entry == WordOf(file[24..32])
            && (OrZero(i.dynamic.relasz) != 0 ==> i.dynamic.rela.Some? && i.dynamic.relaent == Some(24))
  {
    hide ReadWord, Read, ScanDynamic, ProgramAt, Copied, ScanPrograms, AllFit, InImage, Needed, StringsOutside;
    hide WordOf, FromLE, Strings, HasPrograms, WellFormed;
    HeaderFacts(file);
    EntryWord(file);
  }

  lemma EntryWord(file: seq<byte>)
    requires |file| >= 64
    ensures ReadWord(file, 24) == WordOf(file[24..32])
  {
    hide WordOf;
  }

  /** The entries of both tables are among all entries. */
  lemma TablesListed(i: Image, at: int, k: nat)
    requires i.Image? && RestCode(i) == OK
    requires var d := i.dynamic;
             || (24 * k < OrZero(d.relasz) && at == RelaPlace(i, OrZero(d.rela), k))
             || (24 * k < OrZero(d.pltrelsz) && at == RelaPlace(i, OrZero(d.jmprel), k))
    ensures at in AllEntries(i)
  {
    hide InImage;
    var d := i.dynamic;
    var one := TableEntries(i.base, i.span, d, OrZero(d.rela), OrZero(d.relasz));
    var two := TableEntries(i.base, i.span, d, OrZero(d.jmprel), OrZero(d.pltrelsz));
    if 24 * k < OrZero(d.relasz) && at == RelaPlace(i, OrZero(d.rela), k) {
      assert one[k] == at;
      assert (one + two)[k] == at && (one + [])[k] == at;
    } else {
      assert two[k] == at;
      assert (one + two)[|one| + k] == at;
    }
  }

  /**
   The whole of `load_elf64`. Where no target overlaps a later target or what a later entry
   reads, the first `n` entries have left the words they ask for, and every byte off their
   targets is that of the last segment bringing one, or zero. It stops at the first entry
   that is refused, with the code for that reason; else every entry of both tables is done.
   */
  lemma LoadedImage(file: seq<byte>, mem: seq<byte>, load: Str -> bool, resolve: Str -> Option<u64>, bias: u64)
    returns (n: nat)
    requires var i := Prepare(file, mem, load);
             i.Image? && Separate(i.mem, ContextOf(i.base, i.span, i.dynamic, resolve), AllEntries(i))
    ensures var i, r := Prepare(file, mem, load), Load(file, mem, load, resolve, bias);
            var d, ats := i.dynamic, AllEntries(i);
            && n <= |ats| && (forall k :: 0 <= k < n ==> WordIs(i, resolve, bias, ats[k], r.mem))
            && (n == |ats| ==> r.code == RestCode(i))
            && (n < |ats| ==> RefusedAt(i, resolve, ats[n], r.code))
            && (forall q: nat :: q < |mem| && OffTargets(i.mem, ContextOf(i.base, i.span, d, resolve), ats[..n], q) ==>
                  ShowsFile(file, mem, i, q, r.mem[q]))
            && (r.code == 0 ==>
                  && n == |ats| && TableWords(i, resolve, bias, d.rela, d.relasz, r.mem)
                  && TableWords(i, resolve, bias, d.jmprel, d.pltrelsz, r.mem)
                  && |file| >= 64 && r.entry == (bias + WordOf(file[24..32])) % 0x1_0000_0000_0000_0000
                  && r.size == i.span)
  {
    hide Prepare, Load, Separate, AllEntries, RestCode, Stored, ShowsFile, OffTargets, Relocation, TargetIs, Refuses;
    hide WordOf;
    n := LoadedEntries(file, mem, load, resolve, bias);
    var i, r := Prepare(file, mem, load), Load(file, mem, load, resolve, bias);
    var d, ats := i.dynamic, AllEntries(i);
    PreparedTables(file, mem, load);
    if ats != [] {
      EntriesHaveSymbols(i);
      forall k | 0 <= k < n
        ensures WordIs(i, resolve, bias, ats[k], r.mem)
      {
        StoredIs(i.mem, i.base, i.span, d, resolve, bias, ats[k], r.mem);
      }
      if n < |ats| {
        RefusedIs(i.mem, i.base, i.span, d, resolve, bias, ats[n], r.code);
      }
    }
    if r.code == 0 {
      AllWords(i, resolve, bias, r.mem);
    }
  }

  ghost predicate RefusedAt(i: Image, resolve: Str -> Option<u64>, at: nat, code: int)
    requires i.Image?
  {
    && i.span <= |i.mem| && at + 24 <= |i.mem|
    && i.dynamic.symtab.Some? && i.dynamic.strtab.Some? && i.dynamic.strsz.Some?
    && Refuses(i.mem, i.base, i.span, i.dynamic, resolve, at, code)
  }

  lemma AllWords(i: Image, resolve: Str -> Option<u64>, bias: u64, m: seq<byte>)
    requires i.Image? && RestCode(i) == OK && (OrZero(i.dynamic.relasz) != 0 ==> i.dynamic.rela.Some?)
    requires forall k :: 0 <= k < |AllEntries(i)| ==> WordIs(i, resolve, bias, AllEntries(i)[k], m)
    ensures TableWords(i, resolve, bias, i.dynamic.rela, i.dynamic.relasz, m)
    ensures TableWords(i, resolve, bias, i.dynamic.jmprel, i.dynamic.pltrelsz, m)
  {
    hide WordIs, AllEntries, RestCode;
    RestIs(i);
    var d := i.dynamic;
    forall k: nat | 24 * k < OrZero(d.relasz)
      ensures WordIs(i, resolve, bias, RelaPlace(i, OrZero(d.rela), k), m)
    {
      TablesListed(i, RelaPlace(i, OrZero(d.rela), k), k);
    }
    forall k: nat | 24 * k < OrZero(d.pltrelsz)
      ensures WordIs(i, resolve, bias, RelaPlace(i, OrZero(d.jmprel), k), m)
    {
      TablesListed(i, RelaPlace(i, OrZero(d.jmprel), k), k);
    }
  }
}
