/**
 The dynamic linker's RELA relocations (System V ABI AMD64 supplement, section 4.4),
 applied in order to a flat image in memory, and what changes when the load bias does.
 */
module DynRelocs {
  import opened Bytes

  const OK: int := 0
  const INVALID_ELF: int := -2
  const UNSUPPORTED: int := -3
  const INSUFFICIENT_MEMORY: int := -4
  const INVALID_DYNAMIC_TABLE: int := -5
  const DEPENDENCY_ERROR: int := -6
  const UNRESOLVED_SYMBOL: int := -7
  const UNSUPPORTED_RELOCATION: int := -8
  const INVALID_ARGUMENT: int := -1

  const R_64: nat := 1
  const R_GLOB_DAT: nat := 6
  const R_JUMP_SLOT: nat := 7
  const R_RELATIVE: nat := 8

  const SHN_UNDEF: nat := 0
  const SHN_ABS: nat := 0xFFF1
  const STB_WEAK: nat := 2

  const RELA_SIZE: nat := 24
  const SYMBOL_SIZE: nat := 24

  /** The little-endian field of `n` bytes at `at`. */
  function Read(mem: seq<byte>, at: nat, n: nat): nat
    requires at + n <= |mem|
  {
    FromLE(mem[at..at + n])
  }

  function ReadWord(mem: seq<byte>, at: nat): u64
    requires at + 8 <= |mem|
  {
    WordOf(mem[at..at + 8])
  }

  /** `image_range`: whether `length` bytes at a virtual address lie in the image. */
  predicate InImage(address: u64, length: nat, base: u64, span: nat) {
    address >= base && address - base <= span && length <= span - (address - base)
  }

  /** `bounded_string`: the characters from `offset` up to a zero byte inside the table. */
  function BoundedString(strings: seq<byte>, offset: nat): (r: Option<Str>)
    ensures r.Some? <==> exists i :: offset <= i < |strings| && strings[i] == 0
    ensures r.Some? ==> offset + |r.value| < |strings| && strings[offset + |r.value|] == 0
    ensures r.Some? ==> strings[offset..offset + |r.value|] == r.value
    decreases |strings| - offset
  {
    if offset >= |strings| then None
    else if strings[offset] == 0 then Some([])
    else match BoundedString(strings, offset + 1)
      case None => None
      case Some(rest) => Some([strings[offset]] + rest)
  }

  datatype Rela = Rela(offset: u64, info: u64, addend: u64) {
    function Type(): nat { info % U32 }
    function Index(): nat { info / U32 }
    predicate Symbolic() { Type() in {R_64, R_GLOB_DAT, R_JUMP_SLOT} }
  }

  function RelaAt(mem: seq<byte>, at: nat): Rela
    requires at + RELA_SIZE <= |mem|
  {
    Rela(ReadWord(mem, at), ReadWord(mem, at + 8), ReadWord(mem, at + 16))
  }

  datatype Symbol = Symbol(name: nat, info: byte, section: nat, value: u64)

  function SymbolAt(mem: seq<byte>, at: nat): Symbol
    requires at + SYMBOL_SIZE <= |mem|
  {
    Symbol(Read(mem, at, 4), mem[at + 4], Read(mem, at + 6, 2), ReadWord(mem, at + 8))
  }

  /** Where the image lies, its symbol and string tables, and the caller's resolver. */
  datatype Context = Context(base: u64, span: nat, symtab: u64, strtab: u64, strsz: u64, resolve: Str -> Option<u64>) {

    function SymbolAddress(index: nat): u64 {
      (symtab + index * SYMBOL_SIZE) % U64
    }

    predicate HasSymbol(index: nat) {
      InImage(SymbolAddress(index), SYMBOL_SIZE, base, span)
    }

    predicate HasStrings() {
      InImage(strtab, strsz, base, span)
    }
  }

  /* ----- One relocation ----- */

  /** What to store where, or the error to return. */
  datatype Store = Store(target: nat, value: u64) | Bad(code: int)

  /** The address a symbol stands for, or an error. */
  datatype Address = At(address: u64) | Unknown(code: int)

  /** The address of one symbol, whose name must end inside the string table. */
  function Meaning(symbol: Symbol, strings: seq<byte>, resolve: Str -> Option<u64>, bias: u64): (r: Address)
    ensures r.Unknown? ==> r.code != OK
  {
    match BoundedString(strings, symbol.name)
    case None => Unknown(INVALID_DYNAMIC_TABLE)
    case Some(name) =>
      if symbol.section == SHN_ABS then At(symbol.value)
      else if symbol.section != SHN_UNDEF then At((bias + symbol.value) % U64)
      else match resolve(name)
        case Some(address) => At(address)
        case None => if symbol.info / 16 == STB_WEAK then At(0) else Unknown(UNRESOLVED_SYMBOL)
  }

  function Lookup(mem: seq<byte>, c: Context, bias: u64, index: nat): (r: Address)
    requires c.span <= |mem|
    ensures r.Unknown? ==> r.code != OK
  {
    if (index * SYMBOL_SIZE) % U64 / SYMBOL_SIZE != index || !c.HasSymbol(index) then Unknown(INVALID_DYNAMIC_TABLE)
    else
      var symbol := SymbolAt(mem, c.SymbolAddress(index) - c.base);
      if !c.HasStrings() then Unknown(INVALID_DYNAMIC_TABLE)
      else
        var strings := c.strtab - c.base;
        Meaning(symbol, mem[strings..strings + c.strsz], c.resolve, bias)
  }

  /** The check of the symbol's distance in the table never fails: an index has 32 bits. */
  lemma DistanceFits(r: Rela)
    ensures r.Index() < U32 && r.Index() * SYMBOL_SIZE % U64 / SYMBOL_SIZE == r.Index()
  {
    IndexBound(r.info);
    assert r.Index() * SYMBOL_SIZE < U64;
  }

  lemma IndexBound(info: u64)
    ensures info / U32 < U32
  {
  }

  function Relocation(mem: seq<byte>, c: Context, bias: u64, at: nat): (r: Store)
    requires c.span <= |mem| && at + RELA_SIZE <= |mem|
    ensures r.Store? ==> r.target + 8 <= c.span
    ensures r.Bad? ==> r.code != OK
  {
    var rela := RelaAt(mem, at);
    if !InImage(rela.offset, 8, c.base, c.span) then Bad(INVALID_DYNAMIC_TABLE)
    else
      var target := rela.offset - c.base;
      if rela.Type() == R_RELATIVE then
        if rela.Index() != 0 then Bad(INVALID_DYNAMIC_TABLE) else Store(target, (bias + rela.addend) % U64)
      else if rela.Symbolic() then
        match Lookup(mem, c, bias, rela.Index())
        case Unknown(code) => Bad(code)
        case At(address) => Store(target, if rela.Type() == R_64 then (address + rela.addend) % U64 else address)
      else Bad(UNSUPPORTED_RELOCATION)
  }

  /** A defined symbol that is not absolute. */
  predicate Moves(mem: seq<byte>, c: Context, index: nat)
    requires c.span <= |mem|
  {
    c.HasSymbol(index) && SymbolAt(mem, c.SymbolAddress(index) - c.base).section !in {SHN_UNDEF, SHN_ABS}
  }

  lemma LookupRebased(mem: seq<byte>, c: Context, b: u64, b': u64, index: nat)
    requires c.span <= |mem|
    ensures var r, r' := Lookup(mem, c, b, index), Lookup(mem, c, b', index);
            && (r.Unknown? || r'.Unknown? ==> r' == r)
            && (r.At? && r'.At? ==>
                r'.address == if Moves(mem, c, index) then (r.address + b' - b) % U64 else r.address)
  {
    hide ReadWord, Read, BoundedString;
    if c.HasSymbol(index) {
      Shift(b, b', SymbolAt(mem, c.SymbolAddress(index) - c.base).value);
    }
  }

  /** The targets that follow the image: RELATIVE ones and those of defined symbols that are not absolute. */
  predicate Follows(mem: seq<byte>, c: Context, at: nat)
    requires c.span <= |mem| && at + RELA_SIZE <= |mem|
  {
    var rela := RelaAt(mem, at);
    rela.Type() == R_RELATIVE || (rela.Symbolic() && Moves(mem, c, rela.Index()))
  }

  /** What another bias does to one relocation: nothing, or exactly the difference modulo 2^64. */
  lemma RelocationRebased(mem: seq<byte>, c: Context, b: u64, b': u64, at: nat)
    requires c.span <= |mem| && at + RELA_SIZE <= |mem|
    ensures var r, r' := Relocation(mem, c, b, at), Relocation(mem, c, b', at);
            && (r.Bad? ==> r' == r) && (r'.Bad? ==> r' == r)
            && (r.Store? ==> r'.Store? && r'.target == r.target)
            && (r.Store? ==> r'.value == if Follows(mem, c, at) then (r.value + b' - b) % U64 else r.value)
  {
    hide ReadWord, Moves, Lookup;
    var rela := RelaAt(mem, at);
    if rela.Type() == R_RELATIVE {
      Shift(b, b', rela.addend);
    } else if rela.Symbolic() {
      LookupRebased(mem, c, b, b', rela.Index());
      var r := Lookup(mem, c, b, rela.Index());
      if r.At? {
        ShiftSum(r.address, b, b', rela.addend);
      }
    }
  }

  lemma Shift(b: u64, b': u64, x: u64)
    ensures (b' + x) % U64 == ((b + x) % U64 + b' - b) % U64
  {
    Wrap(b + x);
    Wrap(b' + x);
    Wrap((b + x) % U64 + b' - b);
  }

  lemma ShiftSum(x: u64, b: u64, b': u64, y: u64)
    ensures ((x + b' - b) % U64 + y) % U64 == ((x + y) % U64 + b' - b) % U64
  {
    Wrap(x + b' - b);
    Wrap(x + y);
    Wrap((x + b' - b) % U64 + y);
    Wrap((x + y) % U64 + b' - b);
  }

  lemma Wrap(a: int)
    requires 0 <= a + U64 && a < 2 * U64
    ensures a % U64 == if a < 0 then a + U64 else if a < U64 then a else a - U64
  {
  }

  /* ----- Relocations in order ----- */

  /** The memory so far, how many relocations were applied, and the error that stopped them, if any. */
  datatype Progress = Progress(mem: seq<byte>, applied: nat, code: int)

  function Step(p: Progress, c: Context, bias: u64, at: nat): (r: Progress)
    requires c.span <= |p.mem| && at + RELA_SIZE <= |p.mem|
    ensures |r.mem| == |p.mem|
  {
    if p.code != OK then p
    else match Relocation(p.mem, c, bias, at)
      case Bad(code) => p.(code := code)
      case Store(target, value) => Progress(Splice(p.mem, target, Word(value)), p.applied + 1, OK)
  }

  /** The relocation entries at `ats`, one after the other, each reading memory as the earlier ones left it. */
  function Relocate(mem: seq<byte>, c: Context, bias: u64, ats: seq<nat>): (r: Progress)
    requires c.span <= |mem| && forall i :: 0 <= i < |ats| ==> ats[i] + RELA_SIZE <= |mem|
    ensures |r.mem| == |mem|
  {
    if ats == [] then Progress(mem, 0, OK)
    else Step(Relocate(mem, c, bias, ats[..|ats| - 1]), c, bias, ats[|ats| - 1])
  }

  lemma {:induction false} RelocateAppend(mem: seq<byte>, c: Context, bias: u64, ats: seq<nat>, more: seq<nat>)
    requires c.span <= |mem|
    requires forall i :: 0 <= i < |ats| ==> ats[i] + RELA_SIZE <= |mem|
    requires forall i :: 0 <= i < |more| ==> more[i] + RELA_SIZE <= |mem|
    ensures var p := Relocate(mem, c, bias, ats);
            var q := Relocate(p.mem, c, bias, more);
            Relocate(mem, c, bias, ats + more) == if p.code != OK then p else q.(applied := p.applied + q.applied)
    decreases |more|
  {
    hide Relocation;
    if more == [] {
      assert ats + more == ats;
    } else {
      var init := more[..|more| - 1];
      RelocateAppend(mem, c, bias, ats, init);
      assert (ats + more)[..|ats + more| - 1] == ats + init;
    }
  }

  /* ----- What order does not matter for ----- */

  function Target(mem: seq<byte>, c: Context, at: nat): Option<nat>
    requires at + RELA_SIZE <= |mem|
  {
    var offset := RelaAt(mem, at).offset;
    if InImage(offset, 8, c.base, c.span) then Some(offset - c.base) else None
  }

  /** A word stored at `t` leaves alone what the relocation entry at `at` reads: itself, its symbol, the strings. */
  predicate Clear(mem: seq<byte>, c: Context, t: nat, at: nat)
    requires at + RELA_SIZE <= |mem|
  {
    var rela := RelaAt(mem, at);
    && !Overlap(t, 8, at, RELA_SIZE)
    && (rela.Symbolic() && c.HasSymbol(rela.Index()) ==>
          !Overlap(t, 8, c.SymbolAddress(rela.Index()) - c.base, SYMBOL_SIZE))
    && (rela.Symbolic() && c.HasStrings() ==> !Overlap(t, 8, c.strtab - c.base, c.strsz))
  }

  /** No target overlaps a later target or what a later entry reads. */
  ghost predicate Separate(mem: seq<byte>, c: Context, ats: seq<nat>)
    requires forall i :: 0 <= i < |ats| ==> ats[i] + RELA_SIZE <= |mem|
  {
    forall i, j :: 0 <= i < j < |ats| ==> Undisturbed(mem, c, ats[i], ats[j])
  }

  predicate Undisturbed(mem: seq<byte>, c: Context, first: nat, later: nat)
    requires first + RELA_SIZE <= |mem| && later + RELA_SIZE <= |mem|
  {
    Target(mem, c, first).Some? ==>
      && Clear(mem, c, Target(mem, c, first).value, later)
      && (Target(mem, c, later).Some? ==> !Overlap(Target(mem, c, first).value, 8, Target(mem, c, later).value, 8))
  }

  /** Memory `m` is `mem` but for the targets of the entries at `ats`. */
  ghost predicate OnlyTargets(mem: seq<byte>, m: seq<byte>, c: Context, ats: seq<nat>)
    requires |m| == |mem| && forall i :: 0 <= i < |ats| ==> ats[i] + RELA_SIZE <= |mem|
  {
    forall q :: 0 <= q < |mem| && m[q] != mem[q] ==> exists i :: 0 <= i < |ats| && Covers(mem, c, ats[i], q)
  }

  predicate Covers(mem: seq<byte>, c: Context, at: nat, q: nat)
    requires at + RELA_SIZE <= |mem|
  {
    Target(mem, c, at).Some? && Target(mem, c, at).value <= q < Target(mem, c, at).value + 8
  }

  lemma SameRange(mem: seq<byte>, m: seq<byte>, at: nat, n: nat)
    requires |m| == |mem| && at + n <= |mem| && forall q :: at <= q < at + n ==> m[q] == mem[q]
    ensures m[at..at + n] == mem[at..at + n]
  {
  }

  lemma SameRela(mem: seq<byte>, m: seq<byte>, at: nat)
    requires |m| == |mem| && at + RELA_SIZE <= |mem| && forall q :: at <= q < at + RELA_SIZE ==> m[q] == mem[q]
    ensures RelaAt(m, at) == RelaAt(mem, at)
  {
    hide WordOf;
    SameRange(mem, m, at, 8);
    SameRange(mem, m, at + 8, 8);
    SameRange(mem, m, at + 16, 8);
  }

  lemma SameSymbol(mem: seq<byte>, m: seq<byte>, at: nat)
    requires |m| == |mem| && at + SYMBOL_SIZE <= |mem| && forall q :: at <= q < at + SYMBOL_SIZE ==> m[q] == mem[q]
    ensures SymbolAt(m, at) == SymbolAt(mem, at)
  {
    hide WordOf, FromLE;
    SameRange(mem, m, at, 4);
    SameRange(mem, m, at + 6, 2);
    SameRange(mem, m, at + 8, 8);
  }

  predicate Same(mem: seq<byte>, m: seq<byte>, at: nat, n: nat)
    requires |m| == |mem| && at + n <= |mem|
  {
    forall q :: at <= q < at + n ==> m[q] == mem[q]
  }

  lemma LookupFrame(mem: seq<byte>, m: seq<byte>, c: Context, bias: u64, index: nat)
    requires |m| == |mem| && c.span <= |mem|
    requires c.HasSymbol(index) ==> Same(mem, m, c.SymbolAddress(index) - c.base, SYMBOL_SIZE)
    requires c.HasStrings() ==> Same(mem, m, c.strtab - c.base, c.strsz)
    ensures Lookup(m, c, bias, index) == Lookup(mem, c, bias, index)
  {
    hide SymbolAt, BoundedString;
    if c.HasSymbol(index) {
      SameSymbol(mem, m, c.SymbolAddress(index) - c.base);
    }
    if c.HasStrings() {
      SameRange(mem, m, c.strtab - c.base, c.strsz);
    }
  }

  /** Every difference between `m` and `mem` is in a word that leaves alone what the entry at `at` reads. */
  ghost predicate Spared(mem: seq<byte>, m: seq<byte>, c: Context, at: nat)
    requires |m| == |mem| && at + RELA_SIZE <= |mem|
  {
    forall q :: 0 <= q < |mem| && m[q] != mem[q] ==> exists t: nat :: Clear(mem, c, t, at) && t <= q < t + 8
  }

  lemma SparedSame(mem: seq<byte>, m: seq<byte>, c: Context, at: nat)
    requires |m| == |mem| && c.span <= |mem| && at + RELA_SIZE <= |mem| && Spared(mem, m, c, at)
    ensures Same(mem, m, at, RELA_SIZE)
    ensures var rela := RelaAt(mem, at);
            && (rela.Symbolic() && c.HasSymbol(rela.Index()) ==>
                Same(mem, m, c.SymbolAddress(rela.Index()) - c.base, SYMBOL_SIZE))
            && (rela.Symbolic() && c.HasStrings() ==> Same(mem, m, c.strtab - c.base, c.strsz))
  {
    hide RelaAt;
  }

  /** A relocation reads nothing but its entry, its symbol and the strings. */
  lemma RelocationFrame(mem: seq<byte>, m: seq<byte>, c: Context, bias: u64, at: nat)
    requires |m| == |mem| && c.span <= |mem| && at + RELA_SIZE <= |mem| && Spared(mem, m, c, at)
    ensures Relocation(m, c, bias, at) == Relocation(mem, c, bias, at)
  {
    hide RelaAt, Lookup, Spared;
    SparedSame(mem, m, c, at);
    SameRela(mem, m, at);
    var rela := RelaAt(mem, at);
    if rela.Symbolic() {
      LookupFrame(mem, m, c, bias, rela.Index());
    }
  }

  /* ----- What a table of relocations does ----- */

  /**
   With separate targets, what each relocation stores depends on the memory before any of
   them: those before the first bad one are all in place, and nothing else has changed.
   */
  ghost predicate Placed(mem: seq<byte>, c: Context, bias: u64, ats: seq<nat>, p: Progress)
    requires c.span <= |mem| == |p.mem| && forall i :: 0 <= i < |ats| ==> ats[i] + RELA_SIZE <= |mem|
  {
    && p.applied <= |ats| && (p.code == OK <==> p.applied == |ats|)
    && (p.code != OK ==> Relocation(mem, c, bias, ats[p.applied]) == Bad(p.code))
    && (forall i :: 0 <= i < p.applied ==> Stored(mem, c, bias, ats[i], p.mem))
    && OnlyTargets(mem, p.mem, c, ats[..p.applied])
  }

  ghost predicate Stored(mem: seq<byte>, c: Context, bias: u64, at: nat, m: seq<byte>)
    requires c.span <= |mem| == |m| && at + RELA_SIZE <= |mem|
  {
    var r := Relocation(mem, c, bias, at);
    r.Store? && m[r.target..r.target + 8] == Word(r.value)
  }

  lemma {:induction false} RelocatePlaces(mem: seq<byte>, c: Context, bias: u64, ats: seq<nat>)
    requires c.span <= |mem| && (forall i :: 0 <= i < |ats| ==> ats[i] + RELA_SIZE <= |mem|) && Separate(mem, c, ats)
    ensures Placed(mem, c, bias, ats, Relocate(mem, c, bias, ats))
    decreases |ats|
  {
    hide Relocation, Undisturbed, Stored, OnlyTargets;
    if ats == [] {
      OnlyNone(mem, c);
    } else {
      var init, at := ats[..|ats| - 1], ats[|ats| - 1];
      RelocatePlaces(mem, c, bias, init);
      var p := Relocate(mem, c, bias, init);
      if p.code == OK {
        assert init[..p.applied] == init;
        forall i | 0 <= i < |init|
          ensures Undisturbed(mem, c, init[i], at)
        {
          assert Undisturbed(mem, c, ats[i], ats[|ats| - 1]);
        }
        PlacedStep(mem, c, bias, init, at, p);
        assert ats == init + [at] && ats[..|ats|] == ats;
      } else {
        assert init[..p.applied] == ats[..p.applied];
      }
    }
  }

  lemma OnlyNone(mem: seq<byte>, c: Context)
    ensures OnlyTargets(mem, mem, c, [])
  {
  }

  /** One more relocation after those at `ats`. */
  lemma PlacedStep(mem: seq<byte>, c: Context, bias: u64, ats: seq<nat>, at: nat, p: Progress)
    requires c.span <= |mem| == |p.mem|
    requires (forall i :: 0 <= i < |ats| ==> ats[i] + RELA_SIZE <= |mem|) && at + RELA_SIZE <= |mem|
    requires p.code == OK && p.applied == |ats| && OnlyTargets(mem, p.mem, c, ats)
    requires forall i :: 0 <= i < |ats| ==> Stored(mem, c, bias, ats[i], p.mem)
    requires forall i :: 0 <= i < |ats| ==> Undisturbed(mem, c, ats[i], at)
    ensures var p' := Step(p, c, bias, at);
            && (p'.code != OK ==> Relocation(mem, c, bias, at) == Bad(p'.code) && p' == p.(code := p'.code))
            && (p'.code == OK ==>
                p'.applied == |ats| + 1 && OnlyTargets(mem, p'.mem, c, ats + [at]) && Stored(mem, c, bias, at, p'.mem))
            && (forall i :: 0 <= i < |ats| ==> Stored(mem, c, bias, ats[i], p'.mem))
  {
    hide Relocation, Undisturbed, Stored, OnlyTargets;
    StillSpared(mem, p.mem, c, ats, at);
    RelocationFrame(mem, p.mem, c, bias, at);
    var r := Relocation(mem, c, bias, at);
    if r.Store? {
      var m' := Splice(p.mem, r.target, Word(r.value));
      StoredHere(mem, p.mem, c, bias, at, r);
      OnlyMore(mem, p.mem, m', c, bias, ats, at, r);
      forall i | 0 <= i < |ats|
        ensures Stored(mem, c, bias, ats[i], m')
      {
        StoredStill(mem, p.mem, c, bias, ats[i], at, r);
      }
    }
  }

  lemma StillSpared(mem: seq<byte>, m: seq<byte>, c: Context, ats: seq<nat>, at: nat)
    requires |m| == |mem| && (forall i :: 0 <= i < |ats| ==> ats[i] + RELA_SIZE <= |mem|) && at + RELA_SIZE <= |mem|
    requires OnlyTargets(mem, m, c, ats) && forall i :: 0 <= i < |ats| ==> Undisturbed(mem, c, ats[i], at)
    ensures Spared(mem, m, c, at)
  {
    hide Target, Clear;
    forall q | 0 <= q < |mem| && m[q] != mem[q]
      ensures exists t: nat :: Clear(mem, c, t, at) && t <= q < t + 8
    {
      var i :| 0 <= i < |ats| && Covers(mem, c, ats[i], q);
      assert Undisturbed(mem, c, ats[i], at);
      assert Clear(mem, c, Target(mem, c, ats[i]).value, at);
    }
  }

  lemma TargetOf(mem: seq<byte>, c: Context, bias: u64, at: nat)
    requires c.span <= |mem| && at + RELA_SIZE <= |mem| && Relocation(mem, c, bias, at).Store?
    ensures Target(mem, c, at) == Some(Relocation(mem, c, bias, at).target)
  {
    hide RelaAt, Lookup;
  }

  lemma StoredHere(mem: seq<byte>, m: seq<byte>, c: Context, bias: u64, at: nat, r: Store)
    requires c.span <= |mem| == |m| && at + RELA_SIZE <= |mem| && r == Relocation(mem, c, bias, at) && r.Store?
    ensures Stored(mem, c, bias, at, Splice(m, r.target, Word(r.value)))
  {
    hide Relocation, Word;
  }

  lemma StoredStill(mem: seq<byte>, m: seq<byte>, c: Context, bias: u64, first: nat, at: nat, r: Store)
    requires c.span <= |mem| == |m| && first + RELA_SIZE <= |mem| && at + RELA_SIZE <= |mem|
    requires Stored(mem, c, bias, first, m) && Undisturbed(mem, c, first, at)
    requires r == Relocation(mem, c, bias, at) && r.Store?
    ensures Stored(mem, c, bias, first, Splice(m, r.target, Word(r.value)))
  {
    hide Relocation, Word, Clear, Target;
    TargetOf(mem, c, bias, first);
    TargetOf(mem, c, bias, at);
    var t := Relocation(mem, c, bias, first).target;
    SameRange(m, Splice(m, r.target, Word(r.value)), t, 8);
  }

  lemma OnlyMore(mem: seq<byte>, m: seq<byte>, m': seq<byte>, c: Context, bias: u64, ats: seq<nat>, at: nat, r: Store)
    requires c.span <= |mem| == |m| == |m'|
    requires (forall i :: 0 <= i < |ats| ==> ats[i] + RELA_SIZE <= |mem|) && at + RELA_SIZE <= |mem|
    requires OnlyTargets(mem, m, c, ats) && r == Relocation(mem, c, bias, at) && r.Store?
    requires m' == Splice(m, r.target, Word(r.value))
    ensures OnlyTargets(mem, m', c, ats + [at])
  {
    hide Relocation, Word, Target;
    TargetOf(mem, c, bias, at);
    var more := ats + [at];
    forall q | 0 <= q < |mem| && m'[q] != mem[q]
      ensures exists i :: 0 <= i < |more| && Covers(mem, c, more[i], q)
    {
      if m[q] != mem[q] {
        var i :| 0 <= i < |ats| && Covers(mem, c, ats[i], q);
        assert more[i] == ats[i];
      } else {
        assert Covers(mem, c, more[|ats|], q);
      }
    }
  }

  /* ----- Another bias ----- */

  /** Two progresses that differ by the bias alone. */
  ghost predicate Rebased(mem: seq<byte>, c: Context, b: u64, b': u64, ats: seq<nat>, p: Progress, p': Progress)
    requires c.span <= |mem| == |p.mem| == |p'.mem| && forall i :: 0 <= i < |ats| ==> ats[i] + RELA_SIZE <= |mem|
  {
    && p'.code == p.code && p'.applied == p.applied <= |ats|
    && (forall i :: 0 <= i < p.applied ==> WordRebased(mem, c, b, b', ats[i], p.mem, p'.mem))
    && (forall q :: 0 <= q < |mem| && p'.mem[q] != p.mem[q] ==>
          exists i :: 0 <= i < p.applied && Follows(mem, c, ats[i]) && Covers(mem, c, ats[i], q))
  }

  /** The target's word is the same, or moved by the difference of the biases modulo 2^64. */
  ghost predicate WordRebased(mem: seq<byte>, c: Context, b: u64, b': u64, at: nat, m: seq<byte>, m': seq<byte>)
    requires c.span <= |mem| == |m| == |m'| && at + RELA_SIZE <= |mem|
  {
    && Target(mem, c, at).Some?
    && var t := Target(mem, c, at).value;
    && t + 8 <= |mem|
    && ReadWord(m', t) == if Follows(mem, c, at) then (ReadWord(m, t) + b' - b) % U64 else ReadWord(m, t)
  }

  lemma WordMoves(mem: seq<byte>, c: Context, b: u64, b': u64, at: nat, m: seq<byte>, m': seq<byte>)
    requires c.span <= |mem| == |m| == |m'| && at + RELA_SIZE <= |mem|
    requires Stored(mem, c, b, at, m) && Stored(mem, c, b', at, m')
    ensures WordRebased(mem, c, b, b', at, m, m')
    ensures !Follows(mem, c, at) ==> forall q :: 0 <= q < |mem| && Covers(mem, c, at, q) ==> m'[q] == m[q]
  {
    hide Relocation, Word, WordOf, Follows, Target;
    var r, r' := Relocation(mem, c, b, at), Relocation(mem, c, b', at);
    RelocationRebased(mem, c, b, b', at);
    TargetOf(mem, c, b, at);
    WordRoundTrip(r.value);
    WordRoundTrip(r'.value);
    if !Follows(mem, c, at) {
      forall q | 0 <= q < |mem| && Covers(mem, c, at, q)
        ensures m'[q] == m[q]
      {
        assert m[r.target..r.target + 8][q - r.target] == m'[r.target..r.target + 8][q - r.target];
      }
    }
  }

  /** Relocating the same memory with another bias. */
  lemma Rebase(mem: seq<byte>, c: Context, b: u64, b': u64, ats: seq<nat>)
    requires c.span <= |mem| && (forall i :: 0 <= i < |ats| ==> ats[i] + RELA_SIZE <= |mem|) && Separate(mem, c, ats)
    ensures Rebased(mem, c, b, b', ats, Relocate(mem, c, b, ats), Relocate(mem, c, b', ats))
  {
    hide Relocation, Relocate, Separate, Stored, Follows, Covers, WordRebased;
    var p, p' := Relocate(mem, c, b, ats), Relocate(mem, c, b', ats);
    RelocatePlaces(mem, c, b, ats);
    RelocatePlaces(mem, c, b', ats);
    SameStop(mem, c, b, b', ats, p, p');
    forall i | 0 <= i < p.applied
      ensures WordRebased(mem, c, b, b', ats[i], p.mem, p'.mem)
      ensures !Follows(mem, c, ats[i]) ==>
              forall q :: 0 <= q < |mem| && Covers(mem, c, ats[i], q) ==> p'.mem[q] == p.mem[q]
    {
      WordMoves(mem, c, b, b', ats[i], p.mem, p'.mem);
    }
    forall q | 0 <= q < |mem| && p'.mem[q] != p.mem[q]
      ensures exists i :: 0 <= i < p.applied && Follows(mem, c, ats[i]) && Covers(mem, c, ats[i], q)
    {
      var done := ats[..p.applied];
      assert p.mem[q] != mem[q] || p'.mem[q] != mem[q];
      var i :| 0 <= i < |done| && Covers(mem, c, done[i], q);
      assert done[i] == ats[i];
    }
  }

  lemma SameStop(mem: seq<byte>, c: Context, b: u64, b': u64, ats: seq<nat>, p: Progress, p': Progress)
    requires c.span <= |mem| == |p.mem| == |p'.mem| && forall i :: 0 <= i < |ats| ==> ats[i] + RELA_SIZE <= |mem|
    requires Placed(mem, c, b, ats, p) && Placed(mem, c, b', ats, p')
    ensures p'.code == p.code && p'.applied == p.applied
  {
    hide Relocation, OnlyTargets;
    if p.applied < |ats| {
      RelocationRebased(mem, c, b, b', ats[p.applied]);
    }
    if p'.applied < |ats| {
      RelocationRebased(mem, c, b, b', ats[p'.applied]);
    }
  }
}
