/**
 The 64-bit words behind the page table entries (Intel SDM Vol. 3A, section 4.5.4, and
 `include/mem/paging.h`). An entry of the model is what its word decodes to, and every entry
 the image builder stores is computed here with the bit operations of the source.
 */
module PteWords {
  import opened PageTables

  const PRESENT: bv64 := 1
  const WRITABLE: bv64 := 2
  const USER: bv64 := 4
  const LARGE: bv64 := 0x80
  const NX: bv64 := 0x8000_0000_0000_0000
  const ADDRESS: bv64 := 0x000F_FFFF_FFFF_F000

  /** Frames whose addresses fit the 40 bits of an entry. */
  const MAX_FRAMES: nat := 0x100_0000_0000

  function Bit(b: bool, bit: bv64): bv64 {
    if b then bit else 0
  }

  /* ----- Frame numbers and address bits ----- */

  predicate Odd(n: nat) {
    n % 2 == 1
  }

  function One(b: bool): nat {
    if b then 1 else 0
  }

  /** Eight binary digits as a word. */
  function Octet(b7: bool, b6: bool, b5: bool, b4: bool, b3: bool, b2: bool, b1: bool, b0: bool): bv64 {
    Bit(b7, 0x80) | Bit(b6, 0x40) | Bit(b5, 0x20) | Bit(b4, 0x10) | Bit(b3, 8) | Bit(b2, 4) | Bit(b1, 2) | Bit(b0, 1)
  }

  /** The number the low eight bits of a word stand for. */
  function Value(w: bv64): nat {
    128 * Digit(w, 0x80) + 64 * Digit(w, 0x40) + 32 * Digit(w, 0x20) + 16 * Digit(w, 0x10)
    + 8 * Digit(w, 8) + 4 * Digit(w, 4) + 2 * Digit(w, 2) + Digit(w, 1)
  }

  function Digit(w: bv64, bit: bv64): nat {
    One(w & bit != 0)
  }

  lemma DigitIs(w: bv64, bit: bv64, b: bool)
    requires (w & bit != 0) == b
    ensures Digit(w, bit) == One(b)
  {
  }

  lemma OctetValue(b7: bool, b6: bool, b5: bool, b4: bool, b3: bool, b2: bool, b1: bool, b0: bool)
    ensures var w := Octet(b7, b6, b5, b4, b3, b2, b1, b0);
            && w & !0xFF == 0
            && Value(w) == 128 * One(b7) + 64 * One(b6) + 32 * One(b5) + 16 * One(b4)
                           + 8 * One(b3) + 4 * One(b2) + 2 * One(b1) + One(b0)
  {
    hide One, Octet, Digit;
    OctetDigits(b7, b6, b5, b4, b3, b2, b1, b0);
    var w := Octet(b7, b6, b5, b4, b3, b2, b1, b0);
    DigitIs(w, 0x80, b7);
    DigitIs(w, 0x40, b6);
    DigitIs(w, 0x20, b5);
    DigitIs(w, 0x10, b4);
    DigitIs(w, 8, b3);
    DigitIs(w, 4, b2);
    DigitIs(w, 2, b1);
    DigitIs(w, 1, b0);
  }

  lemma OctetDigits(b7: bool, b6: bool, b5: bool, b4: bool, b3: bool, b2: bool, b1: bool, b0: bool)
    ensures var w := Octet(b7, b6, b5, b4, b3, b2, b1, b0);
            && w & !0xFF == 0
            && (w & 0x80 != 0) == b7 && (w & 0x40 != 0) == b6 && (w & 0x20 != 0) == b5 && (w & 0x10 != 0) == b4
            && (w & 8 != 0) == b3 && (w & 4 != 0) == b2 && (w & 2 != 0) == b1 && (w & 1 != 0) == b0
  {
  }

  lemma Half(n: nat)
    ensures n == 2 * (n / 2) + One(Odd(n))
  {
  }

  lemma Quarters(n: nat)
    requires n < 0x100
    ensures n / 4 == n / 2 / 2 && n / 8 == n / 2 / 2 / 2 && n / 16 == n / 2 / 2 / 2 / 2
    ensures n / 32 == n / 2 / 2 / 2 / 2 / 2 && n / 64 == n / 2 / 2 / 2 / 2 / 2 / 2
    ensures n / 128 == n / 2 / 2 / 2 / 2 / 2 / 2 / 2 && n / 128 / 2 == 0
  {
  }

  lemma Binary(n: nat)
    requires n < 0x100
    ensures n == 128 * One(Odd(n / 128)) + 64 * One(Odd(n / 64)) + 32 * One(Odd(n / 32)) + 16 * One(Odd(n / 16))
                 + 8 * One(Odd(n / 8)) + 4 * One(Odd(n / 4)) + 2 * One(Odd(n / 2)) + One(Odd(n))
  {
    hide Odd, One;
    Quarters(n);
    Half(n);
    Half(n / 2);
    Half(n / 4);
    Half(n / 8);
    Half(n / 16);
    Half(n / 32);
    Half(n / 64);
    Half(n / 128);
  }

  /** The word of a number below 256. */
  function Byte(n: nat): bv64 {
    Octet(Odd(n / 128), Odd(n / 64), Odd(n / 32), Odd(n / 16), Odd(n / 8), Odd(n / 4), Odd(n / 2), Odd(n))
  }

  lemma ByteValue(n: nat)
    requires n < 0x100
    ensures Value(Byte(n)) == n && Byte(n) & !0xFF == 0
  {
    hide Octet, Odd, One, Value;
    OctetValue(Odd(n / 128), Odd(n / 64), Odd(n / 32), Odd(n / 16), Odd(n / 8), Odd(n / 4), Odd(n / 2), Odd(n));
    Binary(n);
  }

  /** The frame number in the address bits of a word. */
  function FrameOf(w: bv64): nat {
    Value((w >> 12) & 0xFF) + 0x100 * Value((w >> 20) & 0xFF) + 0x1_0000 * Value((w >> 28) & 0xFF)
    + 0x100_0000 * Value((w >> 36) & 0xFF) + 0x1_0000_0000 * Value((w >> 44) & 0xFF)
  }

  function Join(a: bv64, b: bv64, c: bv64, d: bv64, e: bv64): bv64 {
    (a << 12) | (b << 20) | (c << 28) | (d << 36) | (e << 44)
  }

  lemma JoinBytes(a: bv64, b: bv64, c: bv64, d: bv64, e: bv64)
    requires a & !0xFF == 0 && b & !0xFF == 0 && c & !0xFF == 0 && d & !0xFF == 0 && e & !0xFF == 0
    ensures var w := Join(a, b, c, d, e);
            && (w >> 12) & 0xFF == a && (w >> 20) & 0xFF == b && (w >> 28) & 0xFF == c
            && (w >> 36) & 0xFF == d && (w >> 44) & 0xFF == e && w & !ADDRESS == 0
  {
  }

  lemma JoinValue(a: nat, b: nat, c: nat, d: nat, e: nat)
    requires a < 0x100 && b < 0x100 && c < 0x100 && d < 0x100 && e < 0x100
    ensures var w := Join(Byte(a), Byte(b), Byte(c), Byte(d), Byte(e));
            && w & !ADDRESS == 0
            && FrameOf(w) == a + 0x100 * b + 0x1_0000 * c + 0x100_0000 * d + 0x1_0000_0000 * e
  {
    hide Join, Byte, Value;
    ByteValue(a);
    ByteValue(b);
    ByteValue(c);
    ByteValue(d);
    ByteValue(e);
    JoinBytes(Byte(a), Byte(b), Byte(c), Byte(d), Byte(e));
  }

  /** The physical address of a frame. */
  function Phys(frame: nat): bv64 {
    Join(Byte(frame % 0x100), Byte(frame / 0x100 % 0x100), Byte(frame / 0x1_0000 % 0x100),
         Byte(frame / 0x100_0000 % 0x100), Byte(frame / 0x1_0000_0000 % 0x100))
  }

  lemma Digits(f: nat)
    requires f < MAX_FRAMES
    ensures f == f % 0x100 + 0x100 * (f / 0x100 % 0x100) + 0x1_0000 * (f / 0x1_0000 % 0x100)
                 + 0x100_0000 * (f / 0x100_0000 % 0x100) + 0x1_0000_0000 * (f / 0x1_0000_0000 % 0x100)
  {
    var a := f / 0x100;
    var b := a / 0x100;
    var c := b / 0x100;
    assert f / 0x1_0000 == b && f / 0x100_0000 == c && f / 0x1_0000_0000 == c / 0x100;
  }

  /** The address of a frame fits its field, and the field gives the frame back. */
  lemma PhysOf(frame: nat)
    requires frame < MAX_FRAMES
    ensures Phys(frame) & !ADDRESS == 0 && FrameOf(Phys(frame)) == frame
  {
    hide Join, Byte, FrameOf;
    Digits(frame);
    JoinValue(frame % 0x100, frame / 0x100 % 0x100, frame / 0x1_0000 % 0x100,
              frame / 0x100_0000 % 0x100, frame / 0x1_0000_0000 % 0x100);
  }

  /* ----- Entries ----- */

  /** The entry a word stands for. */
  function Decode(w: bv64): Pte {
    Pte(w & PRESENT != 0, w & WRITABLE != 0, w & USER != 0, w & LARGE != 0, w & NX != 0, FrameOf(w & ADDRESS))
  }

  /** An address and the five bits of an entry. */
  function Assemble(phys: bv64, p: bool, w: bool, u: bool, l: bool, n: bool): bv64 {
    phys | Bit(p, PRESENT) | Bit(w, WRITABLE) | Bit(u, USER) | Bit(l, LARGE) | Bit(n, NX)
  }

  /** The word of an entry. */
  function Encode(e: Pte): bv64
    requires 0 <= e.frame
  {
    Assemble(Phys(e.frame), e.present, e.writable, e.user, e.large, e.nx)
  }

  lemma AssembleBits(phys: bv64, p: bool, w: bool, u: bool, l: bool, n: bool)
    requires phys & !ADDRESS == 0
    ensures var x := Assemble(phys, p, w, u, l, n);
            && x & ADDRESS == phys && (x & PRESENT != 0) == p && (x & WRITABLE != 0) == w && (x & USER != 0) == u
            && (x & LARGE != 0) == l && (x & NX != 0) == n
  {
  }

  lemma DecodeAssemble(phys: bv64, p: bool, w: bool, u: bool, l: bool, n: bool)
    requires phys & !ADDRESS == 0
    ensures Decode(Assemble(phys, p, w, u, l, n)) == Pte(p, w, u, l, n, FrameOf(phys))
  {
    hide FrameOf, Assemble;
    AssembleBits(phys, p, w, u, l, n);
  }

  /** Every entry on a frame that fits is what its word decodes to. */
  lemma DecodeEncode(e: Pte)
    requires 0 <= e.frame < MAX_FRAMES
    ensures Decode(Encode(e)) == e
  {
    hide Phys, FrameOf, Assemble, Decode;
    PhysOf(e.frame);
    DecodeAssemble(Phys(e.frame), e.present, e.writable, e.user, e.large, e.nx);
  }

  /** The bits of the architecture: P, R/W, U/S, PS and XD, the address, and nothing else. */
  predicate HasBits(x: bv64, p: bool, w: bool, u: bool, l: bool, n: bool, phys: bv64) {
    && (x & 1 != 0) == p && (x & 2 != 0) == w && (x & 4 != 0) == u && (x & 0x80 != 0) == l
    && (x & 0x8000_0000_0000_0000 != 0) == n
    && x & 0x000F_FFFF_FFFF_F000 == phys && x & 0x7FF0_0000_0000_0F78 == 0
  }

  lemma EntryBits(e: Pte)
    requires 0 <= e.frame < MAX_FRAMES
    ensures HasBits(Encode(e), e.present, e.writable, e.user, e.large, e.nx, Phys(e.frame))
  {
    hide Phys, Assemble, HasBits;
    PhysOf(e.frame);
    AssembleHas(Phys(e.frame), e.present, e.writable, e.user, e.large, e.nx);
  }

  lemma AssembleHas(phys: bv64, p: bool, w: bool, u: bool, l: bool, n: bool)
    requires phys & !ADDRESS == 0
    ensures HasBits(Assemble(phys, p, w, u, l, n), p, w, u, l, n, phys)
  {
  }

  function FlagWord(flags: Flags): bv64 {
    Bit(flags.writable, WRITABLE) | Bit(flags.nx, NX)
  }

  /* ----- The words the image builder stores ----- */

  function NewTable(phys: bv64): bv64 {
    phys | PRESENT | WRITABLE | USER
  }

  function NewPage(phys: bv64, flags: bv64): bv64 {
    phys | PRESENT | USER | flags
  }

  function ForUser(w: bv64): bv64 {
    w | USER
  }

  function Widen(w: bv64, flags: bv64): bv64 {
    if HasNx(flags) then OrWritable(w, flags) else ClearNx(OrWritable(w, flags))
  }

  function OrWritable(w: bv64, flags: bv64): bv64 {
    w | (flags & WRITABLE)
  }

  predicate HasNx(flags: bv64) {
    flags & NX != 0
  }

  function ClearNx(w: bv64): bv64 {
    w & !NX
  }

  /** A new table's word is a present, writable, user entry of its frame. */
  lemma NewTableIs(frame: nat)
    requires frame < MAX_FRAMES
    ensures Decode(NewTable(Phys(frame))) == Pte(true, true, true, false, false, frame)
  {
    hide Phys, FrameOf, Assemble, Decode, NewTable;
    PhysOf(frame);
    NewTableBits(Phys(frame));
    DecodeAssemble(Phys(frame), true, true, true, false, false);
  }

  lemma NewTableBits(phys: bv64)
    ensures NewTable(phys) == Assemble(phys, true, true, true, false, false)
  {
  }

  /** A new page's word is a present user entry of its frame with the flags asked for. */
  lemma NewPageIs(frame: nat, flags: Flags)
    requires frame < MAX_FRAMES
    ensures Decode(NewPage(Phys(frame), FlagWord(flags))) == Pte(true, flags.writable, true, false, flags.nx, frame)
  {
    hide Phys, FrameOf, Assemble, Decode, NewPage, FlagWord;
    PhysOf(frame);
    NewPageBits(Phys(frame), flags);
    DecodeAssemble(Phys(frame), true, flags.writable, true, false, flags.nx);
  }

  lemma NewPageBits(phys: bv64, flags: Flags)
    ensures NewPage(phys, FlagWord(flags)) == Assemble(phys, true, flags.writable, true, false, flags.nx)
  {
  }

  /** The user bit of a table on the way, and nothing else, is set. */
  lemma ForUserIs(e: Pte)
    requires 0 <= e.frame < MAX_FRAMES
    ensures Decode(ForUser(Encode(e))) == e.(user := true)
  {
    hide Phys, FrameOf, Assemble, Decode, ForUser;
    PhysOf(e.frame);
    ForUserBits(Phys(e.frame), e.present, e.writable, e.user, e.large, e.nx);
    DecodeAssemble(Phys(e.frame), e.present, e.writable, true, e.large, e.nx);
  }

  lemma ForUserBits(phys: bv64, p: bool, w: bool, u: bool, l: bool, n: bool)
    ensures ForUser(Assemble(phys, p, w, u, l, n)) == Assemble(phys, p, w, true, l, n)
  {
    OrThird(phys | Bit(p, PRESENT) | Bit(w, WRITABLE), Bit(u, USER), Bit(l, LARGE), Bit(n, NX), USER);
    assert Bit(u, USER) | USER == USER;
  }

  lemma OrThird(x: bv64, c: bv64, d: bv64, e: bv64, more: bv64)
    ensures x | c | d | e | more == x | (c | more) | d | e
  {
  }

  /** The permissions of a page already mapped are widened, and nothing else changes. */
  lemma WidenIs(e: Pte, flags: Flags)
    requires 0 <= e.frame < MAX_FRAMES
    ensures Decode(Widen(Encode(e), FlagWord(flags))) ==
            e.(writable := e.writable || flags.writable, nx := e.nx && flags.nx)
  {
    hide Phys, FrameOf, Assemble, Decode, Widen, FlagWord;
    PhysOf(e.frame);
    WidenBits(Phys(e.frame), e.present, e.writable, e.user, e.large, e.nx, flags);
    DecodeAssemble(Phys(e.frame), e.present, e.writable || flags.writable, e.user, e.large, e.nx && flags.nx);
  }

  lemma WidenBits(phys: bv64, p: bool, w: bool, u: bool, l: bool, n: bool, flags: Flags)
    requires phys & !ADDRESS == 0
    ensures Widen(Assemble(phys, p, w, u, l, n), FlagWord(flags)) ==
            Assemble(phys, p, w || flags.writable, u, l, n && flags.nx)
  {
    hide Assemble, FlagWord, OrWritable, HasNx, ClearNx;
    FlagNx(flags);
    OrBits(phys, p, w, u, l, n, flags);
    ClearBits(phys, p, w || flags.writable, u, l, n);
  }

  lemma FlagNx(flags: Flags)
    ensures HasNx(FlagWord(flags)) == flags.nx
  {
  }

  lemma OrBits(phys: bv64, p: bool, w: bool, u: bool, l: bool, n: bool, flags: Flags)
    ensures OrWritable(Assemble(phys, p, w, u, l, n), FlagWord(flags)) ==
            Assemble(phys, p, w || flags.writable, u, l, n)
  {
    FlagWritable(flags);
    OrOrder(phys, Bit(p, PRESENT), Bit(w, WRITABLE), Bit(u, USER), Bit(l, LARGE),
      Bit(n, NX), Bit(flags.writable, WRITABLE));
  }

  lemma FlagWritable(flags: Flags)
    ensures FlagWord(flags) & WRITABLE == Bit(flags.writable, WRITABLE)
  {
  }

  lemma OrOrder(x: bv64, a: bv64, b: bv64, c: bv64, d: bv64, e: bv64, more: bv64)
    ensures x | a | b | c | d | e | more == x | a | (b | more) | c | d | e
  {
  }

  lemma ClearBits(phys: bv64, p: bool, w: bool, u: bool, l: bool, n: bool)
    requires phys & !ADDRESS == 0
    ensures ClearNx(Assemble(phys, p, w, u, l, n)) == Assemble(phys, p, w, u, l, false)
  {
  }
}
