/** Byte sequences, in-place updates of a range, and little-endian words. */
module Bytes {

  const U32: nat := 0x1_0000_0000
  const U64: nat := 0x1_0000_0000_0000_0000

  datatype Option<+T> = None | Some(value: T)

  type byte = b: int | 0 <= b < 256
  type u32 = w: int | 0 <= w < U32
  /** A C string's characters, without the terminator. */
  type Str = s: seq<byte> | 0 !in s

  type u64 = w: int | 0 <= w < U64

  function Min(a: nat, b: nat): nat {
    if a < b then a else b
  }

  /** `length` bytes at `offset` lie within `total`. */
  predicate RangeValid(offset: nat, length: nat, total: nat) {
    offset <= total && length <= total - offset
  }

  /** `n` bytes at `a` and `m` bytes at `b` have one in common. */
  predicate Overlap(a: nat, n: nat, b: nat, m: nat) {
    a < b + m && b < a + n
  }

  /** Where a list linked through its elements starts, 0 if it is empty. */
  function Head(list: seq<int>): int {
    if list == [] then 0 else list[0]
  }

  /** What the `i`th element of such a list is linked to. */
  function Next(list: seq<int>, i: int): int {
    if 0 <= i < |list| - 1 then list[i + 1] else 0
  }

  /** `s` with the bytes from `at` on replaced by `data`. */
  function Splice<T>(s: seq<T>, at: nat, data: seq<T>): (r: seq<T>)
    requires at + |data| <= |s|
    ensures |r| == |s|
    ensures forall i :: 0 <= i < |s| ==> r[i] == if at <= i < at + |data| then data[i - at] else s[i]
  {
    s[..at] + data + s[at + |data|..]
  }

  lemma SliceOf<T>(s: seq<T>, at: nat, n: nat, lo: nat, hi: nat)
    requires at + n <= |s| && lo <= hi <= n
    ensures s[at..at + n][lo..hi] == s[at + lo..at + hi]
  {
    var t := s[at..at + n];
    assert forall i :: 0 <= i < hi - lo ==> t[lo..hi][i] == t[lo + i] == s[at + (lo + i)];
  }

  /** The bytes of a text in ASCII. */
  function Ascii(text: string): (r: seq<byte>)
    requires forall c :: c in text ==> c < 128 as char
    ensures |r| == |text| && forall i :: 0 <= i < |r| ==> r[i] == text[i] as int
  {
    if text == "" then []
    else
      assert text[0] in text && forall c :: c in text[1..] ==> c in text;
      var first: byte := text[0] as int;
      [first] + Ascii(text[1..])
  }

  function Zeros(n: nat): (r: seq<byte>)
    ensures |r| == n && forall i :: 0 <= i < n ==> r[i] == 0
  {
    seq(n, _ => 0)
  }

  function Reverse<T>(s: seq<T>): (r: seq<T>)
    ensures |r| == |s|
    ensures forall i :: 0 <= i < |s| ==> r[i] == s[|s| - 1 - i]
  {
    seq(|s|, i requires 0 <= i < |s| => s[|s| - 1 - i])
  }

  /** The `n` little-endian bytes of `w`. */
  function ToLE(w: nat, n: nat): (r: seq<byte>)
    ensures |r| == n
  {
    if n == 0 then [] else [w % 256] + ToLE(w / 256, n - 1)
  }

  function FromLE(s: seq<byte>): (w: nat)
  {
    if s == [] then 0 else s[0] + 256 * FromLE(s[1..])
  }

  function Pow256(n: nat): (p: nat)
    ensures p > 0
  {
    if n == 0 then 1 else 256 * Pow256(n - 1)
  }

  lemma {:induction false} LERoundTrip(w: nat, n: nat)
    requires w < Pow256(n)
    ensures FromLE(ToLE(w, n)) == w
  {
    if n > 0 {
      LERoundTrip(w / 256, n - 1);
      assert ToLE(w, n)[1..] == ToLE(w / 256, n - 1);
    }
  }

  lemma {:induction false} FromLEBound(s: seq<byte>)
    ensures FromLE(s) < Pow256(|s|)
  {
    if s != [] {
      FromLEBound(s[1..]);
    }
  }

  lemma Pow256Of4()
    ensures Pow256(4) == U32 && Pow256(2) == 65536
  {
  }

  lemma Pow256Of8()
    ensures Pow256(8) == U64
  {
    Pow256Of4();
    assert Pow256(8) == 256 * Pow256(7);
    assert Pow256(7) == 256 * Pow256(6);
    assert Pow256(6) == 256 * Pow256(5);
    assert Pow256(5) == 256 * Pow256(4);
  }

  /** An eight-byte word. */
  function Word(w: u64): (r: seq<byte>)
    ensures |r| == 8
  {
    ToLE(w, 8)
  }

  function WordOf(s: seq<byte>): (w: u64)
    requires |s| == 8
  {
    FromLEBound(s);
    Pow256Of8();
    FromLE(s)
  }

  lemma DigitFirst(s: seq<byte>, k: nat)
    requires k < |s|
    ensures FromLE(s[k..]) == s[k] + 256 * FromLE(s[k + 1..])
  {
    assert s[k..][1..] == s[k + 1..];
  }

  /** Fields of two, four and eight bytes have their lowest digit first. */
  lemma LittleEndian(s: seq<byte>)
    requires |s| in {2, 4, 8}
    ensures var b: seq<int> := s;
            && (|b| == 2 ==> FromLE(s) == b[0] + 0x100 * b[1])
            && (|b| == 4 ==> FromLE(s) == b[0] + 0x100 * b[1] + 0x1_0000 * b[2] + 0x100_0000 * b[3])
            && (|b| == 8 ==>
                  WordOf(s) == b[0] + 0x100 * b[1] + 0x1_0000 * b[2] + 0x100_0000 * b[3] + 0x1_0000_0000 * b[4]
                               + 0x100_0000_0000 * b[5] + 0x1_0000_0000_0000 * b[6] + 0x100_0000_0000_0000 * b[7])
  {
    hide FromLE;
    assert s[0..] == s;
    EndOfDigits(s);
    for i := |s| downto 0
      invariant forall k :: i <= k < |s| ==> FromLE(s[k..]) == s[k] + 256 * FromLE(s[k + 1..])
    {
      DigitFirst(s, i);
    }
  }

  lemma EndOfDigits(s: seq<byte>)
    ensures FromLE(s[|s|..]) == 0
  {
  }

  lemma WordRoundTrip(w: u64)
    ensures WordOf(Word(w)) == w
  {
    Pow256Of8();
    LERoundTrip(w, 8);
  }

  /** The characters before the first zero byte. */
  function CString(s: seq<byte>): (r: Str)
    ensures |r| <= |s|
  {
    if s == [] || s[0] == 0 then [] else [s[0]] + CString(s[1..])
  }

  lemma {:induction false} CStringOf(name: Str, rest: seq<byte>)
    requires rest != [] && rest[0] == 0
    ensures CString(name + rest) == name
    decreases |name|
  {
    if name == [] {
      assert name + rest == rest;
    } else {
      assert name[0] in name;
      assert forall x :: x in name[1..] ==> x in name;
      CStringOf(name[1..], rest);
      assert (name + rest)[1..] == name[1..] + rest;
    }
  }
}
