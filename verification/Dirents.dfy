/**
 Directory records in the `linux_dirent64` layout: 19 bytes of header, the name with its
 terminator, padded to a multiple of eight. Decoding by the length fields gives back
 exactly the entries that were encoded.
 */
module Dirents {
  import opened Bytes

  const HEADER: nat := 19

  /** `kind` is 4 for a directory and 8 otherwise. */
  datatype Dirent = Dirent(ino: u64, next: u64, kind: byte, name: Str) {
    predicate Valid() {
      |name| < 256
    }
  }

  function RecordLength(nameLength: nat): (n: nat)
    ensures n % 8 == 0 && HEADER + nameLength + 1 <= n < HEADER + nameLength + 1 + 8
  {
    (HEADER + nameLength + 1 + 7) / 8 * 8
  }

  function Encode(d: Dirent): (r: seq<byte>)
    ensures |r| == RecordLength(|d.name|)
  {
    var n := RecordLength(|d.name|);
    Word(d.ino) + Word(d.next) + ToLE(n, 2) + [d.kind] + d.name + Zeros(n - HEADER - |d.name|)
  }

  function EncodeAll(ds: seq<Dirent>): seq<byte> {
    if ds == [] then [] else EncodeAll(ds[..|ds| - 1]) + Encode(ds[|ds| - 1])
  }

  /** What a reader makes of the record at the start of `s`. */
  function DecodeFirst(s: seq<byte>): Dirent
    requires |s| >= HEADER
  {
    Dirent(WordOf(s[..8]), WordOf(s[8..16]), s[18], CString(s[HEADER..]))
  }

  /** Following the length fields from record to record. */
  function DecodeAll(s: seq<byte>): seq<Dirent>
    decreases |s|
  {
    if |s| < HEADER then []
    else
      var n := FromLE(s[16..18]);
      if n == 0 || n > |s| then [] else [DecodeFirst(s)] + DecodeAll(s[n..])
  }

  lemma RecordParts(d: Dirent, rest: seq<byte>)
    ensures var s, n := Encode(d) + rest, RecordLength(|d.name|);
            && s[..8] == Word(d.ino) && s[8..16] == Word(d.next) && s[16..18] == ToLE(n, 2) && s[18] == d.kind
            && s[HEADER..] == d.name + (Zeros(n - HEADER - |d.name|) + rest) && s[n..] == rest
  {
    hide Word, ToLE, RecordLength, Zeros;
  }

  lemma LengthField(n: nat)
    requires n < 0x1_0000
    ensures FromLE(ToLE(n, 2)) == n
  {
    assert Pow256(2) == 0x1_0000 by {
      assert Pow256(1) == 256;
    }
    LERoundTrip(n, 2);
  }

  lemma DecodeEncode(d: Dirent, rest: seq<byte>)
    requires d.Valid()
    ensures DecodeAll(Encode(d) + rest) == [d] + DecodeAll(rest)
  {
    hide Encode, Word, WordOf, ToLE, CString, FromLE, Zeros;
    RecordParts(d, rest);
    var n := RecordLength(|d.name|);
    LengthField(n);
    WordRoundTrip(d.ino);
    WordRoundTrip(d.next);
    CStringOf(d.name, Zeros(n - HEADER - |d.name|) + rest);
  }

  lemma {:induction false} DecodeAfter(ds: seq<Dirent>, rest: seq<byte>)
    requires forall i :: 0 <= i < |ds| ==> ds[i].Valid()
    ensures DecodeAll(EncodeAll(ds) + rest) == ds + DecodeAll(rest)
    decreases |ds|
  {
    hide Encode, DecodeAll;
    if ds == [] {
      assert [] + rest == rest && ds + DecodeAll(rest) == DecodeAll(rest);
    } else {
      var init, last := ds[..|ds| - 1], ds[|ds| - 1];
      DecodeAfter(init, Encode(last) + rest);
      DecodeEncode(last, rest);
      assert EncodeAll(ds) + rest == EncodeAll(init) + (Encode(last) + rest);
      assert init + ([last] + DecodeAll(rest)) == ds + DecodeAll(rest);
    }
  }

  /** A buffer of records reads back as exactly the entries in it. */
  lemma RecordsRoundTrip(ds: seq<Dirent>)
    requires forall i :: 0 <= i < |ds| ==> ds[i].Valid()
    ensures DecodeAll(EncodeAll(ds)) == ds && |EncodeAll(ds)| % 8 == 0
  {
    hide DecodeAll;
    DecodeAfter(ds, []);
    assert EncodeAll(ds) + [] == EncodeAll(ds) && ds + [] == ds;
    DecodeNothing();
    EncodeAligned(ds);
  }

  lemma DecodeNothing()
    ensures DecodeAll([]) == []
  {
  }

  lemma AlignedSum(a: nat, b: nat)
    requires a % 8 == 0 && b % 8 == 0
    ensures (a + b) % 8 == 0
  {
  }

  lemma {:induction false} EncodeAligned(ds: seq<Dirent>)
    ensures |EncodeAll(ds)| % 8 == 0
    decreases |ds|
  {
    hide Encode, RecordLength;
    if ds != [] {
      EncodeAligned(ds[..|ds| - 1]);
      AlignedSum(|EncodeAll(ds[..|ds| - 1])|, |Encode(ds[|ds| - 1])|);
    }
  }

  lemma {:induction false} EncodeConcat(a: seq<Dirent>, b: seq<Dirent>)
    ensures EncodeAll(a + b) == EncodeAll(a) + EncodeAll(b)
    decreases |b|
  {
    hide Encode;
    if b == [] {
      assert a + b == a && EncodeAll(a) + [] == EncodeAll(a);
    } else {
      var init, last := b[..|b| - 1], b[|b| - 1];
      EncodeConcat(a, init);
      assert (a + b)[..|a + b| - 1] == a + init && (a + b)[|a + b| - 1] == last;
    }
  }

  /**
   A record as a reader of `linux_dirent64` finds it: the inode number in bytes 0 to 8, the
   offset to go on from in 8 to 16, the length of the record in 16 to 18, the type in 18 and
   the name from 19 on, zeros behind it, to the next multiple of eight.
   */
  lemma RecordIs(d: Dirent)
    requires d.Valid()
    ensures var r := Encode(d);
            && |r| % 8 == 0 && 20 + |d.name| <= |r| < 28 + |d.name|
            && WordOf(r[0..8]) == d.ino && WordOf(r[8..16]) == d.next && FromLE(r[16..18]) == |r| && r[18] == d.kind
            && r[19..19 + |d.name|] == d.name && forall i :: 19 + |d.name| <= i < |r| ==> r[i] == 0
  {
    hide Word, WordOf, ToLE, FromLE, RecordLength;
    var r, n := Encode(d), RecordLength(|d.name|);
    RecordParts(d, []);
    assert r + [] == r;
    LengthField(n);
    WordRoundTrip(d.ino);
    WordRoundTrip(d.next);
    var tail := d.name + (Zeros(n - HEADER - |d.name|) + []);
    assert forall i :: 19 <= i < |r| ==> r[i] == r[19..][i - 19] == tail[i - 19];
  }
}
