/**
 The cpio "newc" format: records with a 110-byte header of hexadecimal fields, a name, and
 data, each padded to four bytes. What the loader's checks accept, an encoder, and the
 round trip between the two.
 */
module Cpio {
  import opened Bytes

  const HEADER_SIZE: nat := 110
  const OFF_MODE: nat := 14
  const OFF_FILESIZE: nat := 54
  const OFF_NAMESIZE: nat := 94

  /** "070701" */
  function Magic(): seq<byte> {
    [48, 55, 48, 55, 48, 49]
  }

  /** "TRAILER!!!" */
  function Trailer(): Str {
    [84, 82, 65, 73, 76, 69, 82, 33, 33, 33]
  }

  function Align4(n: nat): (r: nat)
    ensures n <= r < n + 4 && r % 4 == 0
  {
    (n + 3) / 4 * 4
  }

  /* ----- Hexadecimal fields ----- */

  function Nibble(c: byte): Option<nat> {
    if 48 <= c <= 57 then Some(c - 48)
    else if 65 <= c <= 70 then Some(c - 55)
    else if 97 <= c <= 102 then Some(c - 87)
    else None
  }

  function HexValue(s: seq<byte>): Option<nat> {
    if s == [] then Some(0)
    else match (HexValue(s[..|s| - 1]), Nibble(s[|s| - 1]))
      case (Some(v), Some(n)) => Some(16 * v + n)
      case _ => None
  }

  function HexDigit(n: nat): byte
    requires n < 16
  {
    if n < 10 then 48 + n else 55 + n
  }

  function Hex(v: nat, digits: nat): (r: seq<byte>)
    ensures |r| == digits
  {
    if digits == 0 then [] else Hex(v / 16, digits - 1) + [HexDigit(v % 16)]
  }

  function Pow16(n: nat): nat {
    if n == 0 then 1 else 16 * Pow16(n - 1)
  }

  /** The texts of the format. */
  lemma FormatTexts()
    ensures Magic() == Ascii("070701") && Trailer() == Ascii("TRAILER!!!")
  {
    hide Ascii;
  }

  /** The digits of the format: those of both cases, and no other character. */
  lemma NibbleIs(c: byte, n: nat)
    ensures Nibble(c) == Some(n) <==>
            || ('0' as int <= c <= '9' as int && n == c - '0' as int)
            || ('A' as int <= c <= 'F' as int && n == 10 + c - 'A' as int)
            || ('a' as int <= c <= 'f' as int && n == 10 + c - 'a' as int)
  {
  }

  lemma {:induction false} HexRoundTrip(v: nat, digits: nat)
    requires v < Pow16(digits)
    ensures HexValue(Hex(v, digits)) == Some(v)
  {
    if digits > 0 {
      HexRoundTrip(v / 16, digits - 1);
      var h := Hex(v, digits);
      assert h[..|h| - 1] == Hex(v / 16, digits - 1) && h[|h| - 1] == HexDigit(v % 16);
    }
  }

  lemma Pow16Of8()
    ensures Pow16(8) == U32
  {
    assert Pow16(4) == 0x1_0000;
    assert Pow16(8) == 16 * Pow16(7) && Pow16(7) == 16 * Pow16(6)
           && Pow16(6) == 16 * Pow16(5) && Pow16(5) == 16 * Pow16(4);
  }

  lemma {:induction false} HexBound(s: seq<byte>)
    ensures HexValue(s).Some? ==> HexValue(s).value < Pow16(|s|)
    decreases |s|
  {
    if s != [] {
      HexBound(s[..|s| - 1]);
    }
  }

  /** `parse_hex`. */
  method ParseHex(s: seq<byte>) returns (r: Option<nat>)
    ensures r == HexValue(s)
  {
    hide Nibble;
    var v, i := 0, 0;
    assert s[..0] == [];
    while i < |s|
      invariant 0 <= i <= |s| && HexValue(s[..i]) == Some(v)
    {
      assert s[..i + 1][..i] == s[..i];
      var n := Nibble(s[i]);
      if n.None? {
        BadDigit(s, i);
        return None;
      }
      v := 16 * v + n.value;
      i := i + 1;
    }
    assert s[..i] == s;
    return Some(v);
  }

  lemma {:induction false} BadDigit(s: seq<byte>, i: nat)
    requires i < |s| && Nibble(s[i]) == None
    ensures HexValue(s) == None
    decreases |s|
  {
    hide Nibble;
    if i < |s| - 1 {
      BadDigit(s[..|s| - 1], i);
    }
  }

  /* ----- Records ----- */

  /** One record: its raw name, the value of the mode field if that is a number, and its data. */
  datatype Record = Record(raw: Str, mode: Option<nat>, data: seq<byte>, next: nat)

  function Field(archive: seq<byte>, offset: nat, at: nat): Option<nat>
    requires offset + at + 8 <= |archive|
  {
    HexValue(archive[offset + at..offset + at + 8])
  }

  /** The checks on one record, up to the terminator of its name. */
  function ReadRecord(archive: seq<byte>, offset: nat): Option<Record>
    requires offset + HEADER_SIZE <= |archive|
  {
    if archive[offset..offset + 6] != Magic() then None
    else match (Field(archive, offset, OFF_NAMESIZE), Field(archive, offset, OFF_FILESIZE))
      case (Some(nameSize), Some(fileSize)) =>
        var nameAt := offset + HEADER_SIZE;
        var dataAt := Align4(nameAt + nameSize);
        var next := Align4(dataAt + fileSize);
        if nameSize == 0 || nameAt + nameSize > |archive| || dataAt + fileSize > |archive| || next > |archive| then None
        else if archive[nameAt + nameSize - 1] != 0 then None
        else Some(Record(CString(archive[nameAt..nameAt + nameSize]), Field(archive, offset, OFF_MODE),
                         archive[dataAt..dataAt + fileSize], next))
      case _ => None
  }

  /** The record at `offset`, read field by field. */
  method NextRecord(archive: seq<byte>, offset: nat) returns (r: Option<Record>)
    requires offset + HEADER_SIZE <= |archive|
    ensures r == ReadRecord(archive, offset)
  {
    hide HexValue, CString, Align4;
    if archive[offset..offset + 6] != Magic() {
      return None;
    }
    var nameSize := ParseHex(archive[offset + OFF_NAMESIZE..offset + OFF_NAMESIZE + 8]);
    var fileSize := ParseHex(archive[offset + OFF_FILESIZE..offset + OFF_FILESIZE + 8]);
    if nameSize.None? || fileSize.None? {
      return None;
    }
    var nameAt := offset + HEADER_SIZE;
    var nameEnd := nameAt + nameSize.value;
    var dataAt := Align4(nameEnd);
    var dataEnd := dataAt + fileSize.value;
    var next := Align4(dataEnd);
    if nameSize.value == 0 || nameEnd > |archive| || dataEnd > |archive| || next > |archive| {
      return None;
    }
    if archive[nameEnd - 1] != 0 {
      return None;
    }
    var mode := ParseHex(archive[offset + OFF_MODE..offset + OFF_MODE + 8]);
    return Some(Record(CString(archive[nameAt..nameEnd]), mode, archive[dataAt..dataEnd], next));
  }

  /** All records up to the trailer or the end; `None` if a check fails. */
  function ReadAll(archive: seq<byte>, offset: nat): Option<seq<Record>>
    decreases |archive| - offset
  {
    if offset + HEADER_SIZE > |archive| then Some([])
    else
      var r := ReadRecord(archive, offset);
      if r.None? then None
      else if r.value.raw == Trailer() then Some([])
      else if r.value.next <= offset then None
      else
        var rest := ReadAll(archive, r.value.next);
        if rest.None? then None else Some([r.value] + rest.value)
  }

  /** The records up to the trailer, the end, or the first one that fails a check. */
  function ReadSome(archive: seq<byte>, offset: nat): seq<Record>
    decreases |archive| - offset
  {
    if offset + HEADER_SIZE > |archive| then []
    else
      var r := ReadRecord(archive, offset);
      if r.None? || r.value.raw == Trailer() || r.value.next <= offset then []
      else [r.value] + ReadSome(archive, r.value.next)
  }

  lemma {:induction false} SomeIsAll(archive: seq<byte>, offset: nat)
    requires ReadAll(archive, offset).Some?
    ensures ReadSome(archive, offset) == ReadAll(archive, offset).value
    decreases |archive| - offset
  {
    hide ReadRecord, Trailer;
    if offset + HEADER_SIZE <= |archive| {
      var r := ReadRecord(archive, offset);
      if r.Some? && r.value.raw != Trailer() && r.value.next > offset {
        SomeIsAll(archive, r.value.next);
      }
    }
  }

  lemma RecordProgress(archive: seq<byte>, offset: nat)
    requires offset + HEADER_SIZE <= |archive| && ReadRecord(archive, offset).Some?
    ensures offset < ReadRecord(archive, offset).value.next <= |archive|
  {
    hide HexValue, CString;
  }

  /* ----- Encoding ----- */

  /** What goes into an archive. */
  datatype Item = Item(raw: Str, mode: u32, data: seq<byte>)

  predicate Encodable(item: Item) {
    |item.raw| + 1 < U32 && |item.data| < U32 && item.raw != Trailer()
  }

  function Padding(n: nat): (r: seq<byte>)
    ensures |r| == Align4(n) - n
  {
    Zeros(Align4(n) - n)
  }

  function Header(mode: nat, fileSize: nat, nameSize: nat): (r: seq<byte>)
    ensures |r| == HEADER_SIZE
  {
    Magic() + Hex(0, 8) + Hex(mode, 8) + Hex(0, 32) + Hex(fileSize, 8) + Hex(0, 32) + Hex(nameSize, 8) + Hex(0, 8)
  }

  function ItemSize(item: Item): nat {
    Align4(HEADER_SIZE + |item.raw| + 1) + Align4(|item.data|)
  }

  /** A record written at a multiple of four. */
  function EncodeItem(item: Item): (r: seq<byte>)
    ensures |r| == ItemSize(item)
  {
    Header(item.mode, |item.data|, |item.raw| + 1) + (item.raw + [0]) + Padding(HEADER_SIZE + |item.raw| + 1) +
    item.data + Padding(|item.data|)
  }

  /** The records, closed by a trailer. */
  function EncodeItems(items: seq<Item>): (r: seq<byte>)
  {
    if items == [] then EncodeItem(Item(Trailer(), 0, [])) else EncodeItem(items[0]) + EncodeItems(items[1..])
  }

  lemma AlignShift(offset: nat, n: nat)
    requires offset % 4 == 0
    ensures Align4(offset + n) == offset + Align4(n)
  {
  }

  lemma HexField(v: u32)
    ensures HexValue(Hex(v, 8)) == Some(v)
  {
    Pow16Of8();
    HexRoundTrip(v, 8);
  }

  lemma HeaderFields(mode: u32, fileSize: u32, nameSize: u32)
    ensures var h := Header(mode, fileSize, nameSize);
            && h[..6] == Magic() && h[OFF_MODE..OFF_MODE + 8] == Hex(mode, 8)
            && h[OFF_FILESIZE..OFF_FILESIZE + 8] == Hex(fileSize, 8)
            && h[OFF_NAMESIZE..OFF_NAMESIZE + 8] == Hex(nameSize, 8)
  {
    hide Hex;
  }

  /** The pieces of a record that starts at `|before|`. */
  lemma ItemParts(before: seq<byte>, item: Item, after: seq<byte>)
    requires |before| % 4 == 0 && |item.raw| + 1 < U32 && |item.data| < U32
    ensures var archive, at := before + EncodeItem(item) + after, |before|;
            var header := Header(item.mode, |item.data|, |item.raw| + 1);
            var nameAt := at + HEADER_SIZE;
            var dataAt := Align4(nameAt + (|item.raw| + 1));
            && at + ItemSize(item) <= |archive| && archive[at..at + HEADER_SIZE] == header
            && archive[nameAt..nameAt + (|item.raw| + 1)] == item.raw + [0]
            && dataAt + |item.data| <= at + ItemSize(item) == Align4(dataAt + |item.data|)
            && archive[dataAt..dataAt + |item.data|] == item.data
  {
    hide Header, Padding, Align4, EncodeItem;
    var name, pad, tail := item.raw + [0], Padding(HEADER_SIZE + |item.raw| + 1), Padding(|item.data|);
    var header := Header(item.mode, |item.data|, |item.raw| + 1);
    AlignShift(|before|, HEADER_SIZE + |item.raw| + 1);
    AlignShift(|before| + Align4(HEADER_SIZE + |item.raw| + 1), |item.data|);
    FiveParts(before, header, name, pad, item.data, tail + after);
    ItemBytes(before, item, after);
  }

  lemma ItemBytes(before: seq<byte>, item: Item, after: seq<byte>)
    requires |item.raw| + 1 < U32 && |item.data| < U32
    ensures before + EncodeItem(item) + after ==
            before + Header(item.mode, |item.data|, |item.raw| + 1) + (item.raw + [0]) +
            Padding(HEADER_SIZE + |item.raw| + 1) +
            item.data + (Padding(|item.data|) + after)
  {
    hide Header, Padding;
  }

  lemma FiveParts(a: seq<byte>, b: seq<byte>, c: seq<byte>, d: seq<byte>, e: seq<byte>, f: seq<byte>)
    ensures var s := a + b + c + d + e + f;
            && s[|a|..|a| + |b|] == b && s[|a| + |b|..|a| + |b| + |c|] == c
            && s[|a| + |b| + |c| + |d|..|a| + |b| + |c| + |d| + |e|] == e
  {
  }

  lemma FieldOfHeader(archive: seq<byte>, offset: nat, header: seq<byte>, at: nat)
    requires offset + HEADER_SIZE <= |archive|
    requires archive[offset..offset + HEADER_SIZE] == header && at + 8 <= HEADER_SIZE
    ensures Field(archive, offset, at) == HexValue(header[at..at + 8])
    ensures archive[offset..offset + 6] == header[..6]
  {
    hide HexValue;
    SliceOf(archive, offset, HEADER_SIZE, at, at + 8);
    SliceOf(archive, offset, HEADER_SIZE, 0, 6);
  }

  /** An encoded record is read back, wherever it stands. */
  lemma ReadEncoded(before: seq<byte>, item: Item, after: seq<byte>)
    requires |before| % 4 == 0 && |item.raw| + 1 < U32 && |item.data| < U32
    ensures |before| + HEADER_SIZE <= |before + EncodeItem(item) + after|
    ensures ReadRecord(before + EncodeItem(item) + after, |before|) ==
            Some(Record(item.raw, Some(item.mode), item.data, |before| + ItemSize(item)))
  {
    hide Header, HexValue, Hex, CString, Magic, EncodeItem, Align4;
    var archive, at := before + EncodeItem(item) + after, |before|;
    ItemParts(before, item, after);
    var header := Header(item.mode, |item.data|, |item.raw| + 1);
    HeaderFields(item.mode, |item.data|, |item.raw| + 1);
    FieldOfHeader(archive, at, header, OFF_NAMESIZE);
    FieldOfHeader(archive, at, header, OFF_FILESIZE);
    FieldOfHeader(archive, at, header, OFF_MODE);
    HexField(item.mode);
    HexField(|item.data|);
    HexField(|item.raw| + 1);
    CStringOf(item.raw, [0]);
    assert (item.raw + [0])[|item.raw|] == 0;
    assert archive[at + HEADER_SIZE..at + HEADER_SIZE + (|item.raw| + 1)][|item.raw|] == 0;
  }

  /** What reading gives for an item at the given offset. */
  function Read(item: Item, offset: nat): Record {
    Record(item.raw, Some(item.mode), item.data, offset + ItemSize(item))
  }

  function ReadItems(items: seq<Item>, offset: nat): seq<Record> {
    if items == [] then [] else [Read(items[0], offset)] + ReadItems(items[1..], offset + ItemSize(items[0]))
  }

  lemma ItemSizeFacts(item: Item)
    ensures ItemSize(item) % 4 == 0 && ItemSize(item) >= HEADER_SIZE
  {
  }

  /** Reading an encoded archive gives its items, in order. */
  lemma {:induction false} ArchiveRoundTrip(before: seq<byte>, items: seq<Item>)
    requires |before| % 4 == 0 && forall i :: 0 <= i < |items| ==> Encodable(items[i])
    ensures ReadAll(before + EncodeItems(items), |before|) == Some(ReadItems(items, |before|))
    decreases |items|
  {
    hide EncodeItem, ReadRecord, ItemSize, Trailer;
    var archive := before + EncodeItems(items);
    var first := if items == [] then Item(Trailer(), 0, []) else items[0];
    var after := if items == [] then [] else EncodeItems(items[1..]);
    TrailerSize();
    assert archive == before + EncodeItem(first) + after;
    ReadEncoded(before, first, after);
    ItemSizeFacts(first);
    if items != [] {
      assert archive == (before + EncodeItem(first)) + after;
      ArchiveRoundTrip(before + EncodeItem(first), items[1..]);
    }
  }

  lemma TrailerSize()
    ensures |Trailer()| == 10
  {
  }
}
