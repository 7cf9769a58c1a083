/** Reading an open file piece by piece. */
module FileReads {
  import opened Bytes
  import opened Paths
  import opened Vfs
  import opened FileTable
  import opened Process
  import Initramfs

  const O_WRONLY: nat := 0x01
  const EIO: int := -5
  const I64: nat := 0x8000_0000_0000_0000

  /** The inode behind an open file. */
  ghost function InodeOf(process: Process, f: int): Option<Inode>
    reads process, process.fs
  {
    if f in process.files && process.files[f].dentry in process.fs.h then process.fs.h[process.files[f].dentry].inode
    else None
  }

  /** A regular file, of less than 2^63 bytes. */
  ghost predicate Readable(process: Process, f: int)
    reads process, process.fs
  {
    InodeOf(process, f).Some? && InodeOf(process, f).value.Regular? && |InodeOf(process, f).value.data| < I64
  }

  ghost function Data(process: Process, f: int): seq<byte>
    reads process, process.fs
    requires Readable(process, f)
  {
    InodeOf(process, f).value.data
  }

  /**
   `vfs::read` of any open file: refused for a file open only for writing and for a directory;
   otherwise the next bytes from the offset on, and the offset moved past them. The copy runs
   past the end of the file exactly for a size with which the offset wraps around.
   */
  method VfsRead(process: Process, f: int, size: u64) returns (result: int, data: seq<byte>, overrun: bool)
    requires process.Inv() && f in process.files
    requires InodeOf(process, f).Some? && (InodeOf(process, f).value.Regular? ==> Readable(process, f))
    modifies process`files
    ensures process.Inv() && InodeOf(process, f) == old(InodeOf(process, f))
    ensures process.files == old(process.files)[f := old(process.files[f]).(offset := process.files[f].offset)]
    ensures !overrun ==> process.files[f].offset == old(process.files[f].offset) + |data|
    ensures overrun <==> && process.files[f].flags % 2 == 0 && InodeOf(process, f).value.Regular?
                         && old(process.files[f].offset) < |Data(process, f)|
                         && old(process.files[f].offset) + size >= U64
    ensures process.files[f].flags % 2 == 1 ==> result == -5 && data == []
    ensures process.files[f].flags % 2 == 0 && InodeOf(process, f).value.Directory? ==> result == -22 && data == []
    ensures overrun ==> result == Initramfs.Signed(size) && data == []
    ensures process.files[f].flags % 2 == 0 && InodeOf(process, f).value.Regular? && !overrun ==>
              result == |data| && Initramfs.IsPiece(Data(process, f), old(process.files[f].offset), size, data)
  {
    hide Sound, IsTree, Accounts, SameLinks, Nameable;
    var file := process.files[f];
    if Has(file.flags, O_WRONLY) {
      return EIO, [], false;
    }
    result, data, overrun := Initramfs.RamfsRead(process.fs, file.dentry, size, file.offset);
    if result > 0 {
      TouchFile(process.fs.h, process.files, process.open, f, file.(offset := (file.offset + result) % U64));
      process.files := process.files[f := file.(offset := (file.offset + result) % U64)];
    }
  }

  /**
   From offset 0, with pieces of any sizes: what has been read is always the file's bytes up
   to the offset, and once a read of a positive size returns 0 it is the whole file.
   */
  method ReadInPieces(process: Process, f: int, sizes: seq<nat>) returns (data: seq<byte>, ended: bool)
    requires process.Inv() && Readable(process, f)
    requires process.files[f].offset == 0 && process.files[f].flags % 2 == 0
    requires forall i :: 0 <= i < |sizes| ==> 0 < sizes[i] < I64
    modifies process`files
    ensures process.Inv() && Readable(process, f) && Data(process, f) == old(Data(process, f))
    ensures |data| == process.files[f].offset <= |Data(process, f)| && data == Data(process, f)[..|data|]
    ensures ended <==> exists i :: 0 <= i < |sizes| && Sum(sizes[..i]) >= |Data(process, f)|
    ensures ended ==> data == Data(process, f)
    ensures !ended ==> |data| == Min(Sum(sizes), |Data(process, f)|)
  {
    hide Sound, IsTree, Accounts, SameLinks, Nameable, Sum;
    SumNone();
    data, ended := [], false;
    ghost var all := Data(process, f);
    for k := 0 to |sizes|
      invariant process.Inv() && Readable(process, f)
      invariant Data(process, f) == all && process.files[f].flags % 2 == 0
      invariant |data| == process.files[f].offset == Min(Sum(sizes[..k]), |all|) && data == all[..|data|]
      invariant forall i :: 0 <= i < k ==> Sum(sizes[..i]) < |all|
    {
      SumNext(sizes, k);
      var result, piece, overrun := VfsRead(process, f, sizes[k]);
      if result == 0 {
        ended := true;
        return;
      }
      PieceJoins(all, |data|, sizes[k], piece);
      data := data + piece;
    }
    assert sizes[..|sizes|] == sizes;
  }

  /**
   The case that wraps around, on an input: of any file with two bytes or more, one is read,
   and then 2^64 - 1 are asked for. Nothing is cut, and the result is negative.
   */
  method ReadRunsOver(process: Process, f: int) returns (first: int, result: int, overrun: bool)
    requires process.Inv() && Readable(process, f) && |Data(process, f)| >= 2
    requires process.files[f].offset == 0 && process.files[f].flags % 2 == 0
    modifies process`files
    ensures process.Inv() && first == 1 && overrun && result == -1
  {
    hide Sound, IsTree, Accounts, SameLinks, Nameable;
    var data, over;
    first, data, over := VfsRead(process, f, 1);
    result, data, overrun := VfsRead(process, f, U64 - 1);
  }

  lemma PieceJoins(all: seq<byte>, from: nat, size: nat, data: seq<byte>)
    requires from <= |all| && Initramfs.IsPiece(all, from, size, data)
    ensures all[..from] + data == all[..Min(from + size, |all|)] && from + |data| == Min(from + size, |all|)
  {
  }

  lemma SumNone()
    ensures Sum([]) == 0
  {
  }

  lemma SumNext(sizes: seq<nat>, k: nat)
    requires k < |sizes|
    ensures Sum(sizes[..k + 1]) == Sum(sizes[..k]) + sizes[k]
  {
    assert sizes[..k + 1][..k] == sizes[..k];
  }

  function Sum(sizes: seq<nat>): nat {
    if sizes == [] then 0 else Sum(sizes[..|sizes| - 1]) + sizes[|sizes| - 1]
  }
}
