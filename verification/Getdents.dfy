/** Listing a directory: `ramfs_readdir` in batches of eight, `sys_getdents64` in buffers of any size. */
module Getdents {
  import opened Bytes
  import opened Paths
  import opened DentryLists
  import opened Vfs
  import opened FileTable
  import opened Process
  import opened Dirents
  import A = AddressSpaces
  import T = PageTables

  const BATCH: nat := 8
  const MAX_IO_SIZE: nat := 1024 * 1024

  function InoOf(h: Heap, c: int): u32 {
    if c in h && h[c].inode.Some? then h[c].inode.value.ino else 0
  }

  function NameOf(h: Heap, c: int): Str {
    if c in h then h[c].name else []
  }

  /** The type reported is that of the first entry with the name. */
  function KindOf(h: Heap, list: seq<int>, name: seq<byte>): byte {
    var c := Find(h, list, name);
    if c in h && h[c].inode.Some? && h[c].inode.value.Directory? then 4 else 8
  }

  /** The record of the `i`th child; its `next` is the offset to go on from. */
  function EntryAt(h: Heap, list: seq<int>, i: nat): Dirent
    requires i < |list|
  {
    Dirent(InoOf(h, list[i]), (i + 1) % U64, KindOf(h, list, NameOf(h, list[i])), NameOf(h, list[i]))
  }

  /** The records of children `from` to `to`. */
  function Listing(h: Heap, list: seq<int>, from: nat, to: nat): (r: seq<Dirent>)
    requires from <= to <= |list|
    ensures |r| == to - from
  {
    seq(to - from, k requires 0 <= k < to - from => EntryAt(h, list, from + k))
  }

  /** `ramfs_readdir`: children from `offset` on, and the offset it leaves. */
  method Readdir(fs: FileSystem, dir: int, offset: nat, count: nat) returns (batch: seq<int>, next: nat)
    requires IsTree(fs.h, fs.root, fs.s) && dir in fs.h && count > 0
    ensures dir in fs.s.kids
    ensures next == if offset >= |fs.s.kids[dir]| then |fs.s.kids[dir]| else Min(offset + count, |fs.s.kids[dir]|)
    ensures batch == if offset >= |fs.s.kids[dir]| then [] else fs.s.kids[dir][offset..next]
  {
    hide IsTree;
    TreeAt(fs.h, fs.root, fs.s, dir);
    ghost var list := fs.s.kids[dir];
    batch := [];
    var child, index := fs.h[dir].child, 0;
    while child != 0 && |batch| < count
      invariant 0 <= index <= |list| && child == Head(list[index..])
      invariant |batch| <= count
      invariant batch == if index <= offset then [] else list[offset..index]
      invariant index > offset ==> |batch| == index - offset
      decreases |list| - index
    {
      if index >= offset {
        batch := batch + [child];
      }
      child := fs.h[child].sibling;
      index := index + 1;
    }
    next := index;
  }

  /** The record of one child. */
  method MakeRecord(fs: FileSystem, dir: int, child: int, index: nat) returns (record: seq<byte>)
    requires IsTree(fs.h, fs.root, fs.s) && dir in fs.h && child in fs.h
    requires dir in fs.s.kids && index < |fs.s.kids[dir]| && fs.s.kids[dir][index] == child
    ensures record == Encode(EntryAt(fs.h, fs.s.kids[dir], index))
    ensures |record| == RecordLength(|fs.h[child].name|)
  {
    hide IsTree, Find, Encode;
    var name := fs.h[child].name;
    var first := fs.DLookup(dir, name);
    var kind: byte := if first in fs.h && fs.h[first].inode.Some? && fs.h[first].inode.value.Directory? then 4 else 8;
    return Encode(Dirent(InoOf(fs.h, child), (index + 1) % U64, kind, name));
  }

  /** The room the record of child `i` takes. */
  function Need(h: Heap, list: seq<int>, i: nat): nat
    requires i < |list|
  {
    RecordLength(|NameOf(h, list[i])|)
  }

  /** `sys_getdents64` stops before child `next`: its record exceeds the count, or cannot be written. */
  ghost predicate Stops(h: Heap, list: seq<int>, next: nat, written: nat, count: nat, mem: T.Memory, root: int,
                        buffer: u64)
    requires next < |list|
  {
    written + Need(h, list, next) > count || !A.CanWrite(mem, root, buffer + written, Need(h, list, next))
  }

  /**
   `sys_getdents64` once the descriptor is known, into a buffer of the caller's address space:
   as many whole records as fit, and the offset moved past exactly those. A record that could
   only be written in part is `partial`, and does not count.
   */
  method FillRecords(fs: FileSystem, dir: int, offset: nat, count: nat, space: A.AddressSpace, buffer: u64)
    returns (result: int, bytes: seq<byte>, next: nat, ghost partial: seq<byte>)
    requires IsTree(fs.h, fs.root, fs.s) && dir in fs.h && offset < U64 && space.Valid()
    modifies space.ram
    ensures space.Valid() && A.SameLeaves(old(space.ram.mem), space.ram.mem, space.root) && dir in fs.s.kids
    ensures T.Written(old(space.ram.mem), space.ram.mem, space.root, buffer, bytes + partial)
    ensures offset >= |fs.s.kids[dir]| ==>
              result == 0 && bytes == [] && partial == [] && next == |fs.s.kids[dir]|
    ensures offset < |fs.s.kids[dir]| ==> offset <= next <= Min(offset + BATCH, |fs.s.kids[dir]|)
    ensures offset < |fs.s.kids[dir]| ==> bytes == EncodeAll(Listing(fs.h, fs.s.kids[dir], offset, next))
    ensures offset < |fs.s.kids[dir]| && next > offset ==> result == |bytes| > 0 && |bytes| <= count
    ensures offset < |fs.s.kids[dir]| && next == offset ==>
              bytes == [] && result == if Need(fs.h, fs.s.kids[dir], offset) > count then EINVAL else EFAULT
    ensures offset < |fs.s.kids[dir]| && next < Min(offset + BATCH, |fs.s.kids[dir]|) ==>
              && Stops(fs.h, fs.s.kids[dir], next, |bytes|, count, old(space.ram.mem), space.root, buffer)
              && partial <= Encode(EntryAt(fs.h, fs.s.kids[dir], next))
    ensures offset < |fs.s.kids[dir]| && next == Min(offset + BATCH, |fs.s.kids[dir]|) ==> partial == []
  {
    hide IsTree, Encode, EncodeAll, Listing, EntryAt, RecordLength, Threaded;
    hide A.CanWrite, A.SameLeaves, T.Written, A.AddressSpace.Valid;
    ghost var m0 := space.ram.mem;
    A.SameLeavesRefl(m0, space.root);
    A.WrittenNothing(m0, space.root, buffer);
    var batch;
    batch, next := Readdir(fs, dir, offset, BATCH);
    TreeAt(fs.h, fs.root, fs.s, dir);
    KidsExist(fs.h, fs.root, fs.s, dir);
    ghost var list := fs.s.kids[dir];
    bytes, partial := [], [];
    assert bytes + partial == bytes;
    if batch == [] {
      return 0, bytes, next, partial;
    }
    ListingNone(fs.h, list, offset);
    var i := 0;
    while i < |batch|
      invariant 0 <= i <= |batch| && |bytes| <= count && space.Valid()
      invariant bytes == EncodeAll(Listing(fs.h, list, offset, offset + i))
      invariant i > 0 <==> bytes != []
      invariant A.SameLeaves(m0, space.ram.mem, space.root) && T.Written(m0, space.ram.mem, space.root, buffer, bytes)
    {
      assert bytes + [] == bytes;
      var name := fs.h[batch[i]].name;
      var length := RecordLength(|name|);
      if length > count - |bytes| {
        return if bytes != [] then |bytes| else EINVAL, bytes, offset + i, [];
      }
      var ok, record;
      ok, record, partial := PutRecord(fs, dir, batch[i], offset + i, space, buffer, bytes, m0);
      if !ok {
        return if bytes != [] then |bytes| else EFAULT, bytes, offset + i, partial;
      }
      ListingNext(fs.h, list, offset, offset + i);
      bytes := bytes + record;
      i := i + 1;
    }
    assert bytes + [] == bytes;
    return |bytes|, bytes, next, [];
  }

  /** One record made, and copied to the caller behind those it has. */
  method PutRecord(fs: FileSystem, dir: int, child: int, index: nat, space: A.AddressSpace, buffer: u64,
                   bytes: seq<byte>, ghost m0: T.Memory)
    returns (ok: bool, record: seq<byte>, ghost partial: seq<byte>)
    requires IsTree(fs.h, fs.root, fs.s) && dir in fs.h && child in fs.h && space.Valid()
    requires dir in fs.s.kids && index < |fs.s.kids[dir]| && fs.s.kids[dir][index] == child
    requires A.SameLeaves(m0, space.ram.mem, space.root) && T.Written(m0, space.ram.mem, space.root, buffer, bytes)
    modifies space.ram
    ensures space.Valid() && A.SameLeaves(m0, space.ram.mem, space.root)
    ensures record == Encode(EntryAt(fs.h, fs.s.kids[dir], index)) && |record| == RecordLength(|fs.h[child].name|)
    ensures ok <==> A.CanWrite(m0, space.root, buffer + |bytes|, |record|)
    ensures ok ==> T.Written(m0, space.ram.mem, space.root, buffer, bytes + record)
    ensures !ok ==> partial <= record && T.Written(m0, space.ram.mem, space.root, buffer, bytes + partial)
  {
    hide IsTree, Encode, EntryAt, RecordLength, A.CanWrite, A.SameLeaves, T.Written, A.AddressSpace.Valid;
    record := MakeRecord(fs, dir, child, index);
    ghost var m1 := space.ram.mem;
    A.CanWriteSame(m0, m1, space.root, buffer + |bytes|, |record|);
    ok := WriteRecord(space, buffer + |bytes|, record);
    A.SameLeavesTrans(m0, m1, space.ram.mem, space.root);
    partial :| partial <= record && T.Written(m1, space.ram.mem, space.root, buffer + |bytes|, partial);
    A.WrittenAppend(m0, m1, space.ram.mem, space.root, buffer, bytes, partial);
    if ok {
      A.WrittenAppend(m0, m1, space.ram.mem, space.root, buffer, bytes, record);
    }
  }

  /** The copy of one record to the caller. */
  method WriteRecord(space: A.AddressSpace, address: nat, record: seq<byte>) returns (ok: bool)
    requires space.Valid()
    modifies space.ram
    ensures space.Valid() && A.SameLeaves(old(space.ram.mem), space.ram.mem, space.root)
    ensures ok <==> A.CanWrite(old(space.ram.mem), space.root, address, |record|)
    ensures ok ==> T.Written(old(space.ram.mem), space.ram.mem, space.root, address, record)
    ensures exists part :: part <= record && T.Written(old(space.ram.mem), space.ram.mem, space.root, address, part)
  {
    hide T.Tree, A.SameLeaves, T.RangeMapped, A.RangeWritable, T.Written, A.KeepsTables;
    ok := space.CopyToUser(address, record);
    ghost var n: nat :| n <= |record| && T.Written(old(space.ram.mem), space.ram.mem, space.root, address, record[..n]);
    assert record[..n] <= record;
  }

  lemma ListingNone(h: Heap, list: seq<int>, i: nat)
    requires i <= |list|
    ensures EncodeAll(Listing(h, list, i, i)) == []
  {
  }

  lemma ListingNext(h: Heap, list: seq<int>, from: nat, to: nat)
    requires from <= to < |list|
    ensures EncodeAll(Listing(h, list, from, to + 1)) ==
            EncodeAll(Listing(h, list, from, to)) + Encode(EntryAt(h, list, to))
  {
    hide Encode, EntryAt;
    var more := Listing(h, list, from, to + 1);
    assert more[..|more| - 1] == Listing(h, list, from, to) && more[|more| - 1] == EntryAt(h, list, to);
  }

  lemma ListingJoin(h: Heap, list: seq<int>, a: nat, b: nat, c: nat)
    requires a <= b <= c <= |list|
    ensures Listing(h, list, a, b) + Listing(h, list, b, c) == Listing(h, list, a, c)
  {
    hide EntryAt;
  }

  /**
   What a listing says of each child: its name, its inode's number, the offset behind it, and
   4 if the first entry of that name is a directory, else 8.
   */
  lemma ListingMeans(h: Heap, root: int, s: Shape, dir: int, from: nat, to: nat, k: nat)
    requires Sound(h, root, s) && dir in h && dir in s.kids && from + k < to <= |s.kids[dir]|
    ensures var d, c := Listing(h, s.kids[dir], from, to)[k], s.kids[dir][from + k];
            && c in h && d.name == h[c].name && d.ino == h[c].inode.value.ino
            && d.next == (from + k + 1) % 0x1_0000_0000_0000_0000
            && exists first :: first in h && FirstCalled(h, s, dir, d.name, first) &&
                 d.kind == if h[first].inode.value.Directory? then 4 else 8
  {
    hide Find, FirstCalled, IsTree, Sound;
    var c := s.kids[dir][from + k];
    SoundAt(h, root, s, dir);
    assert c in s.kids[dir];
    KidsOf(h, root, s, dir, c);
    FindIsFirst(h, root, s, dir, h[c].name);
    FindKid(h, root, s, dir, h[c].name);
    NamedFound(h, root, s, dir, c);
    assert Listing(h, s.kids[dir], from, to)[k] == EntryAt(h, s.kids[dir], from + k);
    SoundAt(h, root, s, c);
    SoundAt(h, root, s, Find(h, s.kids[dir], h[c].name));
  }

  lemma NamedFound(h: Heap, root: int, s: Shape, dir: int, c: int)
    requires Sound(h, root, s) && dir in h && c in s.kids[dir] && c in h
    ensures Find(h, s.kids[dir], h[c].name) != 0
  {
    hide Find;
    assert Threaded(h, dir, s.kids[dir]);
    FindFinds(h, s.kids[dir], h[c].name);
  }

  /** The directory behind a descriptor, and its children in list order. */
  ghost predicate OpenDirectory(process: Process, fd: nat)
    reads process, process.fs
    requires process.Inv()
  {
    && fd < MAX_OPEN_FILES && process.open[fd] in process.files
    && var d := process.files[process.open[fd]].dentry;
    d in process.fs.h && d in process.fs.s.kids && process.fs.h[d].inode.Some? && process.fs.h[d].inode.value.Directory?
  }

  ghost function Children(process: Process, fd: nat): seq<int>
    reads process, process.fs
    requires process.Inv() && OpenDirectory(process, fd)
  {
    process.fs.s.kids[process.files[process.open[fd]].dentry]
  }

  ghost function Offset(process: Process, fd: nat): u64
    reads process, process.fs
    requires process.Inv() && OpenDirectory(process, fd)
  {
    process.files[process.open[fd]].offset
  }

  /** `sys_getdents64`. */
  method SysGetdents64(process: Process, fd: nat, count: nat, space: A.AddressSpace, buffer: u64)
    returns (result: int, ghost bytes: seq<byte>, ghost partial: seq<byte>)
    requires process.Inv() && space.Valid()
    modifies process`files, space.ram
    ensures process.Inv() && process.files.Keys == old(process.files.Keys)
    ensures space.Valid() && A.SameLeaves(old(space.ram.mem), space.ram.mem, space.root)
    ensures T.Written(old(space.ram.mem), space.ram.mem, space.root, buffer, bytes + partial)
    ensures !old(OpenDirectory(process, fd)) ==> bytes == partial == [] && process.files == old(process.files)
    ensures !old(OpenDirectory(process, fd)) ==>
              result == (if fd >= MAX_OPEN_FILES || process.open[fd] == 0 then -9
                         else if count > 0x10_0000 then -22 else if count == 0 then 0 else -20)
    ensures old(OpenDirectory(process, fd)) ==> process.open[fd] in old(process.files)
    ensures old(OpenDirectory(process, fd)) ==>
              OpenDirectory(process, fd) && Children(process, fd) == old(Children(process, fd))
    ensures old(OpenDirectory(process, fd)) ==>
              var f := process.open[fd];
              process.files == old(process.files)[f := old(process.files)[f].(offset := Offset(process, fd))]
    ensures old(OpenDirectory(process, fd)) && !(0 < count <= 0x10_0000) ==>
              result == (if count == 0 then 0 else -22) && bytes == partial == []
              && process.files == old(process.files)
    ensures old(OpenDirectory(process, fd)) && |Children(process, fd)| < U64 && 0 < count <= MAX_IO_SIZE ==>
              var list, from, to := Children(process, fd), old(Offset(process, fd)), Offset(process, fd);
              Listed(process.fs.h, list, from, to, count, old(space.ram.mem), space.root, buffer, result, bytes)
  {
    hide Sound, IsTree, Accounts, SameLinks, PathOf, Find, EncodeAll, Encode, EntryAt, Listing, RecordLength, Reached,
         Found;
    hide A.CanWrite, A.SameLeaves, T.Written, A.AddressSpace.Valid;
    A.SameLeavesRefl(space.ram.mem, space.root);
    A.WrittenNothing(space.ram.mem, space.root, buffer);
    bytes, partial := [], [];
    assert bytes + partial == [];
    AccountsNull(process.fs.h, process.files, process.open);
    if fd >= MAX_OPEN_FILES || process.open[fd] == 0 {
      return EBADF, [], [];
    }
    FileOpen(process.fs.h, process.files, process.open, fd);
    if count > MAX_IO_SIZE {
      return EINVAL, [], [];
    }
    if count == 0 {
      return 0, [], [];
    }
    var f := process.open[fd];
    var file := process.files[f];
    NameableAt(process.tree, process.fs.h, process.fs.root, process.fs.s, file.dentry);
    TreeRoot(process.fs.h, process.fs.root, process.fs.s);
    if !process.fs.h[file.dentry].inode.value.Directory? {
      return ENOTDIR, [], [];
    }
    var stored, next;
    result, stored, next, partial := FillRecords(process.fs, file.dentry, file.offset, count, space, buffer);
    bytes := stored;
    TouchFile(process.fs.h, process.files, process.open, f, file.(offset := next % U64));
    process.files := process.files[f := file.(offset := next % U64)];
  }

  /** One call from offset `from` that left offset `to`. */
  ghost predicate Listed(h: Heap, list: seq<int>, from: nat, to: nat, count: nat, mem: T.Memory, root: int, buffer: u64,
                         result: int, bytes: seq<byte>)
  {
    if from >= |list| then result == 0 && bytes == [] && to == |list|
    else
      && from <= to <= |list| && bytes == EncodeAll(Listing(h, list, from, to))
      && (to > from ==> result == |bytes| > 0 && |bytes| <= count)
      && (to == from ==> bytes == [] && result == if Need(h, list, from) > count then -22 else -14)
      && to <= from + 8 && (to < Min(from + 8, |list|) ==> Stops(h, list, to, |bytes|, count, mem, root, buffer))
  }

  /**
   Listing an unchanged directory from the start, with buffers of any sizes that can be
   written: as long as each holds the next record, what the caller reads in its buffer is the
   records of the first children in list order, each once; more calls than children reach the
   one that returns 0, and then it is all of them, and reads back as such.
   */
  method ListDirectory(process: Process, fd: nat, space: A.AddressSpace, buffer: u64, sizes: seq<nat>)
    returns (bytes: seq<byte>, last: int, calls: nat)
    requires process.Inv() && OpenDirectory(process, fd) && Offset(process, fd) == 0 && space.Valid()
    requires |Children(process, fd)| < U64 && forall i :: 0 <= i < |sizes| ==> 0 < sizes[i] <= MAX_IO_SIZE
    requires forall i :: 0 <= i < |sizes| ==> A.CanWrite(space.ram.mem, space.root, buffer, sizes[i])
    modifies process`files, space.ram
    ensures process.Inv() && OpenDirectory(process, fd) && Children(process, fd) == old(Children(process, fd))
    ensures Offset(process, fd) <= |Children(process, fd)| && calls <= |sizes|
    ensures bytes == EncodeAll(Listing(process.fs.h, Children(process, fd), 0, Offset(process, fd)))
    ensures last == 0 ==> DecodeAll(bytes) == Listing(process.fs.h, Children(process, fd), 0, |Children(process, fd)|)
    ensures last < 0 ==> Offset(process, fd) < |Children(process, fd)| && calls > 0
    ensures last < 0 ==> Need(process.fs.h, Children(process, fd), Offset(process, fd)) > sizes[calls - 1]
    ensures last > 0 ==> calls == |sizes| <= |Children(process, fd)|
  {
    hide Sound, IsTree, Accounts, SameLinks, PathOf, Find, EncodeAll, Listing, RecordLength, Nameable;
    hide A.CanWrite, A.SameLeaves, T.Written, A.AddressSpace.Valid;
    bytes, last, calls := [], 1, 0;
    ghost var list, h, m0 := Children(process, fd), process.fs.h, space.ram.mem;
    ListingNone(h, list, 0);
    A.SameLeavesRefl(m0, space.root);
    while calls < |sizes| && last > 0
      invariant calls <= |sizes| && process.Inv() && OpenDirectory(process, fd) && Children(process, fd) == list
      invariant space.Valid() && A.SameLeaves(m0, space.ram.mem, space.root)
      invariant Offset(process, fd) <= |list|
      invariant bytes == EncodeAll(Listing(h, list, 0, Offset(process, fd)))
      invariant last == 0 ==> Offset(process, fd) == |list|
      invariant last < 0 ==> Offset(process, fd) < |list| && calls > 0
      invariant last < 0 ==> Need(h, list, Offset(process, fd)) > sizes[calls - 1]
      invariant last > 0 ==> calls <= Offset(process, fd)
    {
      ghost var from := Offset(process, fd);
      var got;
      last, got := CallAndRead(process, fd, sizes[calls], space, buffer, m0);
      if from < |list| {
        ListingJoin(h, list, 0, from, Offset(process, fd));
        EncodeConcat(Listing(h, list, 0, from), Listing(h, list, from, Offset(process, fd)));
      } else {
        assert bytes + [] == bytes;
      }
      bytes := bytes + got;
      calls := calls + 1;
    }
    if last == 0 {
      ListingValid(process.fs.h, process.fs.root, process.fs.s, process.files[process.open[fd]].dentry);
      RecordsRoundTrip(Listing(h, list, 0, |list|));
    }
  }

  /** One call and what the caller then finds in its buffer. */
  method CallAndRead(process: Process, fd: nat, size: nat, space: A.AddressSpace, buffer: u64, ghost m0: T.Memory)
    returns (result: int, got: seq<byte>)
    requires process.Inv() && OpenDirectory(process, fd) && space.Valid() && A.SameLeaves(m0, space.ram.mem, space.root)
    requires |Children(process, fd)| < U64 && 0 < size <= MAX_IO_SIZE && A.CanWrite(m0, space.root, buffer, size)
    modifies process`files, space.ram
    ensures process.Inv() && OpenDirectory(process, fd) && Children(process, fd) == old(Children(process, fd))
    ensures space.Valid() && A.SameLeaves(m0, space.ram.mem, space.root)
    ensures var list, from, to := Children(process, fd), old(Offset(process, fd)), Offset(process, fd);
            if from >= |list| then result == 0 && got == [] && to == |list|
            else
              && from <= to <= |list| && got == EncodeAll(Listing(process.fs.h, list, from, to))
              && (to > from ==> result > 0)
              && (to == from ==> result < 0 && Need(process.fs.h, list, from) > size)
  {
    hide Sound, IsTree, Accounts, SameLinks, PathOf, Find, EncodeAll, Listing, RecordLength, Nameable;
    hide A.CanWrite, A.SameLeaves, T.Written, A.AddressSpace.Valid, T.RangeMapped, A.Holds;
    ghost var m1, bytes, partial, list, from := space.ram.mem, [], [], Children(process, fd), Offset(process, fd);
    result, bytes, partial := SysGetdents64(process, fd, size, space, buffer);
    A.SameLeavesTrans(m0, m1, space.ram.mem, space.root);
    A.CanWriteSame(m0, m1, space.root, buffer, size);
    A.CanWriteSame(m0, space.ram.mem, space.root, buffer, size);
    got := [];
    if result > 0 {
      A.CanWriteLess(space.ram.mem, space.root, buffer, size, result);
      CanRead(space.ram.mem, space.root, buffer, result);
      var ok;
      ok, got := space.CopyFromUser(buffer, result);
      A.ReadsWritten(m1, space.ram.mem, space.root, buffer, bytes, partial, got);
    }
    if from < |list| && Offset(process, fd) == from && Need(process.fs.h, list, from) <= size {
      A.CanWriteLess(m1, space.root, buffer, size, Need(process.fs.h, list, from));
    }
  }

  lemma CanRead(mem: T.Memory, root: int, address: nat, size: nat)
    requires A.CanWrite(mem, root, address, size) && size > 0
    ensures T.RangeMapped(mem, root, address, size) && address + size <= T.USER_TOP
  {
  }

  lemma ListingValid(h: Heap, root: int, s: Shape, dir: int)
    requires Sound(h, root, s) && dir in h && dir in s.kids
    ensures forall i :: 0 <= i < |s.kids[dir]| ==> Listing(h, s.kids[dir], 0, |s.kids[dir]|)[i].Valid()
  {
    assert Threaded(h, dir, s.kids[dir]);
  }
}
