/**
 Open files and descriptors, as values: each file's count is the number of slots holding
 it, each dentry's is one more than the number of files open on it.
 */
module FileTable {
  import opened Bytes
  import opened Paths
  import opened DentryLists

  const MAX_OPEN_FILES: nat := 32

  datatype File = File(dentry: int, offset: u64, flags: u32, refs: int)

  type Files = map<int, File>

  ghost function FilesOn(files: Files, p: int): set<int> {
    set f | f in files && files[f].dentry == p
  }

  /** The accounts balance. */
  ghost predicate Accounts(h: Heap, files: Files, open: seq<int>) {
    && (forall fd :: 0 <= fd < |open| && open[fd] != 0 ==> open[fd] in files)
    && (forall f :: f in files ==> f != 0 && files[f].refs == multiset(open)[f] >= 1 && files[f].dentry in h)
    && (forall p :: p in h ==> h[p].refs == 1 + |FilesOn(files, p)|)
  }

  /** No file is new, and of each only the count may differ. */
  ghost predicate OnlyCounts(files: Files, files': Files) {
    forall f :: f in files' ==> f in files && files'[f].(refs := 0) == files[f].(refs := 0)
  }

  /** `vfs::close` on values. */
  function CloseFiles(files: Files, f: int): Files
    requires f in files
  {
    if files[f].refs == 1 then files - {f} else files[f := files[f].(refs := files[f].refs - 1)]
  }

  lemma CountsClose(files0: Files, files: Files, f: int)
    requires OnlyCounts(files0, files) && f in files
    ensures OnlyCounts(files0, CloseFiles(files, f))
  {
  }

  function CloseHeap(h: Heap, files: Files, f: int): Heap
    requires f in files && files[f].dentry in h
  {
    if files[f].refs == 1 then Bump(h, files[f].dentry, -1) else h
  }

  lemma FilesOnRefs(files: Files, f: int, x: File, p: int)
    requires f in files && x.dentry == files[f].dentry
    ensures FilesOn(files[f := x], p) == FilesOn(files, p)
  {
  }

  lemma FilesOnRemove(files: Files, f: int, p: int)
    requires f in files
    ensures FilesOn(files - {f}, p) == FilesOn(files, p) - {f}
    ensures |FilesOn(files - {f}, p)| == |FilesOn(files, p)| - if files[f].dentry == p then 1 else 0
  {
    assert FilesOn(files - {f}, p) == FilesOn(files, p) - {f};
    assert files[f].dentry == p <==> f in FilesOn(files, p);
  }

  lemma FilesOnAdd(files: Files, f: int, x: File, p: int)
    requires f !in files
    ensures |FilesOn(files[f := x], p)| == |FilesOn(files, p)| + if x.dentry == p then 1 else 0
  {
    if x.dentry == p {
      assert FilesOn(files[f := x], p) == FilesOn(files, p) + {f};
    } else {
      assert FilesOn(files[f := x], p) == FilesOn(files, p);
    }
  }

  lemma SlotCount(open: seq<int>, fd: nat, x: int, f: int)
    requires fd < |open|
    ensures multiset(open[fd := x])[f] ==
            multiset(open)[f] - (if open[fd] == f then 1 else 0) + (if x == f then 1 else 0)
    ensures open[fd] == f ==> multiset(open)[f] >= 1
  {
    assert open[fd] in multiset(open);
    assert multiset(open[fd := x]) == multiset(open) - multiset{open[fd]} + multiset{x};
  }

  /** Closing the file in a slot and clearing the slot balances; the last slot frees the file. */
  lemma CloseSlot(h: Heap, files: Files, open: seq<int>, fd: nat)
    requires Accounts(h, files, open) && fd < |open| && open[fd] != 0
    ensures open[fd] in files && files[open[fd]].dentry in h && h[files[open[fd]].dentry].refs > 1
    ensures Accounts(CloseHeap(h, files, open[fd]), CloseFiles(files, open[fd]), open[fd := 0])
    ensures open[fd] in CloseFiles(files, open[fd]) <==> open[fd] in open[fd := 0]
  {
    var f := open[fd];
    var h', files', open' := CloseHeap(h, files, f), CloseFiles(files, f), open[fd := 0];
    var d := files[f].dentry;
    assert f in FilesOn(files, d);
    assert h[d].refs > 1;
    forall g | g in files'
      ensures g != 0 && files'[g].refs == multiset(open')[g] >= 1 && files'[g].dentry in h'
    {
      SlotCount(open, fd, 0, g);
    }
    forall p | p in h'
      ensures h'[p].refs == 1 + |FilesOn(files', p)|
    {
      if files[f].refs == 1 {
        FilesOnRemove(files, f, p);
      } else {
        FilesOnRefs(files, f, files'[f], p);
      }
    }
    SlotCount(open, fd, 0, f);
    assert f in open' <==> f in multiset(open');
    forall k | 0 <= k < |open'| && open'[k] != 0
      ensures open'[k] in files'
    {
      assert open'[k] in multiset(open');
    }
  }

  /** One more slot for an open file. */
  lemma ShareSlot(h: Heap, files: Files, open: seq<int>, fd: nat, f: int)
    requires Accounts(h, files, open) && fd < |open| && open[fd] == 0 && f in files
    ensures Accounts(h, files[f := files[f].(refs := files[f].refs + 1)], open[fd := f])
  {
    var files', open' := files[f := files[f].(refs := files[f].refs + 1)], open[fd := f];
    forall g | g in files'
      ensures g != 0 && files'[g].refs == multiset(open')[g] >= 1 && files'[g].dentry in h
    {
      SlotCount(open, fd, f, g);
    }
    forall p | p in h
      ensures h[p].refs == 1 + |FilesOn(files', p)|
    {
      FilesOnRefs(files, f, files'[f], p);
    }
  }

  /** A new file on `p`, whose dentry has taken its reference already. */
  lemma OpenSlot(h: Heap, files: Files, open: seq<int>, fd: nat, f: int, p: int, x: File)
    requires Accounts(h, files, open) && fd < |open| && open[fd] == 0
    requires f != 0 && f !in files && p in h && x.dentry == p && x.refs == 1
    ensures Accounts(Bump(h, p, 1), files[f := x], open[fd := f])
  {
    var h', files', open' := Bump(h, p, 1), files[f := x], open[fd := f];
    assert f !in open;
    assert multiset(open)[f] == 0;
    forall g | g in files'
      ensures g != 0 && files'[g].refs == multiset(open')[g] >= 1 && files'[g].dentry in h'
    {
      SlotCount(open, fd, f, g);
    }
    forall q | q in h'
      ensures h'[q].refs == 1 + |FilesOn(files', q)|
    {
      FilesOnAdd(files, f, x, q);
    }
  }

  /** Offsets and flags do not matter to the accounts. */
  lemma TouchFile(h: Heap, files: Files, open: seq<int>, f: int, x: File)
    requires Accounts(h, files, open) && f in files && x.dentry == files[f].dentry && x.refs == files[f].refs
    ensures Accounts(h, files[f := x], open)
  {
    forall p | p in h
      ensures h[p].refs == 1 + |FilesOn(files[f := x], p)|
    {
      FilesOnRefs(files, f, x, p);
    }
  }
}
