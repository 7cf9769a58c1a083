/**
 Replacing the running image: the strings are copied out of the old address space, the new
 one is built beside it from the same page allocator, and then the old one is torn down.
 */
module Execve {
  import opened Bytes
  import opened PageBitmap
  import opened PageTables
  import opened AddressSpaces
  import opened Segments
  import opened ImageLoader
  import opened InitialStack
  import opened Exec

  const MAX_EXEC_STRINGS: nat := 64
  const MAX_EXEC_STRING_BYTES: nat := 16 * 1024

  /** The bitmap after the pages of one space have been exchanged for those of another. */
  ghost predicate Exchanged(before: seq<bool>, gone: set<int>, after: seq<bool>, come: set<int>) {
    gone !! come && Grows(Unmark(before, gone), {}, after, come)
  }

  lemma GrowsUsed(b0: seq<bool>, b1: seq<bool>, l: set<int>, total: nat)
    requires Grows(b0, {}, b1, l) && total <= |b0|
    ensures UsedSet(b0, total) <= UsedSet(b1, total) && UsedSet(b0, total) !! l
  {
  }

  lemma ExchangedBits(b0: seq<bool>, b1: seq<bool>, gone: set<int>, come: set<int>, total: nat)
    requires Grows(b0, {}, b1, come) && total <= |b0| && gone <= UsedSet(b0, total)
    ensures gone !! come && Exchanged(b0, gone, Unmark(b1, gone), come)
  {
    forall p | p in gone
      ensures p !in come
    {
    }
    var after := Unmark(b1, gone);
    forall p | p in come
      ensures 0 <= p < |b0| && !Unmark(b0, gone)[p] && after[p]
    {
    }
  }

  /** Freeing one space leaves the other, on frames of its own, as it was. */
  lemma StillUsed(bits: seq<bool>, gone: set<int>, kept: set<int>, total: nat)
    requires total <= |bits| && kept <= UsedSet(bits, total) && gone !! kept
    ensures kept <= UsedSet(Unmark(bits, gone), total)
  {
  }

  /**
   `activate`: the new space takes over, and the old one is destroyed. Every frame of the old
   one is freed once, no other is, and physical memory keeps every byte.
   */
  method Activate(current: AddressSpace, space: AddressSpace)
    requires current.Valid() && space.Valid() && current != space && current.pmm == space.pmm
    requires current.sh.level.Keys !! space.sh.level.Keys
    modifies current`freed, current.pmm`freePages, current.pmm.bitmap
    ensures space.Valid() && current.pmm.Bits() == Unmark(old(current.pmm.Bits()), current.sh.level.Keys)
    ensures current.freed == old(current.freed) + multiset(current.sh.level.Keys)
  {
    hide BitsOf, Tree, Unmark;
    ghost var pmm := current.pmm;
    StillUsed(pmm.Bits(), current.sh.level.Keys, space.sh.level.Keys + {0}, pmm.totalPages);
    current.DestroyAddressSpace();
  }

  /** What a space shows at every user address, and its kernel half, stay as they are. */
  ghost predicate StillShows(m0: Memory, m1: Memory, root: int) {
    && (forall a: nat :: a < USER_TOP ==> See(m1, root, a) == See(m0, root, a))
    && (forall j :: Entry(m1, root, j) == Entry(m0, root, j))
  }

  /** Building one space leaves another, on frames that were in use, as it was. */
  lemma Bystander(m0: Memory, m1: Memory, root: int, sh: Shadow)
    requires Tree(m0, root, sh) && Undisturbed(m0, m1, sh.level.Keys)
    ensures Tree(m1, root, sh) && StillShows(m0, m1, root)
  {
    hide Tree, See, Entry, Leaf, Indices, SamePages;
    OthersKeep(m0, m1, root, sh);
    forall a: nat | a < USER_TOP
      ensures See(m1, root, a) == See(m0, root, a)
    {
      UserIndices(a);
      SeeSameLeaf(m0, root, sh, m1, a);
    }
  }

  /** The strings a vector argument stands for; null stands for none. */
  ghost predicate Passed(mem: Memory, root: int, vector: u64, strings: seq<Str>) {
    if vector == 0 then strings == [] else VectorAt(mem, root, vector, strings)
  }

  /** There is a vector argument, and no vector at its address is within the limits. */
  ghost predicate Refuses(mem: Memory, root: int, vector: u64, room: nat) {
    vector != 0 && NoneFits(mem, root, vector, MAX_EXEC_STRINGS, room)
  }

  /** One of the two vectors does not fit what is left of the store, or is not there. */
  ghost predicate Unreadable(mem: Memory, root: int, userArgv: u64, userEnvp: u64) {
    || Refuses(mem, root, userArgv, MAX_EXEC_STRING_BYTES)
    || exists argv: seq<Str> ::
         && Passed(mem, root, userArgv, argv) && |Flatten(argv)| <= MAX_EXEC_STRING_BYTES
         && Refuses(mem, root, userEnvp, MAX_EXEC_STRING_BYTES - |Flatten(argv)|)
  }

  /** Reading a vector argument fails with `code`: -7 for too much, -14 for what cannot be read. */
  ghost predicate Blames(mem: Memory, root: int, vector: u64, room: nat, code: int) {
    vector != 0 && (if code == -7 then TooBig(mem, root, vector, 64, room)
                    else code == -14 && Faults(mem, root, vector, 64, room))
  }

  /** Reading the two vectors, argv first, fails with `code`; both share 16384 bytes. */
  ghost predicate Fails(mem: Memory, root: int, userArgv: u64, userEnvp: u64, code: int) {
    || Blames(mem, root, userArgv, 16384, code)
    || exists argv: seq<Str> ::
         && Passed(mem, root, userArgv, argv) && |argv| <= 64 && |Flatten(argv)| <= 16384
         && Blames(mem, root, userEnvp, 16384 - |Flatten(argv)|, code)
  }

  lemma BlamesRefuses(mem: Memory, root: int, vector: u64, room: nat, code: int)
    requires Blames(mem, root, vector, room, code)
    ensures Refuses(mem, root, vector, room)
  {
    hide TooBig, Faults, NoneFits;
    TooBigNoneFits(mem, root, vector, 64, room);
  }

  lemma BlamesOnce(mem: Memory, root: int, vector: u64, room: nat, c: int, d: int)
    requires Blames(mem, root, vector, room, c) && Blames(mem, root, vector, room, d)
    ensures c == d
  {
    hide Overflows, Breaks;
    if c != d {
      var s: seq<Str> :| Overflows(mem, root, vector, s, 64, room);
      var t: seq<Str> :| Breaks(mem, root, vector, t, 64, room);
      OneReason(mem, root, vector, s, t, 64, room);
    }
  }

  lemma PassedNotBlamed(mem: Memory, root: int, vector: u64, room: nat, code: int, strings: seq<Str>)
    requires Passed(mem, root, vector, strings) && |strings| <= 64 && |Flatten(strings)| <= room
    ensures !Blames(mem, root, vector, room, code)
  {
    hide Blames, VectorAt, Flatten;
    if Blames(mem, root, vector, room, code) {
      BlamesRefuses(mem, root, vector, room, code);
    }
  }

  /** There is one error at most, and there is none exactly if both vectors can be read within the limits. */
  lemma FailsOnce(mem: Memory, root: int, userArgv: u64, userEnvp: u64, c: int, d: int)
    requires Fails(mem, root, userArgv, userEnvp, c) && Fails(mem, root, userArgv, userEnvp, d)
    ensures c == d
  {
    hide Blames, Passed, Flatten;
    if Blames(mem, root, userArgv, 16384, c) && Blames(mem, root, userArgv, 16384, d) {
      BlamesOnce(mem, root, userArgv, 16384, c, d);
    } else {
      var argv: seq<Str> :| Passed(mem, root, userArgv, argv) && |argv| <= 64 && |Flatten(argv)| <= 16384;
      PassedNotBlamed(mem, root, userArgv, 16384, c, argv);
      PassedNotBlamed(mem, root, userArgv, 16384, d, argv);
      forall t: seq<Str> | Passed(mem, root, userArgv, t)
        ensures t == argv
      {
        PassedOnce(mem, root, userArgv, t, argv);
      }
      BlamesOnce(mem, root, userEnvp, 16384 - |Flatten(argv)|, c, d);
    }
  }

  /** Vectors can be read exactly if both are there, with at most 64 strings each and 16384 bytes in all. */
  lemma ReadableIs(mem: Memory, root: int, userArgv: u64, userEnvp: u64)
    ensures !Unreadable(mem, root, userArgv, userEnvp) <==>
            exists argv: seq<Str>, envp: seq<Str> ::
              && Passed(mem, root, userArgv, argv) && |argv| <= 64
              && Passed(mem, root, userEnvp, envp) && |envp| <= 64 && |Flatten(argv)| + |Flatten(envp)| <= 16384
  {
    hide VectorAt, Flatten;
    FlattenNone();
    if argv: seq<Str>, envp: seq<Str> :|
      && Passed(mem, root, userArgv, argv) && |argv| <= 64
      && Passed(mem, root, userEnvp, envp) && |envp| <= 64 && |Flatten(argv)| + |Flatten(envp)| <= 16384 {
      ReadMeansReadable(mem, root, userArgv, userEnvp, argv, envp);
    } else if !Unreadable(mem, root, userArgv, userEnvp) {
      var argv := NotRefused(mem, root, userArgv, 16384);
      var envp := NotRefused(mem, root, userEnvp, 16384 - |Flatten(argv)|);
    }
  }

  lemma NotRefused(mem: Memory, root: int, vector: u64, room: nat) returns (strings: seq<Str>)
    requires !Refuses(mem, root, vector, room)
    ensures Passed(mem, root, vector, strings) && |strings| <= 64 && |Flatten(strings)| <= room
  {
    hide VectorAt, Flatten;
    FlattenNone();
    strings := [];
    if vector != 0 {
      strings :| VectorAt(mem, root, vector, strings) && |strings| <= 64 && |Flatten(strings)| <= room;
    }
  }

  lemma PassedOnce(mem: Memory, root: int, vector: u64, s: seq<Str>, t: seq<Str>)
    requires Passed(mem, root, vector, s) && Passed(mem, root, vector, t)
    ensures s == t
  {
    hide VectorAt;
    if vector != 0 {
      VectorUnique(mem, root, vector, s, t);
    }
  }

  /** Vectors that were read were not to be refused. */
  lemma ReadMeansReadable(mem: Memory, root: int, userArgv: u64, userEnvp: u64, argv: seq<Str>, envp: seq<Str>)
    requires Passed(mem, root, userArgv, argv) && |argv| <= MAX_EXEC_STRINGS
    requires Passed(mem, root, userEnvp, envp) && |envp| <= MAX_EXEC_STRINGS
    requires |Flatten(argv)| + |Flatten(envp)| <= MAX_EXEC_STRING_BYTES
    ensures !Unreadable(mem, root, userArgv, userEnvp)
  {
    hide VectorAt, Flatten;
    forall t: seq<Str> | Passed(mem, root, userArgv, t)
      ensures t == argv
    {
      PassedOnce(mem, root, userArgv, t, argv);
    }
  }

  /** The two vectors, copied into one store: an error exactly if one of them cannot be. */
  method CopyStrings(current: AddressSpace, userArgv: u64, userEnvp: u64)
    returns (error: int, argv: seq<Str>, envp: seq<Str>)
    requires current.Valid()
    ensures error != 0 <==> Unreadable(current.ram.mem, current.root, userArgv, userEnvp)
    ensures error != 0 ==> error in {-7, -14} && Fails(current.ram.mem, current.root, userArgv, userEnvp, error)
    ensures error == 0 ==> |argv| <= MAX_EXEC_STRINGS && Passed(current.ram.mem, current.root, userArgv, argv)
    ensures error == 0 ==> |envp| <= MAX_EXEC_STRINGS && Passed(current.ram.mem, current.root, userEnvp, envp)
  {
    hide Tree, VectorAt, NoneFits, Flatten, TooBig, Faults;
    FlattenNone();
    var argc, envc, used;
    argv, envp := [], [];
    argc, argv, used := CopyUserVector(current, userArgv, MAX_EXEC_STRINGS, MAX_EXEC_STRING_BYTES, 0);
    if argc < 0 {
      return argc, argv, envp;
    }
    envc, envp, used := CopyUserVector(current, userEnvp, MAX_EXEC_STRINGS, MAX_EXEC_STRING_BYTES, used);
    if envc < 0 {
      return envc, argv, envp;
    }
    ReadMeansReadable(current.ram.mem, current.root, userArgv, userEnvp, argv, envp);
    return 0, argv, envp;
  }

  /**
   `sys_execve` once the path is known. It fails exactly for unreadable vectors or with what
   `load_image` returns, and then leaves every page, and all that the running space shows, as
   they were. A success leaves a complete new image whose stack holds exactly the strings the
   caller passed, exchanges the pages of the old space for those of the new one, and frees
   each old frame once.
   */
  method SysExecve(current: AddressSpace, pml4: Option<seq<Pte>>, file: seq<byte>, h: Headers, nx: bool,
                   path: Str, userArgv: u64, userEnvp: u64)
    returns (status: int, space: AddressSpace, image: Image, ghost argv: seq<Str>, ghost envp: seq<Str>)
    requires current.Valid() && (pml4.Some? ==> |pml4.value| == ENTRIES)
    modifies current`freed, current.ram, current.pmm, current.pmm.bitmap
    ensures current.pmm.bitmap == old(current.pmm.bitmap) && current.pmm.Valid()
    ensures Unreadable(old(current.ram.mem), current.root, userArgv, userEnvp) ==>
              status in {-7, -14} && Fails(old(current.ram.mem), current.root, userArgv, userEnvp, status)
    ensures !Unreadable(old(current.ram.mem), current.root, userArgv, userEnvp) ==>
              && Passed(old(current.ram.mem), current.root, userArgv, argv)
              && Passed(old(current.ram.mem), current.root, userEnvp, envp)
              && status == StatusOf(pml4.Some?, |FreeSet(old(current.pmm.Bits()), old(current.pmm.totalPages))|,
                                    h, file, nx, argv, envp, path)
    ensures StillShows(old(current.ram.mem), current.ram.mem, current.root)
    ensures status != 0 ==> current.Valid() && current.freed == old(current.freed)
    ensures status != 0 ==> current.pmm.bitmap[..] == old(current.pmm.bitmap[..])
    ensures status != 0 ==> current.pmm.freePages == old(current.pmm.freePages)
    ensures status == 0 ==> HeadersOk(h, file) && space.Valid() && space.pmm == current.pmm && space.ram == current.ram
    ensures status == 0 ==>
              Exchanged(old(current.pmm.Bits()), current.sh.level.Keys, current.pmm.Bits(), space.sh.level.Keys)
    ensures status == 0 ==> current.freed == old(current.freed) + multiset(current.sh.level.Keys)
    ensures status == 0 ==> Complete(current.ram.mem, space.root, h, file, nx)
    ensures status == 0 ==> Starts(current.ram.mem, space.root, h.entry + Bias(h))
    ensures status == 0 ==> ProcessStack(current.ram.mem, space.root, argv, envp, path,
                                         h.phdr, h.phentsize, h.phnum, h.entry + Bias(h), image)
  {
    hide BitsOf, Tree, Unmark, Grows, HeadersOk, Complete, Starts, StackBuilt, FreeSet, Undisturbed, ProcessStack;
    hide Exchanged, Unreadable, Passed, StatusOf, StillShows, Fails;
    var pmm := current.pmm;
    space, image := current, Image(0, 0, 0, 0);
    ShowsSame(current.ram.mem, current.root);
    var error, args, env := CopyStrings(current, userArgv, userEnvp);
    argv, envp := args, env;
    if error != 0 {
      return error, space, image, argv, envp;
    }
    ghost var b0 := pmm.Bits();
    status, space, image := LoadImage(pmm, current.ram, pml4, file, h, nx, args, env, path);
    UndisturbedLess(old(current.ram.mem), current.ram.mem, old(pmm.Used()), current.sh.level.Keys);
    Bystander(old(current.ram.mem), current.ram.mem, current.root, current.sh);
    KernelKept(old(current.ram.mem), current.ram.mem, current.root);
    if status != 0 {
      SameUsed(old(pmm.bitmap[..]), pmm);
      return;
    }
    GrowsUsed(b0, pmm.Bits(), space.sh.level.Keys, pmm.totalPages);
    ExchangedBits(b0, pmm.Bits(), current.sh.level.Keys, space.sh.level.Keys, pmm.totalPages);
    Activate(current, space);
  }

  lemma ShowsSame(mem: Memory, root: int)
    ensures StillShows(mem, mem, root)
  {
  }

  lemma KernelKept(m0: Memory, m1: Memory, root: int)
    requires StillShows(m0, m1, root)
    ensures forall j :: Entry(m1, root, j) == Entry(m0, root, j)
  {
  }

  lemma UndisturbedLess(m0: Memory, m1: Memory, used: set<int>, kept: set<int>)
    requires Undisturbed(m0, m1, used) && kept <= used
    ensures Undisturbed(m0, m1, kept)
  {
  }

  lemma SameUsed(before: seq<bv8>, pmm: Pmm)
    requires pmm.bitmap[..] == before
    ensures pmm.Bits() == PageBitmap.BitsOf(before)
  {
  }
}
