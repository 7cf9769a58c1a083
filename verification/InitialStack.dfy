/**
 The initial process stack (System V ABI AMD64 supplement, section 3.4.1) and the
 system call that reads argument vectors back: what one lays out, the other returns.
 */
module InitialStack {
  import opened Bytes
  import opened PageBitmap
  import opened PageTables
  import opened TableNodes
  import opened AddressSpaces
  import opened Segments
  import opened ImageLoader

  const MAX_STACK_STRINGS: nat := 16 * 1024
  const ERR_FAULT: int := -14
  const ERR_2BIG: int := -7

  /** Strings as they lie in memory, each followed by its terminator. */
  function Flatten(strings: seq<Str>): (r: seq<byte>)
  {
    if strings == [] then [] else strings[0] + [0] + Flatten(strings[1..])
  }

  /** Where the strings land when they end at `top`. */
  function Addresses(strings: seq<Str>, top: nat): (r: seq<u64>)
    requires |Flatten(strings)| <= top < U64
    ensures |r| == |strings|
  {
    if strings == [] then [] else [top - |Flatten(strings)|] + Addresses(strings[1..], top)
  }

  function WordBytes(words: seq<u64>): (r: seq<byte>)
    ensures |r| == 8 * |words|
  {
    if words == [] then [] else WordBytes(words[..|words| - 1]) + Word(words[|words| - 1])
  }

  /** The stack is mapped, and from `cursor` to its top holds `content`. */
  ghost predicate OnStack(mem: Memory, root: int, cursor: nat, content: seq<byte>) {
    && STACK_BOTTOM <= cursor && cursor + |content| == USER_STACK_TOP
    && Holds(mem, root, cursor, content)
    && (forall a :: STACK_BOTTOM <= a < USER_STACK_TOP ==> VByte(mem, root, a).Some?)
  }

  /** ... and everything off the stack is as in `m0`. */
  ghost predicate StackHolds(m0: Memory, mem: Memory, root: int, cursor: nat, content: seq<byte>) {
    OnStack(mem, root, cursor, content) && SameOff(m0, mem, root)
  }

  ghost predicate SameOff(m0: Memory, mem: Memory, root: int) {
    forall a :: 0 <= a < STACK_BOTTOM || USER_STACK_TOP <= a < USER_TOP ==> See(mem, root, a) == See(m0, root, a)
  }

  lemma StackRange(m0: Memory, mem: Memory, root: int, cursor: nat, content: seq<byte>, at: nat, n: nat)
    requires StackHolds(m0, mem, root, cursor, content) && STACK_BOTTOM <= at && at + n <= cursor
    ensures RangeMapped(mem, root, at, n)
  {
  }

  /** Writing directly below the cursor extends the content. */
  lemma StackPush(m0: Memory, m1: Memory, m2: Memory, root: int, cursor: nat, content: seq<byte>, data: seq<byte>)
    requires StackHolds(m0, m1, root, cursor, content) && |data| <= cursor - STACK_BOTTOM
    requires SameLeaves(m1, m2, root) && Written(m1, m2, root, cursor - |data|, data)
    ensures StackHolds(m0, m2, root, cursor - |data|, data + content)
  {
    hide VByte, See, Leaf;
    SeeWritten(m1, m2, root, cursor - |data|, data);
    forall a | cursor - |data| <= a < USER_STACK_TOP
      ensures VByte(m2, root, a) == Some((data + content)[a - (cursor - |data|)])
    {
      if a >= cursor {
        assert VByte(m1, root, a) == Some(content[a - cursor]);
      }
    }
  }

  /** One of the two string loops of `map_user_stack`, from the last string to the first. */
  method PushStrings(space: AddressSpace, strings: seq<Str>, top: nat, total: nat, ghost m0: Memory,
                     ghost content: seq<byte>)
    returns (ok: bool, cursor: nat, addresses: seq<u64>, used: nat)
    requires space.Valid() && StackHolds(m0, space.ram.mem, space.root, top, content)
    requires total == |content| <= MAX_STACK_STRINGS
    modifies space.ram
    ensures space.Valid() && Copies(old(space.ram.mem), space.ram.mem, space.root, space.sh.level.Keys)
    ensures ok <==> |Flatten(strings)| + total <= MAX_STACK_STRINGS
    ensures ok ==> StackHolds(m0, space.ram.mem, space.root, cursor, Flatten(strings) + content)
    ensures ok ==>
            used == total + |Flatten(strings)| && addresses == Addresses(strings, top)
            && cursor == top - |Flatten(strings)|
  {
    hide Leaf, Tree, StackHolds, Written, RangeMapped, Flatten, Addresses, SameLeaves;
    StackBounds(m0, space.ram.mem, space.root, top, content);
    AddressesNone(top);
    CopiesRefl(space.ram.mem, space.root, space.sh.level.Keys);
    cursor, used, addresses := top, total, [];
    var i := |strings|;
    assert strings[i..] == [];
    assert [] + content == content;
    while i > 0
      invariant 0 <= i <= |strings|
      invariant space.Valid() && Copies(old(space.ram.mem), space.ram.mem, space.root, space.sh.level.Keys)
      invariant StackHolds(m0, space.ram.mem, space.root, cursor, Flatten(strings[i..]) + content)
      invariant used == total + |Flatten(strings[i..])| <= MAX_STACK_STRINGS
      invariant cursor == top - |Flatten(strings[i..])| && addresses == Addresses(strings[i..], top)
    {
      var data := strings[i - 1] + [0];
      FlattenAt(strings, i - 1);
      FlattenSuffix(strings, i - 1);
      if |data| > MAX_STACK_STRINGS - used || |data| > cursor - STACK_BOTTOM {
        return false, cursor, addresses, used;
      }
      ghost var m1 := space.ram.mem;
      cursor := cursor - |data|;
      StackRange(m0, m1, space.root, cursor + |data|, Flatten(strings[i..]) + content, cursor, |data|);
      var copied := space.CopyToSpace(cursor, data);
      CopiesTrans(old(space.ram.mem), m1, space.ram.mem, space.root, space.sh.level.Keys);
      StackPush(m0, m1, space.ram.mem, space.root, cursor + |data|, Flatten(strings[i..]) + content, data);
      assert data + (Flatten(strings[i..]) + content) == Flatten(strings[i - 1..]) + content;
      AddressesAt(strings, i - 1, top);
      addresses := [cursor] + addresses;
      used := used + |data|;
      i := i - 1;
    }
    assert strings[0..] == strings;
    return true, cursor, addresses, used;
  }

  lemma FlattenAt(strings: seq<Str>, i: nat)
    requires i < |strings|
    ensures Flatten(strings[i..]) == strings[i] + [0] + Flatten(strings[i + 1..])
  {
    hide Flatten;
    FlattenCons(strings[i..]);
    assert strings[i..][1..] == strings[i + 1..];
  }

  lemma AddressesNone(top: u64)
    ensures Flatten([]) == [] && Addresses([], top) == []
  {
  }

  lemma AddressesAt(strings: seq<Str>, i: nat, top: u64)
    requires i < |strings| && |Flatten(strings[i..])| <= top
    ensures |Flatten(strings[i + 1..])| <= top
    ensures Addresses(strings[i..], top) == [top - |Flatten(strings[i..])|] + Addresses(strings[i + 1..], top)
  {
    FlattenAt(strings, i);
    assert strings[i..][1..] == strings[i + 1..];
  }

  lemma StackBounds(m0: Memory, mem: Memory, root: int, cursor: nat, content: seq<byte>)
    requires StackHolds(m0, mem, root, cursor, content)
    ensures STACK_BOTTOM <= cursor <= USER_STACK_TOP && cursor + |content| == USER_STACK_TOP
  {
  }

  lemma {:induction false} FlattenSuffix(strings: seq<Str>, i: nat)
    requires i <= |strings|
    ensures |Flatten(strings[i..])| <= |Flatten(strings)|
    decreases i
  {
    if i > 0 {
      FlattenSuffix(strings[1..], i - 1);
      assert strings[1..][i - 1..] == strings[i..];
    }
  }

  /** Writing elsewhere below the cursor keeps the content, and what lies below the write. */
  lemma StackBelow(m0: Memory, m1: Memory, m2: Memory, root: int, cursor: nat, content: seq<byte>, at: nat,
                   data: seq<byte>)
    requires StackHolds(m0, m1, root, cursor, content) && STACK_BOTTOM <= at && at + |data| <= cursor
    requires SameLeaves(m1, m2, root) && Written(m1, m2, root, at, data)
    ensures StackHolds(m0, m2, root, cursor, content)
  {
    hide VByte, See, Leaf;
    SeeWritten(m1, m2, root, at, data);
  }

  lemma HoldsNext(m1: Memory, m2: Memory, root: int, at: nat, before: seq<byte>, data: seq<byte>)
    requires Holds(m1, root, at, before) && Written(m1, m2, root, at + |before|, data)
    requires at + |before| + |data| <= USER_TOP
    ensures Holds(m2, root, at, before + data)
  {
    hide VByte;
    forall a | at <= a < at + |before| + |data|
      ensures VByte(m2, root, a) == Some((before + data)[a - at])
    {
    }
  }

  /** The stores of the argument count, the vectors and the auxiliary vector. */
  method WriteWords(space: AddressSpace, at: nat, words: seq<u64>, ghost m0: Memory, ghost cursor: nat,
                    ghost content: seq<byte>)
    returns (ok: bool)
    requires space.Valid() && StackHolds(m0, space.ram.mem, space.root, cursor, content)
    requires STACK_BOTTOM <= at && at + 8 * |words| <= cursor
    modifies space.ram
    ensures ok && space.Valid() && Copies(old(space.ram.mem), space.ram.mem, space.root, space.sh.level.Keys)
    ensures StackHolds(m0, space.ram.mem, space.root, cursor, content)
    ensures Holds(space.ram.mem, space.root, at, WordBytes(words))
  {
    hide Leaf, Tree, StackHolds, Written, RangeMapped, VByte;
    StackBounds(m0, space.ram.mem, space.root, cursor, content);
    var i := 0;
    assert words[..0] == [];
    while i < |words|
      invariant 0 <= i <= |words|
      invariant space.Valid() && Copies(old(space.ram.mem), space.ram.mem, space.root, space.sh.level.Keys)
      invariant StackHolds(m0, space.ram.mem, space.root, cursor, content)
      invariant Holds(space.ram.mem, space.root, at, WordBytes(words[..i]))
    {
      ghost var m1 := space.ram.mem;
      var data := Word(words[i]);
      StackRange(m0, m1, space.root, cursor, content, at + 8 * i, 8);
      ok := space.CopyToSpace(at + 8 * i, data);
      StackBelow(m0, m1, space.ram.mem, space.root, cursor, content, at + 8 * i, data);
      HoldsNext(m1, space.ram.mem, space.root, at, WordBytes(words[..i]), data);
      assert words[..i + 1][..i] == words[..i];
      i := i + 1;
    }
    assert words[..i] == words;
    return true;
  }

  /** What the loader reports about the stack it built. */
  datatype Image = Image(stack: nat, argc: nat, argv: nat, envp: nat)

  /** The words from the stack pointer up: count, argument and environment pointers, auxiliary vector. */
  function Words(argv: seq<u64>, envp: seq<u64>, phdr: u64, phentsize: u64, phnum: u64, entry: u64,
                 execfn: u64): (r: seq<u64>)
    requires |argv| < U64
    ensures |r| == |argv| + |envp| + 19
  {
    [|argv|] + argv + [0] + envp + [0] +
    [3, phdr, 4, phentsize, 5, phnum, 6, 4096, 7, 0, 9, entry, 31, execfn, 0, 0]
  }

  /** The strings as they lie at the top of the stack. */
  function StackStrings(argv: seq<Str>, envp: seq<Str>, path: Str): seq<byte> {
    path + [0] + (Flatten(argv) + Flatten(envp))
  }

  function AlignDown16(a: nat): (r: nat)
    ensures r % 16 == 0 && r <= a < r + 16
  {
    a / 16 * 16
  }

  /** The layout `map_user_stack` promises. */
  ghost predicate StackBuilt(mem: Memory, root: int, argv: seq<Str>, envp: seq<Str>, path: Str,
                             phdr: u64, phentsize: u64, phnum: u64, entry: u64, image: Image)
    requires |argv| < U64
  {
    var strings := StackStrings(argv, envp, path);
    && |strings| <= MAX_STACK_STRINGS
    && var cursor := USER_STACK_TOP - |strings|;
    && var argvAt := Addresses(argv, USER_STACK_TOP - |Flatten(envp)|);
    && var envpAt := Addresses(envp, USER_STACK_TOP);
    && OnStack(mem, root, cursor, strings)
    && image.stack % 16 == 0 && STACK_BOTTOM <= image.stack
    && image.stack + 8 * (|argv| + |envp| + 19) <= cursor
    && Holds(mem, root, image.stack, WordBytes(Words(argvAt, envpAt, phdr, phentsize, phnum, entry, cursor)))
    && image.argc == |argv| && image.argv == image.stack + 8 && image.envp == image.stack + 8 * (|argv| + 2)
  }

  /** Whether strings and words fit the stack at all. */
  predicate StackFits(argv: seq<Str>, envp: seq<Str>, path: Str) {
    |StackStrings(argv, envp, path)| <= MAX_STACK_STRINGS
  }

  /** The page numbers of the stack. */
  ghost function StackPages(): set<nat> {
    Between(STACK_BOTTOM / PAGE_BYTES, USER_STACK_TOP / PAGE_BYTES)
  }

  /** `map_user_stack`. */
  method MapUserStack(space: AddressSpace, nx: bool, argv: seq<Str>, envp: seq<Str>, path: Str,
                      phdr: u64, phentsize: u64, phnum: u64, entry: u64) returns (ok: bool, image: Image)
    requires space.Valid() && |argv| <= 128 && |envp| <= 128
    modifies space.ram, space`sh, space.pmm`freePages, space.pmm.bitmap
    ensures space.Builds()
    ensures ok ==> StackFits(argv, envp, path)
    ensures ok ==>
            StackBuilt(space.ram.mem, space.root, argv, envp, path, phdr, phentsize, phnum, entry, image)
    ensures ok ==> SameOff(old(space.ram.mem), space.ram.mem, space.root)
    ensures ok ==> StackPermissions(old(space.ram.mem), space.ram.mem, space.root, nx)
    ensures !ok && StackFits(argv, envp, path) ==> FreeSet(space.pmm.Bits(), space.pmm.totalPages) == {}
    ensures var all := old(Nodes(space.ram.mem, space.root)) + Ways(StackPages());
            && (ok ==> Nodes(space.ram.mem, space.root) == all)
            && (!ok && StackFits(argv, envp, path) ==> Nodes(space.ram.mem, space.root) < all)
  {
    hide Nodes, Ways;
    hide BitsOf, Tree, Grows, Leaf, Indices, See, PagesMapped, Written, RangeMapped, OnStack, SameOff, Flatten, VByte,
         Holds, FreeSet, WordBytes, Words, SameLeaves;
    image := Image(0, 0, 0, 0);
    ok := MapPages(space, STACK_BOTTOM, USER_STACK_TOP, Flags(true, nx));
    if !ok {
      return false, image;
    }
    StackMapped(old(space.ram.mem), space.ram.mem, space.root, Flags(true, nx));
    ghost var mapped := space.ram.mem;
    var cursor, argvAt, envpAt, used;
    ok, cursor, envpAt, used := PushStrings(space, envp, USER_STACK_TOP, 0, old(space.ram.mem), []);
    ghost var m1 := space.ram.mem;
    KeepsNodes(mapped, m1, space.root);
    if !ok {
      return false, image;
    }
    assert Flatten(envp) + [] == Flatten(envp);
    StackBounds(old(space.ram.mem), space.ram.mem, space.root, cursor, Flatten(envp));
    ok, cursor, argvAt, used := PushStrings(space, argv, cursor, used, old(space.ram.mem), Flatten(envp));
    CopiesTrans(mapped, m1, space.ram.mem, space.root, space.sh.level.Keys);
    KeepsNodes(m1, space.ram.mem, space.root);
    if !ok {
      return false, image;
    }
    ghost var content := Flatten(argv) + Flatten(envp);
    var data := path + [0];
    if |data| > MAX_STACK_STRINGS - used || |data| > cursor - STACK_BOTTOM {
      return false, image;
    }
    m1 := space.ram.mem;
    cursor := cursor - |data|;
    StackRange(old(space.ram.mem), m1, space.root, cursor + |data|, content, cursor, |data|);
    ok := space.CopyToSpace(cursor, data);
    CopiesTrans(mapped, m1, space.ram.mem, space.root, space.sh.level.Keys);
    KeepsNodes(m1, space.ram.mem, space.root);
    StackPush(old(space.ram.mem), m1, space.ram.mem, space.root, cursor + |data|, content, data);
    var vectorWords := 1 + |argv| + 1 + |envp| + 1 + 7 * 2 + 2;
    if vectorWords > (cursor - STACK_BOTTOM) / 8 {
      return false, image;
    }
    var stackPointer := AlignDown16(cursor - vectorWords * 8);
    if stackPointer < STACK_BOTTOM {
      return false, image;
    }
    m1 := space.ram.mem;
    ok := WriteWords(space, stackPointer, Words(argvAt, envpAt, phdr, phentsize, phnum, entry, cursor),
                     old(space.ram.mem), cursor, data + content);
    CopiesTrans(mapped, m1, space.ram.mem, space.root, space.sh.level.Keys);
    KeepsNodes(m1, space.ram.mem, space.root);
    StackStaysMapped(old(space.ram.mem), mapped, space.ram.mem, space.root, nx);
    return true, Image(stackPointer, |argv|, stackPointer + 8, stackPointer + 8 * (|argv| + 2));
  }

  /** The stack's pages can be written, and executed only if that cannot be forbidden. */
  ghost predicate StackPermissions(m0: Memory, mem: Memory, root: int, nx: bool) {
    forall a :: STACK_BOTTOM <= a < USER_STACK_TOP ==>
      var was, now := See(m0, root, a), See(mem, root, a);
      now.Mapped? && now.writable && (now.nx <==> nx && (was.Mapped? ==> was.nx))
  }

  lemma StackStaysMapped(m0: Memory, m1: Memory, m2: Memory, root: int, nx: bool)
    requires PagesMapped(m0, m1, root, STACK_BOTTOM, USER_STACK_TOP, Flags(true, nx)) && SameLeaves(m1, m2, root)
    ensures StackPermissions(m0, m2, root, nx)
  {
    hide Leaf, Indices;
    forall a | STACK_BOTTOM <= a < USER_STACK_TOP
      ensures var was, now := See(m0, root, a), See(m2, root, a);
              now.Mapped? && now.writable && (now.nx <==> nx && (was.Mapped? ==> was.nx))
    {
      UserIndices(a);
      assert See(m1, root, a) == AfterMap(See(m0, root, a), Flags(true, nx));
    }
  }

  lemma StackMapped(m0: Memory, m1: Memory, root: int, flags: Flags)
    requires PagesMapped(m0, m1, root, STACK_BOTTOM, USER_STACK_TOP, flags)
    ensures StackHolds(m0, m1, root, USER_STACK_TOP, [])
  {
    hide Leaf, Indices;
    forall a | STACK_BOTTOM <= a < USER_STACK_TOP
      ensures VByte(m1, root, a).Some?
    {
      assert See(m1, root, a) == AfterMap(See(m0, root, a), flags);
    }
  }

  /* ----- Reading vectors back ----- */

  /** A string with its terminator at `a`, all below the top of user space. */
  ghost predicate StringAt(mem: Memory, root: int, a: nat, s: Str) {
    a + |s| + 1 <= USER_TOP && Holds(mem, root, a, s + [0])
  }

  ghost predicate PointerAt(mem: Memory, root: int, slot: nat, s: Str) {
    var p := WordAt(mem, root, slot);
    p.Some? && p.value != 0 && StringAt(mem, root, p.value, s)
  }

  /** A null-terminated vector of strings at `a`. */
  ghost predicate VectorAt(mem: Memory, root: int, a: nat, strings: seq<Str>) {
    && (forall i :: 0 <= i < |strings| ==> PointerAt(mem, root, a + 8 * i, strings[i]))
    && WordAt(mem, root, a + 8 * |strings|) == Some(0)
  }

  lemma SameByte(mem: Memory, root: int, a: nat, x: seq<byte>, y: seq<byte>, i: nat)
    requires Holds(mem, root, a, x) && Holds(mem, root, a, y) && i < |x| && i < |y|
    ensures x[i] == y[i]
  {
    hide VByte;
    assert VByte(mem, root, a + i) == Some(x[a + i - a]) == Some(y[a + i - a]);
  }

  lemma NonZero(s: Str, i: nat)
    requires i < |s|
    ensures s[i] != 0
  {
    assert s[i] in s;
  }

  /** Bytes none of which is zero are the start of whatever string is there. */
  lemma PrefixOfString(mem: Memory, root: int, a: nat, s: Str, t: Str)
    requires Holds(mem, root, a, s) && StringAt(mem, root, a, t)
    ensures |s| <= |t|
  {
    hide Holds;
    if |t| < |s| {
      NonZero(s, |t|);
      SameByte(mem, root, a, s, t + [0], |t|);
    }
  }

  lemma StringBody(mem: Memory, root: int, a: nat, s: Str)
    requires StringAt(mem, root, a, s)
    ensures Holds(mem, root, a, s)
    ensures forall b :: a <= b <= a + |s| ==> VByte(mem, root, b).Some?
  {
    hide VByte;
    forall b | a <= b < a + |s|
      ensures VByte(mem, root, b) == Some(s[b - a])
    {
      assert VByte(mem, root, b) == Some((s + [0])[b - a]);
    }
  }

  lemma NoStringHere(mem: Memory, root: int, a: nat, s: Str)
    requires Holds(mem, root, a, s) && !RangeMapped(mem, root, a + |s|, 1)
    ensures forall t: Str :: !StringAt(mem, root, a, t)
  {
    hide Holds, VByte;
    forall t: Str
      ensures !StringAt(mem, root, a, t)
    {
      if StringAt(mem, root, a, t) {
        PrefixOfString(mem, root, a, s, t);
        StringBody(mem, root, a, t);
      }
    }
  }

  lemma StringUnique(mem: Memory, root: int, a: nat, s: Str, t: Str)
    requires StringAt(mem, root, a, s) && StringAt(mem, root, a, t)
    ensures s == t
  {
    hide Holds, RangeMapped;
    StringBody(mem, root, a, s);
    StringBody(mem, root, a, t);
    PrefixOfString(mem, root, a, s, t);
    PrefixOfString(mem, root, a, t, s);
    forall i | 0 <= i < |s|
      ensures s[i] == t[i]
    {
      SameByte(mem, root, a, s, t, i);
    }
  }

  /** Memory holds at most one vector at an address. */
  lemma VectorUnique(mem: Memory, root: int, a: nat, s: seq<Str>, t: seq<Str>)
    requires VectorAt(mem, root, a, s) && VectorAt(mem, root, a, t)
    ensures s == t
  {
    hide WordAt, StringAt;
    assert |s| < |t| ==> PointerAt(mem, root, a + 8 * |s|, t[|s|]);
    assert |t| < |s| ==> PointerAt(mem, root, a + 8 * |t|, s[|t|]);
    forall i | 0 <= i < |s|
      ensures s[i] == t[i]
    {
      assert PointerAt(mem, root, a + 8 * i, s[i]) && PointerAt(mem, root, a + 8 * i, t[i]);
      StringUnique(mem, root, WordAt(mem, root, a + 8 * i).value, s[i], t[i]);
    }
  }

  /** The inner loop of `copy_user_vector`: one string, byte by byte. */
  method CopyUserString(space: AddressSpace, a: u64, room: nat) returns (error: int, s: Str)
    requires space.Valid()
    ensures error == 0 ==> StringAt(space.ram.mem, space.root, a, s) && |s| < room
    ensures error != 0 ==> error in {ERR_2BIG, ERR_FAULT}
    ensures error == ERR_2BIG ==> |s| == room && Readable(space.ram.mem, space.root, a, s)
    ensures error == ERR_2BIG ==> forall t: Str :: StringAt(space.ram.mem, space.root, a, t) ==> |t| >= room
    ensures error == ERR_FAULT ==> forall t: Str :: !StringAt(space.ram.mem, space.root, a, t)
    ensures error == ERR_FAULT ==>
              |s| < room && Readable(space.ram.mem, space.root, a, s) && Torn(space.ram.mem, space.root, a, s)
  {
    hide Tree, VByte;
    s := [];
    while true
      invariant |s| <= room && (s != [] ==> a + |s| <= USER_TOP)
      invariant Holds(space.ram.mem, space.root, a, s)
      decreases room - |s|
    {
      if |s| >= room {
        forall t: Str | StringAt(space.ram.mem, space.root, a, t)
          ensures |t| >= room
        {
          PrefixOfString(space.ram.mem, space.root, a, s, t);
        }
        return ERR_2BIG, s;
      }
      var ok, data := false, [];
      if a < USER_TOP && |s| < USER_TOP - a {
        ok, data := space.CopyFromUser(a + |s|, 1);
      }
      if !ok {
        NoStringHere(space.ram.mem, space.root, a, s);
        return ERR_FAULT, s;
      }
      assert VByte(space.ram.mem, space.root, a + |s|) == Some(data[0]);
      assert Holds(space.ram.mem, space.root, a, s + data);
      if data[0] == 0 {
        assert s + data == s + [0];
        return 0, s;
      }
      s := s + data;
    }
  }

  lemma FlattenCons(strings: seq<Str>)
    requires strings != []
    ensures Flatten(strings) == strings[0] + [0] + Flatten(strings[1..])
  {
  }

  lemma {:induction false} FlattenSnoc(strings: seq<Str>, s: Str)
    ensures Flatten(strings + [s]) == Flatten(strings) + s + [0]
    decreases |strings|
  {
    hide Flatten;
    FlattenNone();
    FlattenCons(strings + [s]);
    if strings == [] {
      assert (strings + [s])[1..] == [] && (strings + [s])[0] == s;
    } else {
      var rest := strings[1..];
      FlattenSnoc(rest, s);
      FlattenCons(strings);
      assert (strings + [s])[1..] == rest + [s] && (strings + [s])[0] == strings[0];
      assert strings[0] + [0] + (Flatten(rest) + s + [0]) == (strings[0] + [0] + Flatten(rest)) + s + [0];
    }
  }

  lemma {:induction false} FlattenPrefix(strings: seq<Str>, n: nat)
    requires n <= |strings|
    ensures |Flatten(strings[..n])| <= |Flatten(strings)|
    decreases |strings| - n
  {
    if n < |strings| {
      FlattenSnoc(strings[..n], strings[n]);
      assert strings[..n + 1] == strings[..n] + [strings[n]];
      FlattenPrefix(strings, n + 1);
    } else {
      assert strings[..n] == strings;
    }
  }

  /** The strings read so far are the start of whatever vector is there. */
  ghost predicate PointersAt(mem: Memory, root: int, a: nat, strings: seq<Str>) {
    forall i :: 0 <= i < |strings| ==> PointerAt(mem, root, a + 8 * i, strings[i])
  }

  lemma PrefixOfVector(mem: Memory, root: int, a: nat, strings: seq<Str>, t: seq<Str>)
    requires PointersAt(mem, root, a, strings) && VectorAt(mem, root, a, t)
    ensures |strings| <= |t| && t[..|strings|] == strings
  {
    hide WordAt, StringAt;
    assert |t| < |strings| ==> PointerAt(mem, root, a + 8 * |t|, strings[|t|]);
    forall i | 0 <= i < |strings| && i < |t|
      ensures strings[i] == t[i]
    {
      assert PointerAt(mem, root, a + 8 * i, strings[i]) && PointerAt(mem, root, a + 8 * i, t[i]);
      StringUnique(mem, root, WordAt(mem, root, a + 8 * i).value, strings[i], t[i]);
    }
  }

  /** No vector at `a` is within the two limits. */
  ghost predicate NoneFits(mem: Memory, root: int, a: nat, capacity: nat, room: nat) {
    forall t: seq<Str> :: VectorAt(mem, root, a, t) ==> |t| > capacity || |Flatten(t)| > room
  }

  lemma NoneFitsWord(mem: Memory, root: int, a: nat, strings: seq<Str>, capacity: nat, room: nat)
    requires PointersAt(mem, root, a, strings) && |strings| <= capacity
    requires WordAt(mem, root, a + 8 * |strings|) != Some(0)
    requires WordAt(mem, root, a + 8 * |strings|) == None || |strings| == capacity
    ensures NoneFits(mem, root, a, capacity, room)
  {
    hide WordAt, StringAt;
    forall t: seq<Str> | VectorAt(mem, root, a, t)
      ensures |t| > capacity || |Flatten(t)| > room
    {
      PrefixOfVector(mem, root, a, strings, t);
      if |strings| < |t| {
        assert PointerAt(mem, root, a + 8 * |strings|, t[|strings|]);
      }
    }
  }

  lemma NextPointer(mem: Memory, root: int, a: nat, strings: seq<Str>, p: u64, t: seq<Str>)
    requires PointersAt(mem, root, a, strings) && VectorAt(mem, root, a, t)
    requires WordAt(mem, root, a + 8 * |strings|) == Some(p) && p != 0
    ensures |strings| < |t| && t[..|strings|] == strings && StringAt(mem, root, p, t[|strings|])
  {
    hide WordAt, StringAt;
    PrefixOfVector(mem, root, a, strings, t);
    assert PointerAt(mem, root, a + 8 * |strings|, t[|strings|]);
  }

  lemma NoneFitsString(mem: Memory, root: int, a: nat, strings: seq<Str>, p: u64, capacity: nat, room: nat)
    requires PointersAt(mem, root, a, strings) && |Flatten(strings)| <= room
    requires WordAt(mem, root, a + 8 * |strings|) == Some(p) && p != 0
    requires forall t: Str :: StringAt(mem, root, p, t) ==> |t| >= room - |Flatten(strings)|
    ensures NoneFits(mem, root, a, capacity, room)
  {
    hide WordAt, StringAt, PointersAt, VectorAt, Flatten;
    forall t: seq<Str> | VectorAt(mem, root, a, t)
      ensures |t| > capacity || |Flatten(t)| > room
    {
      NextPointer(mem, root, a, strings, p, t);
      var n := |strings|;
      FlattenSnoc(strings, t[n]);
      assert t[..n + 1] == strings + [t[n]];
      FlattenPrefix(t, n + 1);
    }
  }

  /** After `strings` there is one more pointer: one too many, or one whose string fills what room is left. */
  ghost predicate Overflows(mem: Memory, root: int, a: nat, strings: seq<Str>, capacity: nat, room: nat) {
    var p := WordAt(mem, root, a + 8 * |strings|);
    && PointersAt(mem, root, a, strings) && |strings| <= capacity && |Flatten(strings)| <= room
    && p.Some? && p.value != 0
    && (|strings| == capacity || exists s: Str :: |s| == room - |Flatten(strings)| && Readable(mem, root, p.value, s))
  }

  /** The bytes at `a` are `s`, all of them below the top of user space. */
  ghost predicate Readable(mem: Memory, root: int, a: nat, s: seq<byte>) {
    Holds(mem, root, a, s) && (s != [] ==> a + |s| <= USER_TOP)
  }

  /** After `strings` the next pointer cannot be read, or its string cannot, before the room is filled. */
  ghost predicate Breaks(mem: Memory, root: int, a: nat, strings: seq<Str>, capacity: nat, room: nat) {
    var p := WordAt(mem, root, a + 8 * |strings|);
    && PointersAt(mem, root, a, strings) && |strings| <= capacity && |Flatten(strings)| <= room
    && (p.None? ||
        (p.value != 0 && |strings| < capacity &&
         exists s: Str :: |s| < room - |Flatten(strings)| && Readable(mem, root, p.value, s)
                          && Torn(mem, root, p.value, s)))
  }

  /** The byte behind `s` at `a` is not there. */
  ghost predicate Torn(mem: Memory, root: int, a: nat, s: Str) {
    !RangeMapped(mem, root, a + |s|, 1)
  }

  /** The vector at `a` exceeds the limits, and up to there it can be read. */
  ghost predicate TooBig(mem: Memory, root: int, a: nat, capacity: nat, room: nat) {
    exists strings: seq<Str> :: Overflows(mem, root, a, strings, capacity, room)
  }

  /** The vector at `a` cannot be read, and up to there it is within the limits. */
  ghost predicate Faults(mem: Memory, root: int, a: nat, capacity: nat, room: nat) {
    exists strings: seq<Str> :: Breaks(mem, root, a, strings, capacity, room)
  }

  lemma SamePrefix(mem: Memory, root: int, a: nat, s: seq<Str>, t: seq<Str>)
    requires PointersAt(mem, root, a, s) && PointersAt(mem, root, a, t) && |s| <= |t|
    ensures t[..|s|] == s
  {
    hide WordAt, StringAt;
    forall i | 0 <= i < |s|
      ensures s[i] == t[i]
    {
      assert PointerAt(mem, root, a + 8 * i, s[i]) && PointerAt(mem, root, a + 8 * i, t[i]);
      StringUnique(mem, root, WordAt(mem, root, a + 8 * i).value, s[i], t[i]);
    }
  }

  /** The string after a prefix of what was read, and the room it took. */
  lemma NextString(mem: Memory, root: int, a: nat, s: seq<Str>, t: seq<Str>, room: nat)
    requires PointersAt(mem, root, a, s) && PointersAt(mem, root, a, t) && |s| < |t| && |Flatten(t)| <= room
    ensures PointerAt(mem, root, a + 8 * |s|, t[|s|]) && |Flatten(s)| + |t[|s|]| + 1 <= room
  {
    hide WordAt, StringAt, Flatten;
    SamePrefix(mem, root, a, s, t);
    var n := |s|;
    FlattenSnoc(s, t[n]);
    assert t[..n + 1] == s + [t[n]];
    FlattenPrefix(t, n + 1);
  }

  lemma OverflowsFirst(mem: Memory, root: int, a: nat, s: seq<Str>, t: seq<Str>, capacity: nat, room: nat)
    requires Overflows(mem, root, a, s, capacity, room)
    requires PointersAt(mem, root, a, t) && |t| <= capacity && |Flatten(t)| <= room
    ensures |t| <= |s|
  {
    hide WordAt, Flatten, Holds, PointersAt;
    if |s| < |t| {
      NextString(mem, root, a, s, t, room);
      var p := WordAt(mem, root, a + 8 * |s|).value;
      var x: Str :| |x| == room - |Flatten(s)| && Readable(mem, root, p, x);
      PrefixOfString(mem, root, p, x, t[|s|]);
    }
  }

  lemma BreaksFirst(mem: Memory, root: int, a: nat, s: seq<Str>, t: seq<Str>, capacity: nat, room: nat)
    requires Breaks(mem, root, a, s, capacity, room)
    requires PointersAt(mem, root, a, t) && |Flatten(t)| <= room
    ensures |t| <= |s|
  {
    hide WordAt, Flatten, Holds, PointersAt, RangeMapped;
    if |s| < |t| {
      NextString(mem, root, a, s, t, room);
      var p := WordAt(mem, root, a + 8 * |s|).value;
      var x: Str :| |x| < room - |Flatten(s)| && Readable(mem, root, p, x) && Torn(mem, root, p, x);
      assert StringAt(mem, root, p, t[|s|]);
      NoStringHere(mem, root, p, x);
    }
  }

  /** A vector is too big or cannot be read, but not both. */
  lemma OneReason(mem: Memory, root: int, a: nat, s: seq<Str>, t: seq<Str>, capacity: nat, room: nat)
    requires Overflows(mem, root, a, s, capacity, room)
    ensures !Breaks(mem, root, a, t, capacity, room)
  {
    hide WordAt, Flatten, Holds, PointersAt, RangeMapped;
    if Breaks(mem, root, a, t, capacity, room) {
      OverflowsFirst(mem, root, a, s, t, capacity, room);
      BreaksFirst(mem, root, a, t, s, capacity, room);
      SamePrefix(mem, root, a, s, t);
      assert t[..|s|] == t;
      var p := WordAt(mem, root, a + 8 * |s|).value;
      var x: Str :| |x| == room - |Flatten(s)| && Readable(mem, root, p, x);
      var y: Str :| |y| < room - |Flatten(s)| && Readable(mem, root, p, y) && Torn(mem, root, p, y);
      HeldByte(mem, root, p, x, |y|);
    }
  }

  lemma HeldByte(mem: Memory, root: int, a: nat, x: seq<byte>, i: nat)
    requires Readable(mem, root, a, x) && i < |x|
    ensures RangeMapped(mem, root, a + i, 1)
  {
  }

  lemma TooBigNoneFits(mem: Memory, root: int, a: nat, capacity: nat, room: nat)
    requires TooBig(mem, root, a, capacity, room) || Faults(mem, root, a, capacity, room)
    ensures NoneFits(mem, root, a, capacity, room)
  {
    hide WordAt, Flatten, Holds, Overflows, Breaks;
    forall t: seq<Str> | VectorAt(mem, root, a, t)
      ensures |t| > capacity || |Flatten(t)| > room
    {
      if s: seq<Str> :| Overflows(mem, root, a, s, capacity, room) {
        NotWhole(mem, root, a, s, t, capacity, room);
      } else {
        var s: seq<Str> :| Breaks(mem, root, a, s, capacity, room);
        NotWhole(mem, root, a, s, t, capacity, room);
      }
    }
  }

  lemma NotWhole(mem: Memory, root: int, a: nat, s: seq<Str>, t: seq<Str>, capacity: nat, room: nat)
    requires Overflows(mem, root, a, s, capacity, room) || Breaks(mem, root, a, s, capacity, room)
    requires VectorAt(mem, root, a, t)
    ensures |t| > capacity || |Flatten(t)| > room
  {
    hide WordAt, Flatten, Holds, RangeMapped;
    if |t| <= capacity && |Flatten(t)| <= room {
      assert PointersAt(mem, root, a, t);
      if Overflows(mem, root, a, s, capacity, room) {
        OverflowsFirst(mem, root, a, s, t, capacity, room);
      } else {
        BreaksFirst(mem, root, a, s, t, capacity, room);
      }
      PrefixOfVector(mem, root, a, s, t);
    }
  }

  /** The pointer in one slot, read with `copy_user`. */
  method ReadSlot(space: AddressSpace, slot: nat) returns (word: Option<u64>)
    requires space.Valid()
    ensures word == WordAt(space.ram.mem, space.root, slot)
  {
    hide Tree, VByte;
    var ok, data := space.CopyFromUser(slot, 8);
    if !ok {
      return None;
    }
    forall i | 0 <= i < 8
      ensures data[i] == BytesAt(space.ram.mem, space.root, slot, 8)[i]
    {
      assert VByte(space.ram.mem, space.root, slot + i) == Some(data[slot + i - slot]);
    }
    assert data == BytesAt(space.ram.mem, space.root, slot, 8);
    return Some(WordOf(data));
  }

  /**
   `copy_user_vector`: returns the vector that is in memory, and fails only when there is
   none there within the limits.
   */
  method CopyUserVector(space: AddressSpace, vector: u64, capacity: nat, storageCapacity: nat, used0: nat)
    returns (result: int, strings: seq<Str>, used: nat)
    requires space.Valid() && used0 <= storageCapacity
    ensures vector == 0 ==> result == 0 && strings == [] && used == used0
    ensures vector != 0 && result >= 0 ==>
              && VectorAt(space.ram.mem, space.root, vector, strings) && |strings| == result <= capacity
              && used == used0 + |Flatten(strings)| <= storageCapacity
    ensures result < 0 ==> result in {ERR_2BIG, ERR_FAULT}
    ensures result < 0 ==> NoneFits(space.ram.mem, space.root, vector, capacity, storageCapacity - used0)
    ensures result == -7 ==>
              vector != 0 && TooBig(space.ram.mem, space.root, vector, capacity, storageCapacity - used0)
    ensures result == -14 ==>
              vector != 0 && Faults(space.ram.mem, space.root, vector, capacity, storageCapacity - used0)
  {
    hide Tree, WordAt, StringAt, NoneFits, Flatten, Holds, RangeMapped;
    strings, used := [], used0;
    if vector == 0 {
      return 0, strings, used;
    }
    FlattenNone();
    var i := 0;
    while i <= capacity
      invariant 0 <= i == |strings| <= capacity
      invariant PointersAt(space.ram.mem, space.root, vector, strings)
      invariant used == used0 + |Flatten(strings)| <= storageCapacity
      decreases capacity - i
    {
      var word := ReadSlot(space, vector + 8 * i);
      if word.None? {
        NoneFitsWord(space.ram.mem, space.root, vector, strings, capacity, storageCapacity - used0);
        assert Breaks(space.ram.mem, space.root, vector, strings, capacity, storageCapacity - used0);
        return ERR_FAULT, strings, used;
      }
      if word.value == 0 {
        return i, strings, used;
      }
      if i == capacity {
        NoneFitsWord(space.ram.mem, space.root, vector, strings, capacity, storageCapacity - used0);
        assert Overflows(space.ram.mem, space.root, vector, strings, capacity, storageCapacity - used0);
        return ERR_2BIG, strings, used;
      }
      var error, s := CopyUserString(space, word.value, storageCapacity - used);
      if error != 0 {
        NoneFitsString(space.ram.mem, space.root, vector, strings, word.value, capacity, storageCapacity - used0);
        assert error == ERR_FAULT ==>
               Breaks(space.ram.mem, space.root, vector, strings, capacity, storageCapacity - used0);
        assert error == ERR_2BIG ==>
               Overflows(space.ram.mem, space.root, vector, strings, capacity, storageCapacity - used0);
        return error, strings, used;
      }
      FlattenSnoc(strings, s);
      strings := strings + [s];
      used := used + |s| + 1;
      i := i + 1;
    }
    return ERR_2BIG, strings, used;
  }

  lemma FlattenNone()
    ensures Flatten([]) == []
  {
  }

  /* ----- The round trip ----- */

  lemma HoldsSlice(mem: Memory, root: int, a: nat, data: seq<byte>, i: nat, n: nat)
    requires Holds(mem, root, a, data) && i + n <= |data|
    ensures Holds(mem, root, a + i, data[i..i + n])
  {
    hide VByte;
    forall b | a + i <= b < a + i + n
      ensures VByte(mem, root, b) == Some(data[i..i + n][b - (a + i)])
    {
      assert VByte(mem, root, b) == Some(data[b - a]);
    }
  }

  lemma HoldsWord(mem: Memory, root: int, a: nat, w: u64)
    requires Holds(mem, root, a, Word(w)) && a + 8 <= USER_TOP
    ensures WordAt(mem, root, a) == Some(w)
  {
    hide VByte, Word, WordOf;
    WordRoundTrip(w);
    forall b | a <= b < a + 8
      ensures VByte(mem, root, b).Some?
    {
      assert VByte(mem, root, b) == Some(Word(w)[b - a]);
    }
    forall i | 0 <= i < 8
      ensures BytesAt(mem, root, a, 8)[i] == Word(w)[i]
    {
      assert VByte(mem, root, a + i) == Some(Word(w)[a + i - a]);
    }
    assert BytesAt(mem, root, a, 8) == Word(w);
  }

  lemma {:induction false} WordBytesAt(words: seq<u64>, i: nat)
    requires i < |words|
    ensures WordBytes(words)[8 * i..8 * i + 8] == Word(words[i])
    decreases |words|
  {
    hide Word;
    var init := words[..|words| - 1];
    if i < |init| {
      WordBytesAt(init, i);
      assert WordBytes(words)[8 * i..8 * i + 8] == WordBytes(init)[8 * i..8 * i + 8];
    }
  }

  lemma StackWord(mem: Memory, root: int, a: nat, words: seq<u64>, i: nat)
    requires Holds(mem, root, a, WordBytes(words)) && i < |words| && a + 8 * |words| <= USER_TOP
    ensures WordAt(mem, root, a + 8 * i) == Some(words[i])
  {
    hide Holds, WordBytes, WordAt, Word, WordOf, VByte;
    WordBytesAt(words, i);
    HoldsSlice(mem, root, a, WordBytes(words), 8 * i, 8);
    HoldsWord(mem, root, a + 8 * i, words[i]);
  }

  lemma {:induction false} StackString(mem: Memory, root: int, strings: seq<Str>, top: u64, i: nat)
    requires i < |strings| && |Flatten(strings)| <= top <= USER_TOP
    requires Holds(mem, root, top - |Flatten(strings)|, Flatten(strings))
    ensures StringAt(mem, root, Addresses(strings, top)[i], strings[i])
    ensures top - |Flatten(strings)| <= Addresses(strings, top)[i]
    decreases |strings|
  {
    hide Holds, Flatten;
    FlattenCons(strings);
    var at, head := top - |Flatten(strings)|, strings[0] + [0];
    assert Flatten(strings)[0..|head|] == head;
    assert Flatten(strings)[|head|..|head| + |Flatten(strings[1..])|] == Flatten(strings[1..]);
    if i == 0 {
      HoldsSlice(mem, root, at, Flatten(strings), 0, |head|);
    } else {
      HoldsSlice(mem, root, at, Flatten(strings), |head|, |Flatten(strings[1..])|);
      StackString(mem, root, strings[1..], top, i - 1);
    }
  }

  /** A run of words pointing at strings, closed by a zero word, is a vector. */
  lemma StackVector(mem: Memory, root: int, a: nat, words: seq<u64>, from: nat, strings: seq<Str>, top: u64)
    requires Holds(mem, root, a, WordBytes(words)) && a + 8 * |words| <= USER_TOP
    requires from + |strings| < |words| && words[from + |strings|] == 0
    requires |Flatten(strings)| < top <= USER_TOP
    requires words[from..from + |strings|] == Addresses(strings, top)
    requires Holds(mem, root, top - |Flatten(strings)|, Flatten(strings))
    ensures VectorAt(mem, root, a + 8 * from, strings)
  {
    hide Holds, WordBytes, WordAt, Flatten, Addresses, StringAt;
    forall i | 0 <= i < |strings|
      ensures PointerAt(mem, root, a + 8 * from + 8 * i, strings[i])
    {
      StackWord(mem, root, a, words, from + i);
      assert words[from + i] == words[from..from + |strings|][i];
      StackString(mem, root, strings, top, i);
    }
    StackWord(mem, root, a, words, from + |strings|);
  }

  lemma StackHasArgv(mem: Memory, root: int, argv: seq<Str>, envp: seq<Str>, path: Str,
                        phdr: u64, phentsize: u64, phnum: u64, entry: u64, image: Image)
    requires |argv| < U64
    requires StackBuilt(mem, root, argv, envp, path, phdr, phentsize, phnum, entry, image)
    ensures VectorAt(mem, root, image.argv, argv) && |Flatten(argv)| + |Flatten(envp)| <= MAX_STACK_STRINGS
  {
    hide Holds, WordBytes, Flatten, Addresses, VectorAt, Words, StackStrings, OnStack;
    var cursor := USER_STACK_TOP - |StackStrings(argv, envp, path)|;
    var envTop := USER_STACK_TOP - |Flatten(envp)|;
    StringsInPlace(mem, root, cursor, argv, envp, path);
    var argvAt, envpAt := Addresses(argv, envTop), Addresses(envp, USER_STACK_TOP);
    var words := Words(argvAt, envpAt, phdr, phentsize, phnum, entry, cursor);
    WordsParts(argvAt, envpAt, phdr, phentsize, phnum, entry, cursor);
    StackVector(mem, root, image.stack, words, 1, argv, envTop);
  }

  lemma StackHasEnvp(mem: Memory, root: int, argv: seq<Str>, envp: seq<Str>, path: Str,
                        phdr: u64, phentsize: u64, phnum: u64, entry: u64, image: Image)
    requires |argv| < U64
    requires StackBuilt(mem, root, argv, envp, path, phdr, phentsize, phnum, entry, image)
    ensures VectorAt(mem, root, image.envp, envp)
  {
    hide Holds, WordBytes, Flatten, Addresses, VectorAt, Words, StackStrings, OnStack;
    var cursor := USER_STACK_TOP - |StackStrings(argv, envp, path)|;
    var envTop := USER_STACK_TOP - |Flatten(envp)|;
    StringsInPlace(mem, root, cursor, argv, envp, path);
    var argvAt, envpAt := Addresses(argv, envTop), Addresses(envp, USER_STACK_TOP);
    var words := Words(argvAt, envpAt, phdr, phentsize, phnum, entry, cursor);
    WordsParts(argvAt, envpAt, phdr, phentsize, phnum, entry, cursor);
    StackVector(mem, root, image.stack, words, |argv| + 2, envp, USER_STACK_TOP);
  }

  /** On a finished stack, both vectors stand where the image says. */
  lemma StackHasVectors(mem: Memory, root: int, argv: seq<Str>, envp: seq<Str>, path: Str,
                        phdr: u64, phentsize: u64, phnum: u64, entry: u64, image: Image)
    requires |argv| < U64
    requires StackBuilt(mem, root, argv, envp, path, phdr, phentsize, phnum, entry, image)
    ensures VectorAt(mem, root, image.argv, argv) && VectorAt(mem, root, image.envp, envp)
    ensures |Flatten(argv)| + |Flatten(envp)| <= MAX_STACK_STRINGS
  {
    hide StackBuilt, VectorAt, Flatten;
    StackHasArgv(mem, root, argv, envp, path, phdr, phentsize, phnum, entry, image);
    StackHasEnvp(mem, root, argv, envp, path, phdr, phentsize, phnum, entry, image);
  }

  /** An entry of the auxiliary vector: its number, and its value in the next word. */
  ghost predicate PairAt(mem: Memory, root: int, a: nat, number: u64, value: u64) {
    WordAt(mem, root, a) == Some(number) && WordAt(mem, root, a + 8) == Some(value)
  }

  /**
   The stack a process starts with (System V ABI AMD64 supplement, section 3.4.1), from the
   stack pointer up: the argument count, the two vectors with their terminators, and the
   auxiliary vector, whose entries are AT_PHDR (3), AT_PHENT (4), AT_PHNUM (5), AT_PAGESZ
   (6), AT_BASE (7), AT_ENTRY (9), AT_EXECFN (31), the address of the path, and AT_NULL (0).
   */
  ghost predicate ProcessStack(mem: Memory, root: int, argv: seq<Str>, envp: seq<Str>, path: Str,
                               phdr: u64, phentsize: u64, phnum: u64, entry: u64, image: Image) {
    && image.stack % 16 == 0 && 0x7FFF_FFFE_8000 <= image.stack < 0x7FFF_FFFF_0000
    && image.argc == |argv| && WordAt(mem, root, image.stack) == Some(|argv|)
    && image.argv == image.stack + 8 && VectorAt(mem, root, image.argv, argv)
    && image.envp == image.stack + 8 * (|argv| + 2) && VectorAt(mem, root, image.envp, envp)
    && var auxv := image.stack + 8 * (|argv| + |envp| + 3);
    && PairAt(mem, root, auxv, 3, phdr) && PairAt(mem, root, auxv + 16, 4, phentsize)
    && PairAt(mem, root, auxv + 32, 5, phnum) && PairAt(mem, root, auxv + 48, 6, 4096)
    && PairAt(mem, root, auxv + 64, 7, 0) && PairAt(mem, root, auxv + 80, 9, entry)
    && WordAt(mem, root, auxv + 96) == Some(31) && PointerAt(mem, root, auxv + 104, path)
    && PairAt(mem, root, auxv + 112, 0, 0)
  }

  /** Pair `i` of the auxiliary vector. */
  lemma AuxiliaryPair(mem: Memory, root: int, a: nat, argv: seq<u64>, envp: seq<u64>, phdr: u64, phentsize: u64,
                      phnum: u64, entry: u64, execfn: u64, i: nat)
    requires |argv| < U64 && i < 8
    requires var words := Words(argv, envp, phdr, phentsize, phnum, entry, execfn);
             Holds(mem, root, a, WordBytes(words)) && a + 8 * |words| <= USER_TOP
    ensures PairAt(mem, root, a + 8 * (|argv| + |envp| + 3) + 16 * i, [3, 4, 5, 6, 7, 9, 31, 0][i],
                   [phdr, phentsize, phnum, 4096, 0, entry, execfn, 0][i])
  {
    hide Holds, WordBytes, WordAt;
    var words, at := Words(argv, envp, phdr, phentsize, phnum, entry, execfn), |argv| + |envp| + 3 + 2 * i;
    StackWord(mem, root, a, words, at);
    StackWord(mem, root, a, words, at + 1);
  }

  lemma AuxiliaryWords(mem: Memory, root: int, a: nat, argv: seq<u64>, envp: seq<u64>, phdr: u64, phentsize: u64,
                       phnum: u64, entry: u64, execfn: u64)
    requires |argv| < U64
    requires var words := Words(argv, envp, phdr, phentsize, phnum, entry, execfn);
             Holds(mem, root, a, WordBytes(words)) && a + 8 * |words| <= USER_TOP
    ensures WordAt(mem, root, a) == Some(|argv|)
    ensures var auxv := a + 8 * (|argv| + |envp| + 3);
            && PairAt(mem, root, auxv, 3, phdr) && PairAt(mem, root, auxv + 16, 4, phentsize)
            && PairAt(mem, root, auxv + 32, 5, phnum) && PairAt(mem, root, auxv + 48, 6, 4096)
            && PairAt(mem, root, auxv + 64, 7, 0) && PairAt(mem, root, auxv + 80, 9, entry)
            && PairAt(mem, root, auxv + 96, 31, execfn) && PairAt(mem, root, auxv + 112, 0, 0)
  {
    hide Holds, WordBytes, WordAt, Words, PairAt;
    AuxiliaryPair(mem, root, a, argv, envp, phdr, phentsize, phnum, entry, execfn, 0);
    AuxiliaryPair(mem, root, a, argv, envp, phdr, phentsize, phnum, entry, execfn, 1);
    AuxiliaryPair(mem, root, a, argv, envp, phdr, phentsize, phnum, entry, execfn, 2);
    AuxiliaryPair(mem, root, a, argv, envp, phdr, phentsize, phnum, entry, execfn, 3);
    AuxiliaryPair(mem, root, a, argv, envp, phdr, phentsize, phnum, entry, execfn, 4);
    AuxiliaryPair(mem, root, a, argv, envp, phdr, phentsize, phnum, entry, execfn, 5);
    AuxiliaryPair(mem, root, a, argv, envp, phdr, phentsize, phnum, entry, execfn, 6);
    AuxiliaryPair(mem, root, a, argv, envp, phdr, phentsize, phnum, entry, execfn, 7);
    StackWord(mem, root, a, Words(argv, envp, phdr, phentsize, phnum, entry, execfn), 0);
    FirstWord(argv, envp, phdr, phentsize, phnum, entry, execfn);
  }

  lemma FirstWord(argv: seq<u64>, envp: seq<u64>, phdr: u64, phentsize: u64, phnum: u64, entry: u64, execfn: u64)
    requires |argv| < U64
    ensures Words(argv, envp, phdr, phentsize, phnum, entry, execfn)[0] == |argv|
  {
  }

  /** What `map_user_stack` builds is what the ABI asks for. */
  lemma StackIsAbi(mem: Memory, root: int, argv: seq<Str>, envp: seq<Str>, path: Str,
                   phdr: u64, phentsize: u64, phnum: u64, entry: u64, image: Image)
    requires |argv| < U64
    requires StackBuilt(mem, root, argv, envp, path, phdr, phentsize, phnum, entry, image)
    ensures ProcessStack(mem, root, argv, envp, path, phdr, phentsize, phnum, entry, image)
  {
    hide VectorAt, Flatten, Holds, WordBytes, Words, WordAt, OnStack;
    StackHasVectors(mem, root, argv, envp, path, phdr, phentsize, phnum, entry, image);
    var cursor := USER_STACK_TOP - |StackStrings(argv, envp, path)|;
    var argvAt, envpAt := Addresses(argv, USER_STACK_TOP - |Flatten(envp)|), Addresses(envp, USER_STACK_TOP);
    AuxiliaryWords(mem, root, image.stack, argvAt, envpAt, phdr, phentsize, phnum, entry, cursor);
    PathInPlace(mem, root, cursor, argv, envp, path);
  }

  lemma PathInPlace(mem: Memory, root: int, cursor: nat, argv: seq<Str>, envp: seq<Str>, path: Str)
    requires OnStack(mem, root, cursor, StackStrings(argv, envp, path))
    ensures StringAt(mem, root, cursor, path)
  {
    hide Holds, Flatten;
    var strings := StackStrings(argv, envp, path);
    assert strings[0..|path| + 1] == path + [0];
    HoldsSlice(mem, root, cursor, strings, 0, |path| + 1);
  }

  lemma StringsInPlace(mem: Memory, root: int, cursor: nat, argv: seq<Str>, envp: seq<Str>, path: Str)
    requires OnStack(mem, root, cursor, StackStrings(argv, envp, path))
    ensures |StackStrings(argv, envp, path)| == |path| + 1 + |Flatten(argv)| + |Flatten(envp)|
    ensures Holds(mem, root, USER_STACK_TOP - |Flatten(envp)| - |Flatten(argv)|, Flatten(argv))
    ensures Holds(mem, root, USER_STACK_TOP - |Flatten(envp)|, Flatten(envp))
  {
    hide Holds, Flatten;
    var strings, head := StackStrings(argv, envp, path), |path| + 1;
    assert strings[head..head + |Flatten(argv)|] == Flatten(argv);
    assert strings[head + |Flatten(argv)|..head + |Flatten(argv)| + |Flatten(envp)|] == Flatten(envp);
    HoldsSlice(mem, root, cursor, strings, head, |Flatten(argv)|);
    HoldsSlice(mem, root, cursor, strings, head + |Flatten(argv)|, |Flatten(envp)|);
  }

  lemma WordsParts(argv: seq<u64>, envp: seq<u64>, phdr: u64, phentsize: u64, phnum: u64, entry: u64, execfn: u64)
    requires |argv| < U64
    ensures var w := Words(argv, envp, phdr, phentsize, phnum, entry, execfn);
            && w[1..1 + |argv|] == argv && w[1 + |argv|] == 0
            && w[|argv| + 2..|argv| + 2 + |envp|] == envp && w[|argv| + 2 + |envp|] == 0
  {
  }

  /**
   `execve` run on the vectors of a finished stack: with at most `capacity` strings each,
   it reads back exactly the strings the stack was built from.
   */
  method ReadBack(space: AddressSpace, capacity: nat, image: Image, ghost argv: seq<Str>, ghost envp: seq<Str>,
                  ghost path: Str, ghost phdr: u64, ghost phentsize: u64, ghost phnum: u64, ghost entry: u64)
    returns (argc: int, args: seq<Str>, envc: int, env: seq<Str>)
    requires space.Valid() && |argv| <= capacity && |envp| <= capacity && |argv| <= 128 && |envp| <= 128
    requires StackBuilt(space.ram.mem, space.root, argv, envp, path, phdr, phentsize, phnum, entry, image)
    ensures argc == |argv| && args == argv && envc == |envp| && env == envp
  {
    hide Tree, OnStack, Holds, VectorAt, Flatten;
    StackHasVectors(space.ram.mem, space.root, argv, envp, path, phdr, phentsize, phnum, entry, image);
    var used;
    argc, args, used := CopyUserVector(space, image.argv, capacity, MAX_STACK_STRINGS, 0);
    VectorFound(space.ram.mem, space.root, image.argv, argv, args, argc, capacity, MAX_STACK_STRINGS);
    envc, env, used := CopyUserVector(space, image.envp, capacity, MAX_STACK_STRINGS, used);
    VectorFound(space.ram.mem, space.root, image.envp, envp, env, envc, capacity, MAX_STACK_STRINGS - |Flatten(argv)|);
  }

  lemma VectorFound(mem: Memory, root: int, a: nat, expected: seq<Str>, got: seq<Str>, result: int, capacity: nat,
                    room: nat)
    requires VectorAt(mem, root, a, expected) && |expected| <= capacity && |Flatten(expected)| <= room
    requires result >= 0 ==> VectorAt(mem, root, a, got) && |got| == result
    requires result < 0 ==> NoneFits(mem, root, a, capacity, room)
    ensures result == |expected| && got == expected
  {
    hide VectorAt, Flatten;
    if result >= 0 {
      VectorUnique(mem, root, a, expected, got);
    }
  }
}
