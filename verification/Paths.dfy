/**
 The dentry tree and its paths, as values: child lists threaded through the dentries, the
 walk along a path, the path printed for a dentry, and how the two undo each other.
 */
module Paths {
  import opened Bytes

  const SLASH: byte := 47
  const DOT: byte := 46
  const NAME_SIZE: nat := 256

  const EINVAL: int := -22
  const ENOENT: int := -2
  const ENOMEM: int := -12
  const ENOTDIR: int := -20
  const ENAMETOOLONG: int := -36

  /** An inode of the in-memory file system: a directory, or a file with its bytes. */
  datatype Inode = Directory(ino: u32) | Regular(ino: u32, data: seq<byte>)

  /** Pointers are addresses; 0 is null. */
  datatype Dentry = Dentry(name: Str, inode: Option<Inode>, parent: int, child: int, sibling: int, refs: int)

  type Heap = map<int, Dentry>

  /** The shape behind the links: each dentry's children in list order, and its depth. */
  datatype Shape = Shape(kids: map<int, seq<int>>, depth: map<int, nat>)

  /* ----- The tree ----- */

  /** The child list of `p` is threaded through `child` and `sibling`. */
  ghost predicate Threaded(h: Heap, p: int, list: seq<int>)
    requires p in h
  {
    && h[p].child == Head(list)
    && (forall i :: 0 <= i < |list| ==>
          list[i] in h && list[i] != 0 && h[list[i]].parent == p && h[list[i]].sibling == Next(list, i))
    && (forall i, j :: 0 <= i < j < |list| ==> list[i] != list[j])
  }

  ghost predicate IsTree(h: Heap, root: int, s: Shape) {
    && 0 !in h && root in h && h[root].parent == 0
    && s.kids.Keys == h.Keys && s.depth.Keys == h.Keys && s.depth[root] == 0
    && (forall p :: p in h ==> Threaded(h, p, s.kids[p]))
    && (forall p :: p in h && p != root ==> Placed(h, s, p))
    && (forall p :: p in h ==> |h[p].name| < NAME_SIZE)
  }

  ghost predicate Placed(h: Heap, s: Shape, p: int)
    requires p in h
  {
    var up := h[p].parent;
    && up in h && up in s.kids && up in s.depth && p in s.depth && s.depth[p] == s.depth[up] + 1 && p in s.kids[up]
  }

  /** Every dentry has an inode and at least the tree's own reference; only directories have children. */
  ghost predicate Sound(h: Heap, root: int, s: Shape) {
    && IsTree(h, root, s)
    && (forall p :: p in h ==> h[p].inode.Some? && h[p].refs >= 1)
    && (forall p :: p in h && s.kids[p] != [] ==> h[p].inode.value.Directory?)
    && h[root].inode.value.Directory?
  }

  /** The first child with the given name, 0 if there is none. */
  function Find(h: Heap, list: seq<int>, name: seq<byte>): int {
    if list == [] then 0
    else if list[0] in h && h[list[0]].name == name then list[0]
    else Find(h, list[1..], name)
  }

  /* ----- Walking a path ----- */

  datatype Walked = At(p: int) | Failed(error: int)

  function SkipSlashes(path: seq<byte>): (r: seq<byte>)
    ensures |r| <= |path|
  {
    if path == [] || path[0] != SLASH then path else SkipSlashes(path[1..])
  }

  /** The length of the component a path starts with. */
  function ComponentLength(path: seq<byte>): (n: nat)
    ensures n <= |path|
  {
    if path == [] || path[0] == SLASH then 0 else 1 + ComponentLength(path[1..])
  }

  lemma {:induction false} SkipFacts(path: seq<byte>)
    ensures var r := SkipSlashes(path);
            && r == path[|path| - |r|..] && (r != [] ==> r[0] != SLASH)
            && (path != [] && path[0] == SLASH ==> |r| < |path|)
    decreases |path|
  {
    if path != [] && path[0] == SLASH {
      SkipFacts(path[1..]);
    }
  }

  lemma {:induction false} ComponentFacts(path: seq<byte>)
    ensures var n := ComponentLength(path);
            && (n < |path| ==> path[n] == SLASH) && SLASH !in path[..n]
            && (path != [] && path[0] != SLASH ==> n > 0)
    decreases |path|
  {
    if path != [] && path[0] != SLASH {
      ComponentFacts(path[1..]);
      var n := ComponentLength(path);
      assert path[..n] == [path[0]] + path[1..][..n - 1];
    }
  }

  /** One component followed from `cur`. */
  function Step(h: Heap, s: Shape, cur: int, name: seq<byte>): Walked
    requires cur in h && cur in s.kids
  {
    if name == [DOT] then At(cur)
    else if name == [DOT, DOT] then At(if h[cur].parent != 0 then h[cur].parent else cur)
    else if h[cur].inode.None? || !h[cur].inode.value.Directory? then Failed(ENOTDIR)
    else
      var next := Find(h, s.kids[cur], name);
      if next == 0 then Failed(ENOENT) else At(next)
  }

  /** The dentry a path leads to from `cur`. */
  function Resolve(h: Heap, s: Shape, cur: int, path: seq<byte>): Walked
    decreases |path|
  {
    if cur !in h || cur !in s.kids then Failed(ENOENT)
    else
      var at := SkipSlashes(path);
      if at == [] then At(cur)
      else
        var n := ComponentLength(at);
        if n >= NAME_SIZE then Failed(ENAMETOOLONG)
        else
          match Step(h, s, cur, at[..n])
          case Failed(error) => Failed(error)
          case At(next) => Resolve(h, s, next, at[n..])
  }

  /* ----- Printing a path ----- */

  function Join(path: seq<byte>, name: seq<byte>): seq<byte> {
    path + (if |path| > 1 then [SLASH] else []) + name
  }

  /** The path `dentry_path` prints. */
  ghost function PathOf(h: Heap, root: int, s: Shape, p: int): (r: seq<byte>)
    requires IsTree(h, root, s) && p in h
    ensures |r| >= 1 && r[0] == SLASH
    decreases s.depth[p]
  {
    if p == root then [SLASH]
    else
      assert Placed(h, s, p);
      Join(PathOf(h, root, s, h[p].parent), h[p].name)
  }

  /** The index of the last slash, -1 if there is none. */
  function LastSlash(path: seq<byte>): (k: int)
    ensures -1 <= k < |path| && (k >= 0 ==> path[k] == SLASH)
    ensures forall i :: k < i < |path| ==> path[i] != SLASH
  {
    if path == [] then -1
    else if path[|path| - 1] == SLASH then |path| - 1
    else LastSlash(path[..|path| - 1])
  }

  /* ----- What walks reach ----- */

  /** A name that a path can carry as one component. */
  predicate Proper(name: seq<byte>) {
    0 < |name| < NAME_SIZE && SLASH !in name && name != [DOT] && name != [DOT, DOT]
  }

  /** `p` is found again by looking its own name up in its parent, and so on up to the root. */
  ghost predicate Reached(h: Heap, root: int, s: Shape, p: int)
    requires Sound(h, root, s) && p in h
    decreases s.depth[p]
  {
    p == root ||
    (assert Placed(h, s, p);
     var up := h[p].parent;
     Proper(h[p].name) && h[up].inode.value.Directory?
     && Find(h, s.kids[up], h[p].name) == p && Reached(h, root, s, up))
  }

  lemma {:induction false} FindFinds(h: Heap, list: seq<int>, name: seq<byte>)
    requires forall i :: 0 <= i < |list| ==> list[i] in h && list[i] != 0
    ensures var r := Find(h, list, name);
            if r == 0 then forall i :: 0 <= i < |list| ==> h[list[i]].name != name
            else r in list && r in h && h[r].name == name
    decreases |list|
  {
    if list != [] && h[list[0]].name != name {
      FindFinds(h, list[1..], name);
      assert list == [list[0]] + list[1..];
    }
  }

  lemma KidsOf(h: Heap, root: int, s: Shape, p: int, c: int)
    requires Sound(h, root, s) && p in h && c in s.kids[p]
    ensures c in h && c != root && h[c].parent == p && Placed(h, s, c) && c != 0
  {
    assert Threaded(h, p, s.kids[p]);
    var i :| 0 <= i < |s.kids[p]| && s.kids[p][i] == c;
  }

  lemma FindKid(h: Heap, root: int, s: Shape, p: int, name: seq<byte>)
    requires Sound(h, root, s) && p in h
    ensures var r := Find(h, s.kids[p], name);
            r != 0 ==> r in h && r != root && h[r].parent == p && Placed(h, s, r) && h[r].name == name
  {
    assert Threaded(h, p, s.kids[p]);
    FindFinds(h, s.kids[p], name);
    if Find(h, s.kids[p], name) != 0 {
      KidsOf(h, root, s, p, Find(h, s.kids[p], name));
    }
  }

  lemma PathOfKid(h: Heap, root: int, s: Shape, p: int)
    requires IsTree(h, root, s) && p in h && p != root
    ensures Placed(h, s, p)
    ensures PathOf(h, root, s, p) == Join(PathOf(h, root, s, h[p].parent), h[p].name)
  {
    assert Placed(h, s, p);
  }

  /** The printed path is no longer than the walk that led there, and every level took two bytes. */
  ghost predicate Within(h: Heap, root: int, s: Shape, p: int, length: nat)
    requires IsTree(h, root, s) && p in h
  {
    (|PathOf(h, root, s, p)| == 1 || |PathOf(h, root, s, p)| <= length) && 2 * s.depth[p] <= length
  }

  /** One component keeps what walks reach, and what it costs. */
  lemma StepReaches(h: Heap, root: int, s: Shape, cur: int, name: seq<byte>, length: nat)
    requires Sound(h, root, s) && cur in h && Reached(h, root, s, cur) && Within(h, root, s, cur, length)
    requires 0 < |name| < NAME_SIZE && SLASH !in name
    ensures var w := Step(h, s, cur, name);
            w.At? ==> w.p in h && Reached(h, root, s, w.p) && Within(h, root, s, w.p, length + 1 + |name|)
  {
    hide Find;
    if name == [DOT] {
    } else if name == [DOT, DOT] {
      if cur != root {
        PathOfKid(h, root, s, cur);
      }
    } else if h[cur].inode.value.Directory? {
      FindKid(h, root, s, cur, name);
      var next := Find(h, s.kids[cur], name);
      if next != 0 {
        PathOfKid(h, root, s, next);
      }
    }
  }

  lemma {:induction false} WalkReaches(h: Heap, root: int, s: Shape, cur: int, path: seq<byte>, length: nat)
    requires Sound(h, root, s) && cur in h && Reached(h, root, s, cur) && Within(h, root, s, cur, length)
    requires path == [] || path[0] == SLASH
    ensures var w := Resolve(h, s, cur, path);
            w.At? ==> w.p in h && Reached(h, root, s, w.p) && Within(h, root, s, w.p, length + |path|)
    decreases |path|
  {
    var at := SkipSlashes(path);
    SkipFacts(path);
    ComponentFacts(at);
    if at != [] {
      var n := ComponentLength(at);
      if n < NAME_SIZE {
        hide Reached, Within, Step, Sound;
        SoundKids(h, root, s, cur);
        StepReaches(h, root, s, cur, at[..n], length);
        match Step(h, s, cur, at[..n])
        case Failed(_) =>
        case At(next) =>
          WalkReaches(h, root, s, next, at[n..], length + 1 + n);
          SoundIsTree(h, root, s);
          WithinMore(h, root, s, Resolve(h, s, next, at[n..]), length + 1 + n + |at[n..]|, length + |path|);
      }
    } else {
      SoundIsTree(h, root, s);
      WithinMore(h, root, s, At(cur), length, length + |path|);
    }
  }

  lemma SoundKids(h: Heap, root: int, s: Shape, p: int)
    requires Sound(h, root, s)
    ensures p in h <==> p in s.kids
  {
  }

  lemma SoundIsTree(h: Heap, root: int, s: Shape)
    requires Sound(h, root, s)
    ensures IsTree(h, root, s)
  {
  }

  lemma WithinMore(h: Heap, root: int, s: Shape, w: Walked, small: nat, big: nat)
    requires IsTree(h, root, s) && small <= big
    ensures w.At? && w.p in h && Within(h, root, s, w.p, small) ==> Within(h, root, s, w.p, big)
  {
  }

  /* ----- Printing undoes walking ----- */

  lemma SkipUnfold(path: seq<byte>)
    ensures SkipSlashes(path) == if path == [] || path[0] != SLASH then path else SkipSlashes(path[1..])
  {
  }

  lemma {:induction false} SkipAppend(a: seq<byte>, b: seq<byte>)
    ensures SkipSlashes(a + b) == if SkipSlashes(a) == [] then SkipSlashes(b) else SkipSlashes(a) + b
    decreases |a|
  {
    hide SkipSlashes;
    SkipUnfold(a);
    if a == [] {
      assert a + b == b;
    } else {
      SkipUnfold(a + b);
      if a[0] == SLASH {
        SkipAppend(a[1..], b);
        assert (a + b)[1..] == a[1..] + b;
      }
    }
  }

  lemma ComponentUnfold(path: seq<byte>)
    ensures ComponentLength(path) == if path == [] || path[0] == SLASH then 0 else 1 + ComponentLength(path[1..])
  {
  }

  lemma {:induction false} ComponentAppend(a: seq<byte>, b: seq<byte>)
    requires b == [] || b[0] == SLASH
    ensures ComponentLength(a + b) == ComponentLength(a)
    decreases |a|
  {
    hide ComponentLength;
    ComponentUnfold(a);
    ComponentUnfold(a + b);
    if a == [] {
      assert a + b == b;
    } else if a[0] != SLASH {
      ComponentAppend(a[1..], b);
      assert (a + b)[1..] == a[1..] + b;
    }
  }

  lemma ResolveUnfold(h: Heap, s: Shape, cur: int, path: seq<byte>)
    ensures var at := SkipSlashes(path);
            var n := ComponentLength(at);
            Resolve(h, s, cur, path) ==
            if cur !in h || cur !in s.kids then Failed(ENOENT)
            else if at == [] then At(cur)
            else if n >= NAME_SIZE then Failed(ENAMETOOLONG)
            else if Step(h, s, cur, at[..n]).Failed? then Step(h, s, cur, at[..n])
            else Resolve(h, s, Step(h, s, cur, at[..n]).p, at[n..])
  {
  }

  /** Walking a longer path goes on from where the shorter one led. */
  lemma {:induction false} ResolveAppend(h: Heap, s: Shape, cur: int, a: seq<byte>, b: seq<byte>)
    requires Resolve(h, s, cur, a).At? && b != [] && b[0] == SLASH
    ensures Resolve(h, s, cur, a + b) == Resolve(h, s, Resolve(h, s, cur, a).p, b)
    decreases |a|
  {
    hide Resolve, Step, SkipSlashes, ComponentLength;
    SkipAppend(a, b);
    ResolveUnfold(h, s, cur, a);
    ResolveUnfold(h, s, cur, a + b);
    var at := SkipSlashes(a);
    if at == [] {
      ResolveUnfold(h, s, cur, b);
    } else {
      var n := ComponentLength(at);
      ComponentAppend(at, b);
      ComponentUnfold(at);
      SkipFacts(a);
      assert (at + b)[..n] == at[..n] && (at + b)[n..] == at[n..] + b;
      ResolveAppend(h, s, Step(h, s, cur, at[..n]).p, at[n..], b);
    }
  }

  lemma {:induction false} NoSlashComponent(name: seq<byte>)
    requires SLASH !in name
    ensures ComponentLength(name) == |name|
    decreases |name|
  {
    if name != [] {
      assert name[0] in name;
      assert forall x :: x in name[1..] ==> x in name;
      NoSlashComponent(name[1..]);
    }
  }

  lemma NameAfterSlash(name: seq<byte>)
    requires name != [] && SLASH !in name
    ensures SkipSlashes([SLASH] + name) == name && SkipSlashes([]) == []
  {
    hide SkipSlashes;
    SkipUnfold([SLASH] + name);
    SkipUnfold(name);
    SkipUnfold([]);
    assert ([SLASH] + name)[1..] == name;
    assert name[0] in name;
  }

  lemma StepName(h: Heap, root: int, s: Shape, cur: int, name: seq<byte>)
    requires Sound(h, root, s) && cur in h && h[cur].inode.value.Directory? && Proper(name)
    requires Find(h, s.kids[cur], name) != 0
    ensures Step(h, s, cur, name) == At(Find(h, s.kids[cur], name))
  {
  }

  /** A slash and a proper name lead to the child found under that name. */
  lemma ResolveName(h: Heap, root: int, s: Shape, cur: int, name: seq<byte>)
    requires Sound(h, root, s) && cur in h && h[cur].inode.value.Directory? && Proper(name)
    requires Find(h, s.kids[cur], name) != 0
    ensures Resolve(h, s, cur, [SLASH] + name) == At(Find(h, s.kids[cur], name))
  {
    hide Find, Resolve, SkipSlashes, ComponentLength, Sound, Step;
    FindKid(h, root, s, cur, name);
    SoundKids(h, root, s, cur);
    NameAfterSlash(name);
    NoSlashComponent(name);
    ResolveUnfold(h, s, cur, [SLASH] + name);
    StepName(h, root, s, cur, name);
    assert name[..|name|] == name && name[|name|..] == [];
    var next := Find(h, s.kids[cur], name);
    SoundKids(h, root, s, next);
    ResolveUnfold(h, s, next, []);
  }

  lemma ReachedKid(h: Heap, root: int, s: Shape, p: int)
    requires Sound(h, root, s) && p in h && p != root && Reached(h, root, s, p)
    ensures Placed(h, s, p)
    ensures var up := h[p].parent;
            && h[up].inode.Some? && h[up].inode.value.Directory? && Reached(h, root, s, up)
            && Proper(h[p].name) && Find(h, s.kids[up], h[p].name) == p && p != 0
  {
    assert Placed(h, s, p);
  }

  /** If `path` leads to a directory, the path joined with a child's name leads to the child. */
  lemma ResolveJoin(h: Heap, root: int, s: Shape, up: int, path: seq<byte>, name: seq<byte>)
    requires Sound(h, root, s) && up in h && h[up].inode.value.Directory? && Proper(name)
    requires Find(h, s.kids[up], name) != 0
    requires Resolve(h, s, root, path) == At(up) && (if up == root then path == [SLASH] else |path| > 1)
    ensures Resolve(h, s, root, Join(path, name)) == At(Find(h, s.kids[up], name))
  {
    hide Find, Resolve, Sound, Proper;
    ResolveName(h, root, s, up, name);
    if up != root {
      ResolveAppend(h, s, root, path, [SLASH] + name);
      assert path + [SLASH] + name == path + ([SLASH] + name);
    } else {
      assert [SLASH] + [] + name == [SLASH] + name;
    }
  }

  /** The printed path of anything reached leads back to it. */
  lemma {:induction false} ResolvePathOf(h: Heap, root: int, s: Shape, p: int)
    requires Sound(h, root, s) && p in h && Reached(h, root, s, p)
    ensures Resolve(h, s, root, PathOf(h, root, s, p)) == At(p)
    ensures p != root ==> |PathOf(h, root, s, p)| > 1
    decreases s.depth[p]
  {
    hide Find, Resolve, PathOf, Reached, Threaded;
    if p == root {
      ResolveRoot(h, root, s);
    } else {
      ReachedKid(h, root, s, p);
      PathOfKid(h, root, s, p);
      var up := h[p].parent;
      PathOfRoot(h, root, s);
      ResolvePathOf(h, root, s, up);
      ResolveJoin(h, root, s, up, PathOf(h, root, s, up), h[p].name);
    }
  }

  lemma PathOfRoot(h: Heap, root: int, s: Shape)
    requires IsTree(h, root, s)
    ensures PathOf(h, root, s, root) == [SLASH]
  {
  }

  lemma ResolveRoot(h: Heap, root: int, s: Shape)
    requires Sound(h, root, s)
    ensures Resolve(h, s, root, [SLASH]) == At(root) && PathOf(h, root, s, root) == [SLASH]
  {
    assert [SLASH][1..] == [];
    assert SkipSlashes([SLASH]) == [];
  }

  /**
   Printing and parsing undo each other: what an absolute path under 256 bytes leads to has
   a printed path that fits 256 bytes and 128 components, and that leads to it again.
   */
  lemma PathRoundTrip(h: Heap, root: int, s: Shape, path: seq<byte>)
    requires Sound(h, root, s) && path != [] && path[0] == SLASH && |path| < 256
    ensures var w := Resolve(h, s, root, path);
            w.At? ==>
              && w.p in h && |PathOf(h, root, s, w.p)| <= |path| && s.depth[w.p] < 128
              && Resolve(h, s, root, PathOf(h, root, s, w.p)) == w
  {
    hide Resolve;
    WalkReaches(h, root, s, root, path, 0);
    match Resolve(h, s, root, path)
    case Failed(_) =>
    case At(p) => ResolvePathOf(h, root, s, p);
  }

  /* ----- What every component does ----- */

  /** A component: at least one byte, none of them a slash. */
  predicate Component(name: seq<byte>) {
    name != [] && '/' as int !in name
  }

  /** `c` is the first child of `p` called `name`; 0 if no child is. */
  ghost predicate FirstCalled(h: Heap, s: Shape, p: int, name: seq<byte>, c: int)
    requires p in s.kids
  {
    if c == 0 then forall k :: 0 <= k < |s.kids[p]| ==> !Called(h, s.kids[p][k], name)
    else exists i :: 0 <= i < |s.kids[p]| && s.kids[p][i] == c && Called(h, c, name)
                     && forall k :: 0 <= k < i ==> !Called(h, s.kids[p][k], name)
  }

  predicate Called(h: Heap, c: int, name: seq<byte>) {
    c in h && h[c].name == name
  }

  lemma {:induction false} FindFirst(h: Heap, list: seq<int>, name: seq<byte>) returns (i: nat)
    requires forall k :: 0 <= k < |list| ==> list[k] in h && list[k] != 0
    ensures i <= |list| && forall k :: 0 <= k < i ==> !Called(h, list[k], name)
    ensures if i == |list| then Find(h, list, name) == 0 else Find(h, list, name) == list[i] && Called(h, list[i], name)
    decreases |list|
  {
    if list == [] || h[list[0]].name == name {
      return 0;
    }
    i := FindFirst(h, list[1..], name);
    i := i + 1;
    assert forall k :: 0 < k < |list| ==> list[k] == list[1..][k - 1];
  }

  lemma FindIsFirst(h: Heap, root: int, s: Shape, p: int, name: seq<byte>)
    requires Sound(h, root, s) && p in h
    ensures FirstCalled(h, s, p, name, Find(h, s.kids[p], name))
  {
    hide Find;
    assert Threaded(h, p, s.kids[p]);
    var i := FindFirst(h, s.kids[p], name);
  }

  /** One more slash and component: the walk goes on from where it was by that component alone. */
  lemma ResolveMore(h: Heap, root: int, s: Shape, cur: int, path: seq<byte>, name: seq<byte>)
    requires Sound(h, root, s) && Resolve(h, s, cur, path).At? && Component(name)
    ensures var d := Resolve(h, s, cur, path).p;
            && d in h && d in s.kids
            && Resolve(h, s, cur, path + ['/' as int] + name) ==
               (if |name| > 255 then Failed(-36)
                else if Step(h, s, d, name).Failed? then Step(h, s, d, name)
                else Resolve(h, s, Step(h, s, d, name).p, []))
  {
    hide Resolve, SkipSlashes, ComponentLength, Sound, Step;
    var d := Resolve(h, s, cur, path).p;
    ResolvedIn(h, s, cur, path);
    ResolveAppend(h, s, cur, path, [SLASH] + name);
    assert path + [SLASH] + name == path + ([SLASH] + name);
    NameAfterSlash(name);
    NoSlashComponent(name);
    ResolveUnfold(h, s, d, [SLASH] + name);
    assert name[..|name|] == name && name[|name|..] == [];
  }

  lemma {:induction false} ResolvedIn(h: Heap, s: Shape, cur: int, path: seq<byte>)
    requires Resolve(h, s, cur, path).At?
    ensures Resolve(h, s, cur, path).p in h && Resolve(h, s, cur, path).p in s.kids
    decreases |path|
  {
    hide Resolve, SkipSlashes, ComponentLength, Step;
    ResolveUnfold(h, s, cur, path);
    var at := SkipSlashes(path);
    if at != [] {
      var n := ComponentLength(at);
      ComponentUnfold(at);
      SkipFacts(path);
      ResolvedIn(h, s, Step(h, s, cur, at[..n]).p, at[n..]);
    }
  }

  lemma ResolveNothing(h: Heap, s: Shape, cur: int)
    ensures Resolve(h, s, cur, []) == if cur in h && cur in s.kids then At(cur) else Failed(ENOENT)
  {
  }

  /**
   What a walk means, component by component. From a path that leads to `d`: `.` stays,
   `..` goes to the parent and stays at the root, any other name leads to the first child
   of that name; -20 if `d` is no directory, -2 if it has no such child, -36 if the name has
   more than 255 bytes. Slashes at the end change nothing, and a failed walk stays failed.
   */
  lemma ResolveMeans(h: Heap, root: int, s: Shape, cur: int, path: seq<byte>, name: seq<byte>)
    requires Sound(h, root, s) && Resolve(h, s, cur, path).At? && Component(name)
    ensures var d, w := Resolve(h, s, cur, path).p, Resolve(h, s, cur, path + ['/' as int] + name);
            && d in h && d in s.kids && h[d].inode.Some?
            && if name == ['.' as int] then w == At(d)
               else if name == ['.' as int, '.' as int] then w == At(if d == root then root else h[d].parent)
               else if |name| > 255 then w == Failed(-36)
               else if !h[d].inode.value.Directory? then w == Failed(-20)
               else if w.At? then w.p != 0 && FirstCalled(h, s, d, name, w.p)
               else w == Failed(-2) && FirstCalled(h, s, d, name, 0)
  {
    hide Resolve, FirstCalled, Step, Sound;
    var d := Resolve(h, s, cur, path).p;
    ResolveMore(h, root, s, cur, path, name);
    StepMeans(h, root, s, d, name);
    if Step(h, s, d, name).At? {
      SoundKids(h, root, s, Step(h, s, d, name).p);
      ResolveNothing(h, s, Step(h, s, d, name).p);
    }
  }

  lemma StepMeans(h: Heap, root: int, s: Shape, d: int, name: seq<byte>)
    requires Sound(h, root, s) && d in h && d in s.kids
    ensures var w := Step(h, s, d, name);
            && (w.At? ==> w.p in h) && h[d].inode.Some?
            && if name == ['.' as int] then w == At(d)
               else if name == ['.' as int, '.' as int] then w == At(if d == root then root else h[d].parent)
               else if !h[d].inode.value.Directory? then w == Failed(-20)
               else if w.At? then w.p != 0 && FirstCalled(h, s, d, name, w.p)
               else w == Failed(-2) && FirstCalled(h, s, d, name, 0)
  {
    hide Find, FirstCalled;
    FindIsFirst(h, root, s, d, name);
    FindKid(h, root, s, d, name);
    if d != root {
      UpThere(h, root, s, d);
    }
  }

  lemma UpThere(h: Heap, root: int, s: Shape, p: int)
    requires Sound(h, root, s) && p in h && p != root
    ensures h[p].parent in h && h[p].parent != 0
  {
    assert Placed(h, s, p);
  }

  lemma ResolveSlash(h: Heap, s: Shape, cur: int, path: seq<byte>)
    requires Resolve(h, s, cur, path).At?
    ensures Resolve(h, s, cur, path + ['/' as int]) == Resolve(h, s, cur, path)
  {
    hide Resolve;
    ResolvedIn(h, s, cur, path);
    ResolveAppend(h, s, cur, path, [SLASH]);
    ResolveUnfold(h, s, Resolve(h, s, cur, path).p, [SLASH]);
    assert [SLASH][1..] == [] && SkipSlashes([SLASH]) == [];
  }

  lemma {:induction false} ResolveFailed(h: Heap, s: Shape, cur: int, a: seq<byte>, b: seq<byte>)
    requires Resolve(h, s, cur, a).Failed? && b != [] && b[0] == '/' as int
    ensures Resolve(h, s, cur, a + b) == Resolve(h, s, cur, a)
    decreases |a|
  {
    hide Resolve, Step, SkipSlashes, ComponentLength;
    SkipAppend(a, b);
    ResolveUnfold(h, s, cur, a);
    ResolveUnfold(h, s, cur, a + b);
    var at := SkipSlashes(a);
    if at != [] {
      var n := ComponentLength(at);
      ComponentAppend(at, b);
      ComponentUnfold(at);
      SkipFacts(a);
      assert (at + b)[..n] == at[..n] && (at + b)[n..] == at[n..] + b;
      if cur in h && cur in s.kids && n < NAME_SIZE && Step(h, s, cur, at[..n]).At? {
        ResolveFailed(h, s, Step(h, s, cur, at[..n]).p, at[n..], b);
      }
    }
  }

  /** A walk fails for one of three reasons. */
  lemma {:induction false} ResolveErrors(h: Heap, s: Shape, cur: int, path: seq<byte>)
    ensures Resolve(h, s, cur, path).Failed? ==> Resolve(h, s, cur, path).error in {-2, -20, -36}
    decreases |path|
  {
    hide Resolve, SkipSlashes, ComponentLength, Find;
    ResolveUnfold(h, s, cur, path);
    var at := SkipSlashes(path);
    if cur in h && cur in s.kids && at != [] {
      var n := ComponentLength(at);
      ComponentUnfold(at);
      SkipFacts(path);
      if n < NAME_SIZE && Step(h, s, cur, at[..n]).At? {
        ResolveErrors(h, s, Step(h, s, cur, at[..n]).p, at[n..]);
      }
    }
  }

  /** Down to a child and up again leads back. */
  lemma DownAndUp(h: Heap, root: int, s: Shape, d: int, name: seq<byte>)
    requires Sound(h, root, s) && d in h && Proper(name) && h[d].inode.value.Directory?
    requires Find(h, s.kids[d], name) != 0
    ensures Resolve(h, s, d, ['/' as int] + name + ['/' as int, '.' as int, '.' as int]) == At(d)
  {
    hide Resolve, Find;
    ResolveName(h, root, s, d, name);
    ResolveMeans(h, root, s, d, [SLASH] + name, [DOT, DOT]);
    FindKid(h, root, s, d, name);
    assert [SLASH] + name + [SLASH] + [DOT, DOT] == [SLASH] + name + [SLASH, DOT, DOT];
  }
}
