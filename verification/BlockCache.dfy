/**
 The Limine host tool's view of a disk: a one-block write-back cache in front of the
 device, and a log of overwritten bytes from which an installation can be undone.
 The cache refines a flat byte array, and undoing the log restores the original disk
 even though the dirty block still in the cache is thrown away first.
 */
module BlockCache {
  import opened Bytes

  /** The value `(uint64_t)-1` of `cached_block`: nothing is cached. */
  const NO_BLOCK: nat := U64 - 1
  const UNINSTALL_DATA_MAX: nat := 256
  /** The largest file offset. */
  const MAX_OFFSET: nat := 0x7FFF_FFFF_FFFF_FFFF

  /** One saved range: `data` is what stood at `loc` before a write. */
  datatype Entry = Entry(loc: u64, data: seq<byte>)

  /* ----- The log, as values ----- */

  /** Bytes `data` stored at `loc`; a range that does not fit changes nothing. */
  function Put(disk: seq<byte>, loc: nat, data: seq<byte>): (r: seq<byte>)
    ensures |r| == |disk|
  {
    if data == [] || loc + |data| > |disk| then disk else Splice(disk, loc, data)
  }

  function Replay(disk: seq<byte>, entries: seq<Entry>): (r: seq<byte>)
    ensures |r| == |disk|
    decreases |entries|
  {
    if entries == [] then disk
    else Replay(Put(disk, entries[0].loc, entries[0].data), entries[1..])
  }

  predicate Fits(e: Entry, size: nat) {
    e.data == [] || e.loc + |e.data| <= size
  }

  predicate AllFit(entries: seq<Entry>, size: nat) {
    forall i :: 0 <= i < |entries| ==> Fits(entries[i], size)
  }

  predicate Covers(e: Entry, b: int) {
    e.loc <= b < e.loc + |e.data|
  }

  predicate Covered(entries: seq<Entry>, b: int) {
    exists i :: 0 <= i < |entries| && Covers(entries[i], b)
  }

  /** The two disks differ only where some entry will write. */
  ghost predicate AgreeOff(d1: seq<byte>, d2: seq<byte>, entries: seq<Entry>) {
    |d1| == |d2| && forall b :: 0 <= b < |d1| && !Covered(entries, b) ==> d1[b] == d2[b]
  }

  /** Replaying forgets whatever the entries overwrite. */
  lemma {:induction false} ReplayForgets(d1: seq<byte>, d2: seq<byte>, entries: seq<Entry>)
    requires AgreeOff(d1, d2, entries)
    requires AllFit(entries, |d1|)
    ensures Replay(d1, entries) == Replay(d2, entries)
    decreases |entries|
  {
    if entries == [] {
      assert forall b :: 0 <= b < |d1| ==> !Covered(entries, b);
    } else {
      var e, rest := entries[0], entries[1..];
      var p1, p2 := Put(d1, e.loc, e.data), Put(d2, e.loc, e.data);
      forall b | 0 <= b < |p1| && !Covered(rest, b)
        ensures p1[b] == p2[b]
      {
        if !Covers(e, b) {
          assert forall i :: 0 < i < |entries| ==> entries[i] == rest[i - 1];
          assert !Covered(entries, b);
        }
      }
      ReplayForgets(p1, p2, rest);
    }
  }

  /** The log, replayed newest first, takes `disk` back to `original`. */
  ghost predicate Undoes(log: seq<Entry>, disk: seq<byte>, original: seq<byte>) {
    && |disk| == |original|
    && AllFit(log, |disk|)
    && Replay(disk, Reverse(log)) == original
  }

  /** The bytes a write to `loc` of `count` bytes will replace. */
  function Saved(flat: seq<byte>, loc: nat, count: nat): (r: seq<byte>)
    requires count == 0 || loc + count <= |flat|
    ensures |r| == count
  {
    if count == 0 then [] else flat[loc..loc + count]
  }

  lemma SavedStep(flat: seq<byte>, loc: nat, count: nat, more: nat)
    requires loc + count + more <= |flat|
    ensures Saved(flat, loc, count) + flat[loc + count..loc + count + more] == Saved(flat, loc, count + more)
  {
  }

  lemma PutBack(flat: seq<byte>, loc: nat, data: seq<byte>)
    requires data == [] || loc + |data| <= |flat|
    ensures Put(Put(flat, loc, data), loc, Saved(flat, loc, |data|)) == flat
  {
    hide Splice;
    var back := Put(Put(flat, loc, data), loc, Saved(flat, loc, |data|));
    forall i | 0 <= i < |flat|
      ensures back[i] == flat[i]
    {
    }
  }

  lemma PutNothing(flat: seq<byte>, loc: nat)
    ensures Put(flat, loc, []) == flat
  {
  }

  lemma PutStep(flat: seq<byte>, loc: nat, buffer: seq<byte>, count: nat, more: nat)
    requires more > 0 && count + more <= |buffer| && loc + count + more <= |flat|
    ensures Put(Put(flat, loc, buffer[..count]), loc + count, buffer[count..count + more]) ==
            Put(flat, loc, buffer[..count + more])
  {
    hide Splice;
  }

  lemma SpliceInside(disk: seq<byte>, pos: nat, block: seq<byte>, offset: nat, data: seq<byte>)
    requires pos + |block| <= |disk| && offset + |data| <= |block|
    ensures Splice(disk, pos, Splice(block, offset, data)) == Splice(Splice(disk, pos, block), pos + offset, data)
  {
    hide Splice;
  }

  /** Every byte of `d` comes from one of the three disks. */
  ghost predicate Mixture(d: seq<byte>, a: seq<byte>, b: seq<byte>, c: seq<byte>) {
    && |d| == |a| == |b| == |c|
    && forall i :: 0 <= i < |d| ==> d[i] == a[i] || d[i] == b[i] || d[i] == c[i]
  }

  lemma MixtureOfPrefix(a: seq<byte>, flat: seq<byte>, loc: nat, buffer: seq<byte>, count: nat)
    requires |a| == |flat| && count <= |buffer| && loc + |buffer| <= |flat|
    ensures Mixture(Put(flat, loc, buffer[..count]), a, flat, Put(flat, loc, buffer))
  {
    hide Splice;
  }

  lemma ReplayNewest(disk: seq<byte>, log: seq<Entry>, e: Entry)
    ensures Replay(disk, Reverse(log + [e])) == Replay(Put(disk, e.loc, e.data), Reverse(log))
  {
    assert Reverse(log + [e]) == [e] + Reverse(log);
    assert ([e] + Reverse(log))[1..] == Reverse(log);
  }

  /** Saving the old bytes before a write keeps the log able to undo it. */
  lemma SaveThenPut(log: seq<Entry>, flat: seq<byte>, original: seq<byte>, loc: u64, data: seq<byte>)
    requires Undoes(log, flat, original)
    requires Fits(Entry(loc, data), |flat|)
    ensures Undoes(log + [Entry(loc, Saved(flat, loc, |data|))], Put(flat, loc, data), original)
  {
    hide Put, Replay, Saved;
    var e := Entry(loc, Saved(flat, loc, |data|));
    PutBack(flat, loc, data);
    ReplayNewest(Put(flat, loc, data), log, e);
  }

  lemma CoveredReverse(log: seq<Entry>, b: int)
    ensures Covered(Reverse(log), b) == Covered(log, b)
  {
    if Covered(log, b) {
      var i :| 0 <= i < |log| && Covers(log[i], b);
      assert Covers(Reverse(log)[|log| - 1 - i], b);
    }
  }

  /** The log undoes every disk that agrees with `flat` off the logged ranges. */
  lemma UndoesOther(log: seq<Entry>, flat: seq<byte>, disk: seq<byte>, original: seq<byte>)
    requires Undoes(log, flat, original)
    requires AgreeOff(disk, flat, log)
    ensures Undoes(log, disk, original)
  {
    forall b | 0 <= b < |disk| && !Covered(Reverse(log), b)
      ensures disk[b] == flat[b]
    {
      CoveredReverse(log, b);
    }
    ReplayForgets(disk, flat, Reverse(log));
  }

  lemma ReplayNothing(disk: seq<byte>)
    ensures Replay(disk, []) == disk
  {
  }

  lemma {:induction false} ReplaySnoc(disk: seq<byte>, entries: seq<Entry>, i: nat)
    requires i < |entries|
    ensures Replay(disk, entries[..i + 1]) == Put(Replay(disk, entries[..i]), entries[i].loc, entries[i].data)
    decreases i
  {
    hide Put;
    if i > 0 {
      var rest := entries[1..];
      assert entries[..i + 1][1..] == rest[..i] && entries[..i][1..] == rest[..i - 1];
      ReplaySnoc(Put(disk, entries[0].loc, entries[0].data), rest, i - 1);
    } else {
      assert entries[..1][1..] == [];
    }
  }

  /* ----- The saved log, between two runs of the tool ----- */

  predicate NonEmpty(entries: seq<Entry>) {
    forall i :: 0 <= i < |entries| ==> entries[i].data != []
  }

  lemma NonEmptyMore(entries: seq<Entry>, e: Entry)
    ensures NonEmpty(entries + [e]) <==> NonEmpty(entries) && e.data != []
  {
    var more := entries + [e];
    assert more[|entries|] == e;
    assert forall i :: 0 <= i < |entries| ==> more[i] == entries[i];
  }

  lemma NonEmptyReverse(entries: seq<Entry>)
    ensures NonEmpty(Reverse(entries)) <==> NonEmpty(entries)
  {
    assert forall i :: 0 <= i < |entries| ==> entries[i] == Reverse(entries)[|entries| - 1 - i];
  }

  function EncodeEntries(entries: seq<Entry>): (r: seq<byte>)
    requires forall i :: 0 <= i < |entries| ==> |entries[i].data| < U64
  {
    if entries == [] then []
    else Word(entries[0].loc) + Word(|entries[0].data|) + entries[0].data + EncodeEntries(entries[1..])
  }

  /** `load_uninstall_data`'s reading of `n` entries from `pos` on. */
  function DecodeEntries(file: seq<byte>, pos: nat, n: nat): Option<seq<Entry>>
    decreases n
  {
    if n == 0 then Some([])
    else if pos + 16 > |file| then None
    else
      var loc, count := WordOf(file[pos..pos + 8]), WordOf(file[pos + 8..pos + 16]);
      if count == 0 || pos + 16 + count > |file| then None
      else
        var rest := DecodeEntries(file, pos + 16 + count, n - 1);
        if rest.None? then None else Some([Entry(loc, file[pos + 16..pos + 16 + count])] + rest.value)
  }

  function DecodeLog(file: seq<byte>): Option<seq<Entry>> {
    if |file| < 8 || WordOf(file[..8]) > UNINSTALL_DATA_MAX then None
    else DecodeEntries(file, 8, WordOf(file[..8]))
  }

  lemma SlicesOf(a: seq<byte>, x: seq<byte>, y: seq<byte>, d: seq<byte>, z: seq<byte>)
    requires |x| == |y| == 8
    ensures var file := a + (x + y + d) + z;
            && file[|a|..|a| + 8] == x && file[|a| + 8..|a| + 16] == y
            && file[|a| + 16..|a| + 16 + |d|] == d
  {
  }

  /** Decoding reads the entry written at `|before|` and goes on after it. */
  lemma DecodeFirst(before: seq<byte>, e: Entry, after: seq<byte>, n: nat)
    requires 0 < |e.data| < U64
    ensures var head := EncodeEntry(e);
            var file := before + head + after;
            var rest := DecodeEntries(file, |before + head|, n);
            DecodeEntries(file, |before|, n + 1) == if rest.None? then None else Some([e] + rest.value)
  {
    hide Word, WordOf;
    SlicesOf(before, Word(e.loc), Word(|e.data|), e.data, after);
    WordRoundTrip(e.loc);
    WordRoundTrip(|e.data|);
  }

  function EncodeEntry(e: Entry): seq<byte>
    requires |e.data| < U64
  {
    Word(e.loc) + Word(|e.data|) + e.data
  }

  /** The format of the file: location, number of bytes, and the bytes, entry after entry. */
  lemma EntryLayout(e: Entry, rest: seq<Entry>)
    requires |e.data| < U64 && forall i :: 0 <= i < |rest| ==> |rest[i].data| < U64
    ensures var r, n := EncodeEntries([e] + rest), |e.data|;
            && |r| >= 16 + n && WordOf(r[0..8]) == e.loc && WordOf(r[8..16]) == n && r[16..16 + n] == e.data
            && r[16 + n..] == EncodeEntries(rest)
  {
    hide Word, WordOf;
    assert ([e] + rest)[1..] == rest;
    WordRoundTrip(e.loc);
    WordRoundTrip(|e.data|);
    var r, n := EncodeEntries([e] + rest), |e.data|;
    assert r[0..8] == Word(e.loc) && r[8..16] == Word(n) && r[16..16 + n] == e.data;
  }

  lemma EncodeCons(entries: seq<Entry>)
    requires entries != [] && forall i :: 0 <= i < |entries| ==> |entries[i].data| < U64
    ensures EncodeEntries(entries) == EncodeEntry(entries[0]) + EncodeEntries(entries[1..])
  {
  }

  lemma Regroup(a: seq<byte>, b: seq<byte>, c: seq<byte>, d: seq<byte>)
    ensures a + (b + c) + d == (a + b) + c + d == a + b + (c + d)
  {
  }

  lemma {:induction false} EntriesRoundTrip(before: seq<byte>, entries: seq<Entry>, after: seq<byte>)
    requires NonEmpty(entries) && forall i :: 0 <= i < |entries| ==> |entries[i].data| < U64
    ensures DecodeEntries(before + EncodeEntries(entries) + after, |before|, |entries|) == Some(entries)
    decreases |entries|
  {
    if entries != [] {
      hide Word, WordOf, EncodeEntries, DecodeEntries, EncodeEntry;
      var e, rest := entries[0], entries[1..];
      EncodeCons(entries);
      Regroup(before, EncodeEntry(e), EncodeEntries(rest), after);
      EntriesRoundTrip(before + EncodeEntry(e), rest, after);
      DecodeFirst(before, e, EncodeEntries(rest) + after, |rest|);
      assert [e] + rest == entries;
    }
  }

  /** A stored log is loaded back unchanged. */
  lemma LogRoundTrip(entries: seq<Entry>)
    requires NonEmpty(entries) && |entries| <= 256
    requires forall i :: 0 <= i < |entries| ==> |entries[i].data| < U64
    ensures DecodeLog(Word(|entries|) + EncodeEntries(entries)) == Some(entries)
  {
    var file := Word(|entries|) + EncodeEntries(entries);
    EntriesRoundTrip(Word(|entries|), entries, []);
    assert file == Word(|entries|) + EncodeEntries(entries) + [];
    assert file[..8] == Word(|entries|);
    WordRoundTrip(|entries|);
  }

  lemma {:induction false} EncodeSnoc(entries: seq<Entry>, i: nat)
    requires i < |entries| && forall i :: 0 <= i < |entries| ==> |entries[i].data| < U64
    ensures EncodeEntries(entries[..i + 1]) ==
            EncodeEntries(entries[..i]) + Word(entries[i].loc) + Word(|entries[i].data|) + entries[i].data
    decreases i
  {
    hide Word;
    var rest := entries[1..];
    if i > 0 {
      assert entries[..i + 1][1..] == rest[..i] && entries[..i][1..] == rest[..i - 1];
      EncodeSnoc(rest, i - 1);
    } else {
      assert entries[..1][1..] == [];
    }
  }

  /** `store_uninstall_data`; `fwrite` of an empty item reports failure. */
  method StoreLog(entries: seq<Entry>) returns (file: Option<seq<byte>>)
    requires |entries| <= 256 && forall i :: 0 <= i < |entries| ==> |entries[i].data| < U64
    ensures file.Some? <==> NonEmpty(entries)
    ensures file.Some? ==> DecodeLog(file.value) == Some(entries)
  {
    hide Word, DecodeLog;
    var written := Word(|entries|);
    var i := 0;
    assert entries[..0] == [];
    while i < |entries|
      invariant 0 <= i <= |entries| && NonEmpty(entries[..i])
      invariant written == Word(|entries|) + EncodeEntries(entries[..i])
    {
      if entries[i].data == [] {
        return None;
      }
      EncodeSnoc(entries, i);
      written := written + Word(entries[i].loc) + Word(|entries[i].data|) + entries[i].data;
      i := i + 1;
    }
    assert entries[..i] == entries;
    LogRoundTrip(entries);
    return Some(written);
  }

  method LoadLog(file: seq<byte>) returns (entries: Option<seq<Entry>>)
    ensures entries == DecodeLog(file)
  {
    hide WordOf;
    if |file| < 8 {
      return None;
    }
    var n := WordOf(file[..8]);
    if n > UNINSTALL_DATA_MAX {
      return None;
    }
    var loaded: seq<Entry>, pos: nat, i: nat := [], 8, 0;
    assert DecodeEntries(file, 8, n).Some? ==> [] + DecodeEntries(file, 8, n).value == DecodeEntries(file, 8, n).value;
    while i < n
      invariant 0 <= i <= n
      invariant DecodeLog(file) == (var rest := DecodeEntries(file, pos, n - i);
                                    if rest.None? then None else Some(loaded + rest.value))
    {
      if pos + 16 > |file| {
        return None;
      }
      var loc, count := WordOf(file[pos..pos + 8]), WordOf(file[pos + 8..pos + 16]);
      if count == 0 || pos + 16 + count > |file| {
        return None;
      }
      var entry := Entry(loc, file[pos + 16..pos + 16 + count]);
      assert forall rest: seq<Entry> :: loaded + ([entry] + rest) == (loaded + [entry]) + rest;
      loaded := loaded + [entry];
      pos := pos + 16 + count;
      i := i + 1;
    }
    assert DecodeEntries(file, pos, 0) == Some([]) && loaded + [] == loaded;
    return Some(loaded);
  }

  /* ----- Runs ----- */

  datatype Step = DoRead(loc: u64, count: u64) | DoWrite(loc: u64, data: seq<byte>) | DoFlush {
    /** A write of no bytes. */
    predicate Empty() {
      DoWrite? && data == []
    }

    predicate InBounds() {
      DoWrite? ==> |data| < U64
    }
  }

  predicate StepFits(step: Step, size: nat) {
    match step
    case DoRead(loc, count) => count == 0 || loc + count <= size
    case DoWrite(loc, data) => Fits(Entry(loc, data), size)
    case DoFlush => true
  }

  function Apply(flat: seq<byte>, step: Step): (r: seq<byte>)
    ensures |r| == |flat|
  {
    if step.DoWrite? then Put(flat, step.loc, step.data) else flat
  }

  /** What a step reads from the flat array. */
  function Got(flat: seq<byte>, step: Step): seq<byte> {
    if step.DoRead? && StepFits(step, |flat|) then Saved(flat, step.loc, step.count) else []
  }

  function FlatAfter(flat: seq<byte>, steps: seq<Step>): (r: seq<byte>)
    ensures |r| == |flat|
    decreases |steps|
  {
    if steps == [] then flat else Apply(FlatAfter(flat, steps[..|steps| - 1]), steps[|steps| - 1])
  }

  function ReadsOf(flat: seq<byte>, steps: seq<Step>): seq<seq<byte>>
    decreases |steps|
  {
    if steps == [] then []
    else
      var before, last := steps[..|steps| - 1], steps[|steps| - 1];
      ReadsOf(flat, before) + if last.DoRead? then [Got(FlatAfter(flat, before), last)] else []
  }

  function WriteCount(steps: seq<Step>): nat {
    if steps == [] then 0
    else WriteCount(steps[..|steps| - 1]) + if steps[|steps| - 1].DoWrite? then 1 else 0
  }

  /** Step `k` is the last write to byte `b`. */
  ghost predicate LastWrites(steps: seq<Step>, b: nat, k: nat) {
    k < |steps| && Writes(steps[k], b) && forall j :: k < j < |steps| ==> !Writes(steps[j], b)
  }

  predicate Writes(step: Step, b: nat) {
    step.DoWrite? && step.loc <= b < step.loc + |step.data|
  }

  lemma {:induction false} Unwritten(flat: seq<byte>, steps: seq<Step>, b: nat, k: nat)
    requires b < |flat| && k <= |steps| && forall j :: k <= j < |steps| ==> !Writes(steps[j], b)
    ensures FlatAfter(flat, steps)[b] == FlatAfter(flat, steps[..k])[b]
    decreases |steps|
  {
    if k == |steps| {
      assert steps[..k] == steps;
    } else {
      assert steps[..|steps| - 1][..k] == steps[..k];
      Unwritten(flat, steps[..|steps| - 1], b, k);
      assert !Writes(steps[|steps| - 1], b);
    }
  }

  /** After a run every byte is that of the last write to it, or what it was. */
  lemma FlatByte(flat: seq<byte>, steps: seq<Step>, b: nat, k: nat)
    requires b < |flat| && (LastWrites(steps, b, k) ==> StepFits(steps[k], |flat|))
    ensures (forall i :: 0 <= i < |steps| ==> !Writes(steps[i], b)) ==> FlatAfter(flat, steps)[b] == flat[b]
    ensures LastWrites(steps, b, k) ==> FlatAfter(flat, steps)[b] == steps[k].data[b - steps[k].loc]
  {
    hide Splice;
    if forall i :: 0 <= i < |steps| ==> !Writes(steps[i], b) {
      Unwritten(flat, steps, b, 0);
    } else if LastWrites(steps, b, k) {
      Unwritten(flat, steps, b, k + 1);
      assert steps[..k + 1][..k] == steps[..k];
    }
  }

  /** A run returns one result for each read, in order: the bytes there after the steps before it. */
  lemma {:induction false} ReadAt(flat: seq<byte>, steps: seq<Step>, k: nat)
    requires k < |steps| && steps[k].DoRead? && StepFits(steps[k], |flat|) && steps[k].count > 0
    ensures var loc, count, at := steps[k].loc, steps[k].count, |ReadsOf(flat, steps[..k])|;
            && at < |ReadsOf(flat, steps)|
            && ReadsOf(flat, steps)[at] == FlatAfter(flat, steps[..k])[loc..loc + count]
    decreases |steps|
  {
    hide FlatAfter;
    if k < |steps| - 1 {
      assert steps[..|steps| - 1][..k] == steps[..k];
      ReadAt(flat, steps[..|steps| - 1], k);
    }
  }

  ghost function ReadSteps(steps: seq<Step>): set<int> {
    set i | 0 <= i < |steps| && steps[i].DoRead?
  }

  ghost function WriteSteps(steps: seq<Step>): set<int> {
    set i | 0 <= i < |steps| && steps[i].DoWrite?
  }

  lemma {:induction false} Counts(flat: seq<byte>, steps: seq<Step>)
    ensures WriteCount(steps) == |WriteSteps(steps)| && |ReadsOf(flat, steps)| == |ReadSteps(steps)|
    decreases |steps|
  {
    if steps != [] {
      var n, before := |steps| - 1, steps[..|steps| - 1];
      Counts(flat, before);
      assert WriteSteps(steps) == if steps[n].DoWrite? then WriteSteps(before) + {n} else WriteSteps(before);
      assert ReadSteps(steps) == if steps[n].DoRead? then ReadSteps(before) + {n} else ReadSteps(before);
    }
  }

  lemma {:induction false} WriteCountPrefix(steps: seq<Step>, i: nat)
    requires i <= |steps|
    ensures WriteCount(steps[..i]) <= WriteCount(steps)
    decreases |steps|
  {
    if i < |steps| {
      assert steps[..|steps| - 1][..i] == steps[..i];
      WriteCountPrefix(steps[..|steps| - 1], i);
    } else {
      assert steps[..i] == steps;
    }
  }

  lemma AgreeOffMixture(log: seq<Entry>, disk0: seq<byte>, flat: seq<byte>, disk: seq<byte>, flat1: seq<byte>)
    requires AgreeOff(disk0, flat, log) && flat == flat1
    requires disk == disk0 || disk == flat
    ensures AgreeOff(disk, flat1, log)
  {
  }

  lemma AgreeOffPut(log: seq<Entry>, disk0: seq<byte>, flat: seq<byte>, disk: seq<byte>, loc: u64, data: seq<byte>)
    requires AgreeOff(disk0, flat, log) && Fits(Entry(loc, data), |flat|)
    requires Mixture(disk, disk0, flat, Put(flat, loc, data))
    ensures AgreeOff(disk, Put(flat, loc, data), log + [Entry(loc, Saved(flat, loc, |data|))])
  {
    hide Splice;
    var e := Entry(loc, Saved(flat, loc, |data|));
    forall b | 0 <= b < |disk| && !Covered(log + [e], b)
      ensures disk[b] == Put(flat, loc, data)[b]
    {
      assert (log + [e])[|log|] == e;
      assert forall i :: 0 <= i < |log| ==> log[i] == (log + [e])[i];
      assert !Covered(log, b);
    }
  }

  lemma UndoesNothing(disk: seq<byte>)
    ensures Undoes([], disk, disk)
  {
    assert Reverse<Entry>([]) == [];
  }

  /* ----- Arithmetic of blocks ----- */

  function Position(block: nat, size: nat): nat {
    block * size
  }

  function BlockOf(at: nat, size: nat): nat
    requires size > 0
  {
    at / size
  }

  function OffsetIn(at: nat, size: nat): nat
    requires size > 0
  {
    at % size
  }

  /** The bytes of a device that lie in whole blocks. */
  function WholeBlocks(total: nat, size: nat): (r: nat)
    requires size > 0
    ensures r <= total
  {
    Position(BlockOf(total, size), size)
  }

  lemma Locate(at: nat, size: nat)
    requires size > 0
    ensures Position(BlockOf(at, size), size) + OffsetIn(at, size) == at
    ensures OffsetIn(at, size) < size
  {
  }

  lemma BlockNumberSmall(at: u64, size: nat)
    requires size in {512, 2048, 4096}
    ensures BlockOf(at, size) < NO_BLOCK
  {
    if size == 512 { assert at / 512 < NO_BLOCK; }
    else if size == 2048 { assert at / 2048 < NO_BLOCK; }
    else { assert at / 4096 < NO_BLOCK; }
  }

  lemma PositionZero(size: nat)
    ensures Position(0, size) == 0
  {
  }

  lemma PositionStep(a: nat, b: nat, size: nat)
    requires a < b
    ensures Position(a, size) + size <= Position(b, size)
  {
    assert (a + 1) * size <= b * size;
  }

  lemma BlockIn(block: nat, size: nat, total: nat)
    requires size > 0
    ensures Position(block, size) + size <= total <==> Position(block, size) < WholeBlocks(total, size)
    ensures Position(block, size) + size <= total ==> Position(block, size) + size <= WholeBlocks(total, size)
  {
    hide Position, BlockOf, OffsetIn;
    Locate(total, size);
    var last := BlockOf(total, size);
    if block < last {
      PositionStep(block, last, size);
    } else if block > last {
      PositionStep(last, block, size);
    }
  }

  /* ----- The device ----- */

  class Device {
    const blockSize: nat
    var disk: seq<byte>
    var cache: array<byte>
    var cachedBlock: nat
    var dirty: bool
    var uninstalling: bool
    var log: seq<Entry>

    ghost predicate LogShape()
      reads `log
    {
      |log| <= UNINSTALL_DATA_MAX && forall i :: 0 <= i < |log| ==> |log[i].data| < U64
    }

    ghost predicate Shape()
      reads `disk, `cache, `cachedBlock, `dirty
    {
      && blockSize in {512, 2048, 4096}
      && cache.Length == blockSize
      && |disk| <= MAX_OFFSET
      && (if cachedBlock == NO_BLOCK then !dirty else Position(cachedBlock, blockSize) + blockSize <= |disk|)
    }

    /** A clean cached block has the device's bytes. */
    ghost predicate Coherent()
      reads `disk, `cache, `cachedBlock, `dirty, cache
    {
      && Shape()
      && (cachedBlock != NO_BLOCK && !dirty ==>
            cache[..] == disk[Position(cachedBlock, blockSize)..Position(cachedBlock, blockSize) + blockSize])
    }

    /** The flat array the cache and the device stand for. */
    ghost function Flat(): (r: seq<byte>)
      reads `disk, `cache, `cachedBlock, `dirty, cache
      requires Shape()
      ensures |r| == |disk|
    {
      if cachedBlock == NO_BLOCK then disk
      else Splice(disk, Position(cachedBlock, blockSize), cache[..])
    }

    /** The bytes the cache can reach. */
    ghost function Reach(): (r: nat)
      reads `disk, `cache, `cachedBlock, `dirty
      requires Shape()
      ensures r <= |disk|
    {
      WholeBlocks(|disk|, blockSize)
    }

    /** `device_init`: block zero is read and cached. */
    constructor (contents: seq<byte>, size: nat)
      requires size in {512, 2048, 4096} && size <= |contents| <= MAX_OFFSET
      ensures Coherent() && disk == contents && Flat() == contents && blockSize == size
      ensures log == [] && !uninstalling && !dirty && fresh(cache)
    {
      blockSize := size;
      disk := contents;
      cache := new byte[size](i requires 0 <= i < size => contents[i]);
      cachedBlock := 0;
      dirty := false;
      uninstalling := false;
      log := [];
      new;
      hide Position, Splice;
      PositionZero(size);
      assert cache[..] == contents[..size];
    }

    method FlushCache()
      requires Shape()
      modifies `disk, `dirty
      ensures Shape() && !dirty
      ensures disk == if old(dirty) then old(Flat()) else old(disk)
      ensures old(Coherent()) ==> Coherent() && disk == Flat() == old(Flat())
    {
      hide Position;
      if !dirty {
        return;
      }
      disk := Splice(disk, Position(cachedBlock, blockSize), cache[..]);
      dirty := false;
      assert old(Coherent()) ==> Coherent() && disk == Flat();
    }

    /** `fread` of one block: past the end it comes up short and spoils the cached bytes. */
    method ReadBlock(pos: nat) returns (ok: bool)
      requires cache.Length == blockSize
      modifies cache
      ensures ok <==> pos + blockSize <= |disk|
      ensures ok ==> cache[..] == disk[pos..pos + blockSize]
    {
      if pos + blockSize > |disk| {
        var got := if pos < |disk| then |disk| - pos else 0;
        forall i | 0 <= i < got {
          cache[i] := disk[pos + i];
        }
        return false;
      }
      forall i | 0 <= i < blockSize {
        cache[i] := disk[pos + i];
      }
      return true;
    }

    method CacheBlock(block: nat) returns (ok: bool)
      requires Shape() && block < NO_BLOCK
      modifies `disk, `dirty, `cachedBlock, cache
      ensures Shape() && |disk| == old(|disk|)
      ensures ok <==> Position(block, blockSize) + blockSize <= |disk|
      ensures ok ==> cachedBlock == block
      ensures old(Coherent()) && ok ==> Coherent() && Flat() == old(Flat())
      ensures old(Coherent()) ==> disk == old(disk) || disk == old(Flat())
    {
      hide Position, Splice;
      if cachedBlock == block {
        return true;
      }
      if dirty {
        FlushCache();
      } else {
        CoherentFlat();
      }
      assert old(Coherent()) ==> disk == old(Flat());
      ok := ReadBlock(Position(block, blockSize));
      if ok {
        cachedBlock := block;
        CoherentFlat();
      }
    }

    lemma CoherentFlat()
      requires Shape() && !dirty
      ensures Coherent() ==> Flat() == disk
    {
      hide Position;
    }

    lemma CachedBytes(at: nat, count: nat)
      requires Shape() && cachedBlock != NO_BLOCK
      requires cachedBlock == BlockOf(at, blockSize) && OffsetIn(at, blockSize) + count <= blockSize
      ensures at + count <= |disk|
      ensures cache[OffsetIn(at, blockSize)..OffsetIn(at, blockSize) + count] == Flat()[at..at + count]
    {
      hide Position, BlockOf, OffsetIn;
      Locate(at, blockSize);
      var offset := OffsetIn(at, blockSize);
      assert Position(cachedBlock, blockSize) + offset == at;
    }

    /** The part of a transfer at `at` that lies in one block. */
    method SelectBlock(at: u64, want: nat) returns (ok: bool, offset: nat, chunk: nat)
      requires Shape() && want > 0
      modifies `disk, `dirty, `cachedBlock, cache
      ensures Shape() && |disk| == old(|disk|)
      ensures ok <==> at < Reach()
      ensures ok ==>
              cachedBlock == BlockOf(at, blockSize) && cachedBlock != NO_BLOCK && offset == OffsetIn(at, blockSize)
      ensures ok ==> 0 < chunk <= want && offset + chunk <= blockSize && at + chunk <= Reach()
      ensures ok ==> Position(cachedBlock, blockSize) + offset == at
      ensures old(Coherent()) && ok ==> Coherent() && Flat() == old(Flat())
      ensures old(Coherent()) ==> disk == old(disk) || disk == old(Flat())
    {
      hide Position, BlockOf, OffsetIn, WholeBlocks;
      var block := BlockOf(at, blockSize);
      offset := OffsetIn(at, blockSize);
      chunk := want;
      Locate(at, blockSize);
      BlockNumberSmall(at, blockSize);
      BlockIn(block, blockSize, |disk|);
      assert WholeBlocks(|disk|, blockSize) > Position(block, blockSize) ==> at < WholeBlocks(|disk|, blockSize);
      ok := CacheBlock(block);
      if ok && chunk > blockSize - offset {
        chunk := blockSize - offset;
      }
    }

    /** Reads succeed exactly inside the whole blocks and return the flat array's bytes. */
    method Read(loc: u64, count: u64) returns (ok: bool, buffer: seq<byte>)
      requires Shape()
      modifies `disk, `dirty, `cachedBlock, cache
      ensures Shape() && |disk| == old(|disk|)
      ensures ok <==> count == 0 || loc + count <= Reach()
      ensures ok ==> |buffer| == count
      ensures old(Coherent()) && ok ==> Coherent() && Flat() == old(Flat()) && buffer == Saved(Flat(), loc, count)
      ensures old(Coherent()) ==> disk == old(disk) || disk == old(Flat())
    {
      hide Position, BlockOf, OffsetIn, WholeBlocks, Splice, Saved, Flat, Coherent;
      buffer := [];
      var progress := 0;
      ghost var flat := Flat();
      while progress < count
        invariant Shape() && |disk| == old(|disk|)
        invariant progress == |buffer| <= count
        invariant progress > 0 ==> loc + progress <= Reach()
        invariant old(Coherent()) ==> Coherent() && Flat() == flat
        invariant old(Coherent()) ==> buffer == Saved(flat, loc, progress)
        invariant old(Coherent()) ==> disk == old(disk) || disk == flat
      {
        var at := (loc + progress) % U64;
        var selected, offset, chunk := SelectBlock(at, count - progress);
        if !selected {
          return false, buffer;
        }
        CachedBytes(at, chunk);
        SavedStep(Flat(), loc, progress, chunk);
        buffer := buffer + cache[offset..offset + chunk];
        progress := progress + chunk;
      }
      return true, buffer;
    }

    /** `memcpy` into the cache. */
    method CopyIn(offset: nat, data: seq<byte>)
      requires offset + |data| <= cache.Length
      modifies cache
      ensures cache[..] == Splice(old(cache[..]), offset, data)
    {
      hide Splice;
      forall i | 0 <= i < |data| {
        cache[offset + i] := data[i];
      }
    }

    /** Copies into the cached block; the flat array changes in exactly that range. */
    method FillCache(at: nat, data: seq<byte>)
      requires Shape() && cachedBlock != NO_BLOCK && data != []
      requires cachedBlock == BlockOf(at, blockSize) && OffsetIn(at, blockSize) + |data| <= blockSize
      modifies `dirty, cache
      ensures Coherent() && dirty
      ensures Flat() == Put(old(Flat()), at, data)
    {
      hide Position, BlockOf, OffsetIn, WholeBlocks, Splice;
      Locate(at, blockSize);
      var offset := OffsetIn(at, blockSize);
      ghost var before := cache[..];
      CopyIn(offset, data);
      dirty := true;
      SpliceInside(disk, Position(cachedBlock, blockSize), before, offset, data);
    }

    /** The copying loop of `_device_write`. */
    method StoreBytes(buffer: seq<byte>, loc: u64) returns (ok: bool)
      requires Shape() && |buffer| < U64
      modifies `disk, `dirty, `cachedBlock, cache
      ensures Shape() && |disk| == old(|disk|)
      ensures ok <==> buffer == [] || loc + |buffer| <= Reach()
      ensures old(Coherent()) && ok ==> Coherent() && Flat() == Put(old(Flat()), loc, buffer)
      ensures old(Coherent()) && ok ==> Mixture(disk, old(disk), old(Flat()), Flat())
    {
      hide Position, BlockOf, OffsetIn, WholeBlocks, Splice, Flat, Coherent, Put;
      var progress := 0;
      ghost var flat := Flat();
      PutNothing(flat, loc);
      assert buffer[..0] == [];
      while progress < |buffer|
        invariant Shape() && |disk| == old(|disk|)
        invariant progress <= |buffer|
        invariant progress > 0 ==> loc + progress <= Reach()
        invariant old(Coherent()) ==> Coherent() && Flat() == Put(flat, loc, buffer[..progress])
        invariant old(Coherent()) && (buffer == [] || loc + |buffer| <= |flat|) ==>
                    Mixture(disk, old(disk), flat, Put(flat, loc, buffer))
      {
        var at := (loc + progress) % U64;
        if loc + |buffer| <= |flat| {
          MixtureOfPrefix(old(disk), flat, loc, buffer, progress);
        }
        var selected, offset, chunk := SelectBlock(at, |buffer| - progress);
        if !selected {
          return false;
        }
        FillCache(at, buffer[progress..progress + chunk]);
        PutStep(flat, loc, buffer, progress, chunk);
        progress := progress + chunk;
      }
      assert buffer[..progress] == buffer;
      return true;
    }

    /** `_device_write`: saves what it overwrites, unless an undo is in progress. */
    method Write(buffer: seq<byte>, loc: u64) returns (ok: bool)
      requires Shape() && LogShape() && |buffer| < U64
      modifies `disk, `dirty, `cachedBlock, `log, cache
      ensures Shape() && LogShape() && |disk| == old(|disk|)
      ensures ok <==> (uninstalling || |old(log)| < 256) && Fits(Entry(loc, buffer), Reach())
      ensures !ok || uninstalling ==> log == old(log)
      ensures old(Coherent()) && ok && !uninstalling ==>
                log == old(log) + [Entry(loc, Saved(old(Flat()), loc, |buffer|))]
      ensures old(Coherent()) && ok ==> Coherent() && Flat() == Put(old(Flat()), loc, buffer)
      ensures old(Coherent()) && ok ==> Mixture(disk, old(disk), old(Flat()), Flat())
      ensures old(Coherent()) && !ok && !uninstalling ==> disk == old(disk) || disk == old(Flat())
    {
      hide Position, BlockOf, OffsetIn, WholeBlocks, Splice, Put, Coherent;
      var data := [];
      if !uninstalling {
        if |log| >= UNINSTALL_DATA_MAX {
          return false;
        }
        ok, data := Read(loc, |buffer|);
        if !ok {
          return false;
        }
      }
      ok := StoreBytes(buffer, loc);
      if ok && !uninstalling {
        log := log + [Entry(loc, data)];
      }
    }

    /** `reverse_uninstall_data`. */
    method ReverseLog()
      requires LogShape()
      modifies `log
      ensures LogShape() && log == Reverse(old(log))
    {
      var rev := log;
      var i := 0;
      while i < |log|
        invariant 0 <= i <= |log| == |rev|
        invariant forall k :: |log| - i <= k < |log| ==> rev[k] == log[|log| - 1 - k]
      {
        rev := rev[|log| - 1 - i := log[i]];
        i := i + 1;
      }
      assert rev == Reverse(log);
      log := rev;
    }

    /** One entry of `uninstall`, tried a second time with an empty cache after a failure. */
    method RestoreEntry(e: Entry) returns (ok: bool)
      requires Shape() && LogShape() && uninstalling && |e.data| < U64
      modifies `disk, `dirty, `cachedBlock, `log, cache
      ensures Shape() && LogShape() && |disk| == old(|disk|) && log == old(log)
      ensures ok <==> Fits(e, Reach())
      ensures old(Coherent()) && ok ==> Coherent() && Flat() == Put(old(Flat()), e.loc, e.data)
    {
      hide Position, WholeBlocks, Put, Flat, Coherent;
      var retry := false;
      ok := Write(e.data, e.loc);
      while !ok
        invariant Shape() && LogShape() && |disk| == old(|disk|) && log == old(log)
        invariant ok <==> Fits(e, Reach())
        invariant old(Coherent()) && ok ==> Coherent() && Flat() == Put(old(Flat()), e.loc, e.data)
        decreases !retry
      {
        if retry {
          return false;
        }
        FlushCache();
        dirty := false;
        cachedBlock := NO_BLOCK;
        retry := true;
        ok := Write(e.data, e.loc);
      }
    }

    /** `uninstall`: whatever the cache holds is dropped, then the entries are replayed. */
    method Uninstall() returns (ok: bool)
      requires Shape() && LogShape()
      modifies this, cache
      ensures Shape() && LogShape() && |disk| == old(|disk|) && log == old(log) && cache == old(cache)
      ensures ok <==> AllFit(log, Reach())
      ensures ok ==> disk == Replay(old(disk), log)
    {
      hide Position, WholeBlocks, Put, Replay, Fits;
      uninstalling := true;
      dirty := false;
      cachedBlock := NO_BLOCK;
      ok := true;
      ghost var start := disk;
      ReplayNothing(start);
      assert log[..0] == [];
      var i := 0;
      while i < |log|
        invariant 0 <= i <= |log| && log == old(log) && cache == old(cache) && uninstalling
        invariant Shape() && LogShape() && |disk| == |start|
        invariant ok <==> AllFit(log[..i], Reach())
        invariant ok ==> Coherent() && Flat() == Replay(start, log[..i])
      {
        var restored := RestoreEntry(log[i]);
        if !restored {
          ok := false;
        }
        ReplaySnoc(start, log, i);
        assert log[..i + 1] == log[..i] + [log[i]];
        i := i + 1;
      }
      assert log[..i] == log;
      FlushCache();
    }

    /** Every state of an installation from `original` can still be undone, cached block or not. */
    ghost predicate Undoable(original: seq<byte>)
      reads `disk, `cache, `cachedBlock, `dirty, `log, cache
      requires Shape()
    {
      && Undoes(log, Flat(), original)
      && AgreeOff(disk, Flat(), log)
      && AllFit(log, Reach())
    }

    method RunStep(step: Step, ghost original: seq<byte>) returns (ok: bool, got: seq<byte>)
      requires Shape() && LogShape() && Coherent() && !uninstalling && step.InBounds()
      requires Undoable(original)
      modifies `disk, `dirty, `cachedBlock, `log, cache
      ensures Shape() && LogShape() && |disk| == old(|disk|)
      ensures ok <==> StepFits(step, Reach()) && (step.DoWrite? ==> old(|log|) < 256)
      ensures ok ==>
              Coherent() && Undoable(original) && Flat() == Apply(old(Flat()), step) && got == Got(old(Flat()), step)
      ensures ok ==> |log| == old(|log|) + if step.DoWrite? then 1 else 0
      ensures !ok ==> log == old(log) && (disk == old(disk) || disk == old(Flat()))
      ensures ok ==> (NonEmpty(log) <==> NonEmpty(old(log)) && !step.Empty())
    {
      hide Position, WholeBlocks, Coherent, Flat, AgreeOff, Undoes, Put, Saved;
      got := [];
      ghost var disk0, flat0, log0 := disk, Flat(), log;
      match step
      case DoFlush =>
        FlushCache();
        ok := true;
        AgreeOffMixture(log, disk0, flat0, disk, Flat());
      case DoRead(loc, count) =>
        ok, got := Read(loc, count);
        if ok {
          AgreeOffMixture(log, disk0, flat0, disk, Flat());
        }
      case DoWrite(loc, data) =>
        ok := Write(data, loc);
        if ok {
          SaveThenPut(log0, flat0, original, loc, data);
          NonEmptyMore(log0, log[|log0|]);
          AgreeOffPut(log0, disk0, flat0, disk, loc, data);
        }
    }

    /**
     `bios_install`: the steps run until one fails; then the log is reversed, and after a
     failure replayed. The disk ends up fully installed or exactly as it was.
     */
    method Install(steps: seq<Step>) returns (ok: bool, results: seq<seq<byte>>)
      requires Shape() && Coherent() && !dirty && log == [] && !uninstalling
      requires forall i :: 0 <= i < |steps| ==> steps[i].InBounds()
      modifies this, cache
      ensures Shape() && LogShape() && |disk| == old(|disk|)
      ensures ok <==> WriteCount(steps) <= 256 &&
                      (forall i :: 0 <= i < |steps| ==> StepFits(steps[i], Reach()))
      ensures ok ==> disk == FlatAfter(old(disk), steps) && results == ReadsOf(old(disk), steps)
      ensures ok ==> AllFit(log, Reach()) && Replay(disk, log) == old(disk)
      ensures ok ==> (NonEmpty(log) <==> forall i :: 0 <= i < |steps| ==> !steps[i].Empty())
      ensures !ok ==> disk == old(disk)
    {
      hide Position, WholeBlocks, Coherent, Flat, AgreeOff, StepFits, Apply, Got, Replay;
      ghost var original := disk;
      CoherentFlat();
      AgreeOffMixture([], original, original, original, original);
      UndoesNothing(original);
      results := [];
      var i := 0;
      ok := true;
      while i < |steps| && ok
        invariant 0 <= i <= |steps|
        invariant Shape() && LogShape() && |disk| == |original| && !uninstalling && cache == old(cache)
        invariant ok ==> Coherent() && Undoable(original)
        invariant ok ==> Flat() == FlatAfter(original, steps[..i]) && results == ReadsOf(original, steps[..i])
        invariant ok ==> |log| == WriteCount(steps[..i])
        invariant ok ==> forall k :: 0 <= k < i ==> StepFits(steps[k], Reach())
        invariant ok ==> (NonEmpty(log) <==> forall k :: 0 <= k < i ==> !steps[k].Empty())
        invariant !ok ==> Undoes(log, disk, original) && AllFit(log, Reach())
        invariant !ok ==>
                  WriteCount(steps) > UNINSTALL_DATA_MAX
                  || exists k :: 0 <= k < |steps| && !StepFits(steps[k], Reach())
      {
        assert steps[..i + 1][..i] == steps[..i];
        WriteCountPrefix(steps, i + 1);
        ghost var log0, disk0, flat0 := log, disk, Flat();
        var got;
        ok, got := RunStep(steps[i], original);
        if ok {
          if steps[i].DoRead? {
            results := results + [got];
          }
        } else {
          AgreeOffMixture(log, disk0, flat0, disk, flat0);
          UndoesOther(log, flat0, disk, original);
        }
        i := i + 1;
      }
      assert ok ==> steps[..i] == steps;
      if ok {
        FlushCache();
        NonEmptyReverse(log);
        ReverseLog();
      } else {
        ReverseLog();
        var _ := Uninstall();
      }
    }
  }

  /** One run installs and stores its log; a later run on the same disk loads and replays it. */
  method InstallThenUninstall(contents: seq<byte>, size: nat, steps: seq<Step>)
    returns (installed: bool, stored: bool, final: seq<byte>)
    requires size in {512, 2048, 4096} && size <= |contents| <= MAX_OFFSET
    requires forall i :: 0 <= i < |steps| ==> steps[i].InBounds()
    ensures !installed || stored ==> final == contents
    ensures installed && !stored ==> final == FlatAfter(contents, steps)
    ensures stored <==> installed && forall i :: 0 <= i < |steps| ==> !steps[i].Empty()
  {
    hide Position, WholeBlocks, Replay;
    var device := new Device(contents, size);
    var results;
    installed, results := device.Install(steps);
    stored := false;
    if installed {
      var file := StoreLog(device.log);
      if file.Some? {
        var entries := LoadLog(file.value);
        var later := new Device(device.disk, size);
        later.log := entries.value;
        var _ := later.Uninstall();
        return true, true, later.disk;
      }
    }
    return installed, false, device.disk;
  }
}
