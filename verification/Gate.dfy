/**
 The compare-exchange gate of src/main.rs under interleaving: any number of indexing calls and readers, each
 await of the append a step of its own. A step that is not enabled changes nothing, so every list of steps is a run.
 */
module Gate {
  import opened Wrappers
  import opened Bytes
  import opened Stream
  import opened Scanner
  import opened Packets
  import opened Cache
  import opened Index
  import opened Serving
  import opened Samples

  type Task = nat

  /** Where an indexing call is. */
  datatype Phase =
    | Outside
    | Checking
    | Looping
    | Passed(block: ShieldBlock)
    | Filed(block: ShieldBlock, offset: nat)
    | Buffered(block: ShieldBlock, offset: nat)
    | Indexed
    | Spoiled(block: ShieldBlock)
    | Giving

  datatype State = State(
    flag: bool, phases: map<Task, Phase>,
    file: seq<byte>, buffer: seq<byte>, entries: seq<IndexEntry>, saved: seq<IndexEntry>, cursor: nat,
    /** History: the blocks that went into the file, and were not cut off again, before any failure on it. */
    recorded: seq<ShieldBlock>,
    /** History: every failure on the file was cut off again, and the last save after a reorganisation succeeded. */
    clean: bool, savedFresh: bool)
  {
    function Phase(t: Task): Phase {
      if t in phases then phases[t] else Outside
    }

    function At(t: Task, p: Phase): State {
      this.(phases := phases[t := p])
    }
  }

  /** How the call that cuts the file ends: it may fail without effect, or after having shortened the file. */
  datatype FileCut = Done | Refused | Torn

  datatype Step =
    | Enter(t: Task)
    | NoReorg(t: Task)
    | Reorg(t: Task, fork: nat, cut: FileCut, save: bool)
    | ScanEmpty(t: Task)
    | Filter(t: Task, block: ShieldBlock)
    | AppendFile(t: Task)
    | AppendFileFails(t: Task, written: nat)
    | AppendBuffer(t: Task)
    | AddToIndex(t: Task, save: bool)
    | Advance(t: Task)
    | Leave(t: Task)

  const Start := State(false, map[], [], [], [], [], 0, [], true, true)

  function BlockBytes(b: ShieldBlock): seq<byte> {
    EncodeStream([b], PivxCompat)
  }

  /** The cut falls on or before the end of the recorded blocks. */
  predicate CutsOffFaults(recorded: seq<ShieldBlock>, offset: nat, p: nat) {
    p <= |recorded| && offset <= |EncodeStream(recorded, PivxCompat)|
  }

  /** The truncation of index, buffer and file, under their three locks at once. */
  function RolledBack(s: State, fork: nat, cut: FileCut, save: bool): (r: State)
    ensures r.phases == s.phases && r.flag == s.flag && (s.clean && cut.Done? ==> r.clean)
  {
    var p := PartitionPoint(s.entries, fork);
    var cursor := if fork > 0 then fork - 1 else 0;
    if p == |s.entries| then s.(cursor := cursor)
    else
      var offset, entries := s.entries[p].i, RetainBelow(s.entries, fork);
      var recorded := if p <= |s.recorded| then s.recorded[..p] else s.recorded;
      match cut
      case Refused => s
      case Torn => s.(file := SetLen(s.file, offset), clean := false, recorded := recorded)
      case Done =>
        s.(file := SetLen(s.file, offset),
           buffer := if offset <= |s.buffer| then s.buffer[..offset] else s.buffer,
           entries := entries, saved := if save then entries else s.saved, savedFresh := save,
           cursor := cursor,
           clean := s.clean || CutsOffFaults(s.recorded, offset, p),
           recorded := recorded)
  }

  function Next(s: State, step: Step): State {
    match step
    case Enter(t) =>
      if s.Phase(t) == Outside && !s.flag then s.At(t, Checking).(flag := true) else s
    case NoReorg(t) =>
      if s.Phase(t) == Checking then s.At(t, Looping) else s
    case Reorg(t, fork, cut, save) =>
      if s.Phase(t) == Checking && 1 <= fork <= s.cursor + 1 then RolledBack(s, fork, cut, save).At(t, Looping) else s
    case ScanEmpty(t) =>
      if s.Phase(t) == Looping then s.(cursor := s.cursor + 1) else s
    case Filter(t, block) =>
      if s.Phase(t) == Looping && block.height == s.cursor + 1 && Scanned(block) then
        s.At(t, if block.height in Heights(s.entries) then Indexed else Passed(block))
      else s
    case AppendFile(t) =>
      if s.Phase(t).Passed? then
        var b := s.Phase(t).block;
        s.At(t, Filed(b, |s.file|)).(file := s.file + BlockBytes(b),
                                     recorded := if s.clean then s.recorded + [b] else s.recorded)
      else s
    case AppendFileFails(t, written) =>
      if s.Phase(t).Passed? && written <= |BlockBytes(s.Phase(t).block)| then
        var b := s.Phase(t).block;
        s.At(t, Spoiled(b)).(file := s.file + BlockBytes(b)[..written], clean := false)
      else s
    case AppendBuffer(t) =>
      (match s.Phase(t)
       case Filed(b, offset) => s.At(t, Buffered(b, offset)).(buffer := s.buffer + BlockBytes(b))
       case Spoiled(b) => s.At(t, Giving).(buffer := s.buffer + BlockBytes(b))
       case _ => s)
    case AddToIndex(t, save) =>
      if s.Phase(t).Buffered? then
        var b, offset := s.Phase(t).block, s.Phase(t).offset;
        var entries := s.entries + if b.height in Heights(s.entries) then [] else [IndexEntry(b.height, offset)];
        s.At(t, Indexed).(entries := entries, saved := if save then entries else s.saved,
                          savedFresh := save || s.savedFresh)
      else s
    case Advance(t) =>
      if s.Phase(t) == Indexed then s.At(t, Looping).(cursor := s.cursor + 1) else s
    case Leave(t) =>
      if s.Phase(t) in {Checking, Looping, Giving} then s.At(t, Outside).(flag := false) else s
  }

  function Run(s: State, steps: seq<Step>): State
    decreases |steps|
  {
    if steps == [] then s else Run(Next(s, steps[0]), steps[1..])
  }

  // ---------------------------------------------------------------------------
  // Mutual exclusion
  // ---------------------------------------------------------------------------

  predicate Inside(s: State, t: Task) {
    s.Phase(t) != Outside
  }

  ghost predicate Exclusive(s: State) {
    && (forall t, u | Inside(s, t) && Inside(s, u) :: t == u)
    && (s.flag <==> exists t :: Inside(s, t))
  }

  ghost function Current(s: State): Phase
    requires Exclusive(s)
  {
    if s.flag then var t :| Inside(s, t); s.Phase(t) else Outside
  }

  /** At most one task changes its phase in a step, and it enters only through a free gate. */
  lemma StepIsLocal(s: State, step: Step)
    requires Exclusive(s)
    ensures var s' := Next(s, step);
            && Exclusive(s')
            && (s' == s || (
                  && (Inside(s, step.t) || (step.Enter? && !s.flag))
                  && Current(s') == s'.Phase(step.t) && Current(s) == s.Phase(step.t)))
  {
    var s' := Next(s, step);
    var t := step.t;
    if s' != s {
      assert Inside(s, t) || !s.flag;
      forall u | Inside(s', u) ensures u == t {
        assert u == t || Inside(s, u);
      }
      assert s'.flag <==> Inside(s', t);
    }
  }

  /** However the calls interleave, at most one is past the gate. */
  lemma {:induction false} GateExcludes(s: State, steps: seq<Step>, t: Task, u: Task)
    requires Exclusive(s)
    ensures Exclusive(Run(s, steps))
    ensures Inside(Run(s, steps), t) && Inside(Run(s, steps), u) ==> t == u
    decreases |steps|
  {
    if steps != [] {
      StepIsLocal(s, steps[0]);
      GateExcludes(Next(s, steps[0]), steps[1..], t, u);
    }
  }

  // ---------------------------------------------------------------------------
  // File, buffer and index along a run
  // ---------------------------------------------------------------------------

  /** How many recorded blocks the buffer and the index are behind. */
  function BufferLag(p: Phase): nat {
    if p.Filed? then 1 else 0
  }

  function IndexLag(p: Phase): nat {
    if p.Filed? || p.Buffered? then 1 else 0
  }

  /** File, buffer and index hold `bs`, `bs` without its last `bufferLag`, and without its last `indexLag` blocks. */
  ghost predicate Aligned(bs: seq<ShieldBlock>, file: seq<byte>, buffer: seq<byte>, entries: seq<IndexEntry>,
                          bufferLag: nat, indexLag: nat)
  {
    && bufferLag <= indexLag <= |bs|
    && file == EncodeStream(bs, PivxCompat)
    && buffer == EncodeStream(bs[..|bs| - bufferLag], PivxCompat)
    && entries == IndexOf(bs[..|bs| - indexLag])
  }

  ghost predicate HeightsUpTo(bs: seq<ShieldBlock>, h: nat) {
    IncreasingHeights(bs) && AllScanned(bs) && forall b <- bs :: b.height <= h
  }

  ghost predicate Fits(s: State, p: Phase) {
    && (s.savedFresh ==> s.saved <= s.entries)
    && if s.clean then FitsClean(s, p) else FitsTorn(s, p)
  }

  ghost predicate FitsClean(s: State, p: Phase) {
    && Aligned(s.recorded, s.file, s.buffer, s.entries, BufferLag(p), IndexLag(p))
    && HeightsUpTo(s.recorded, if p.Filed? || p.Buffered? || p.Indexed? then s.cursor + 1 else s.cursor)
    && (match p
        case Passed(b) => b.height == s.cursor + 1 && Scanned(b)
        case Filed(b, offset) => InFlight(s.recorded, s.cursor, b, offset)
        case Buffered(b, offset) => InFlight(s.recorded, s.cursor, b, offset)
        case Spoiled(_) => false
        case Giving => false
        case _ => true)
  }

  /** After a failed write: all three still begin with what was recorded before it, and the index is in order. */
  ghost predicate FitsTorn(s: State, p: Phase) {
    && HeightsUpTo(s.recorded, s.cursor)
    && Begins(s.recorded, s.file, s.buffer, s.entries)
    && OrderedUpTo(s.entries, if p.Indexed? then s.cursor + 1 else s.cursor)
    && (match p
        case Passed(b) => b.height == s.cursor + 1
        case Filed(b, offset) => b.height == s.cursor + 1 && offset >= |EncodeStream(s.recorded, PivxCompat)|
        case Buffered(b, offset) => b.height == s.cursor + 1 && offset >= |EncodeStream(s.recorded, PivxCompat)|
        case _ => true)
  }

  /** `bs` stands at the start of all three, and later offsets lie behind it. */
  ghost predicate Begins(bs: seq<ShieldBlock>, file: seq<byte>, buffer: seq<byte>, entries: seq<IndexEntry>) {
    && EncodeStream(bs, PivxCompat) <= file && EncodeStream(bs, PivxCompat) <= buffer
    && IndexOf(bs) <= entries
    && forall i | |bs| <= i < |entries| :: entries[i].i >= |EncodeStream(bs, PivxCompat)|
  }

  ghost predicate OrderedUpTo(entries: seq<IndexEntry>, h: nat) {
    Increasing(entries) && forall i | 0 <= i < |entries| :: entries[i].block <= h
  }

  /** The last of the recorded blocks is still on its way to the index. */
  ghost predicate InFlight(bs: seq<ShieldBlock>, cursor: nat, b: ShieldBlock, offset: nat) {
    var n := |bs|;
    && n > 0 && bs[n - 1] == b && b.height == cursor + 1
    && offset == |EncodeStream(bs[..n - 1], PivxCompat)|
    && HeightsUpTo(bs[..n - 1], cursor)
  }

  ghost predicate Inv(s: State) {
    Exclusive(s) && Fits(s, Current(s))
  }

  lemma HeightsExtend(bs: seq<ShieldBlock>, b: ShieldBlock, h: nat)
    requires HeightsUpTo(bs, h) && b.height == h + 1 && Scanned(b)
    ensures HeightsUpTo(bs + [b], h + 1)
  {
  }

  lemma NotIndexed(bs: seq<ShieldBlock>, h: nat)
    requires HeightsUpTo(bs, h)
    ensures h + 1 !in Heights(IndexOf(bs))
  {
    hide EncodeStream;
    var hs := Heights(IndexOf(bs));
    forall i | 0 <= i < |hs| ensures hs[i] <= h {
      assert bs[i] in bs;
    }
  }

  lemma FileStep(s: State, b: ShieldBlock)
    requires s.clean && Fits(s, Passed(b))
    ensures var s' := s.(file := s.file + BlockBytes(b), recorded := s.recorded + [b]);
            Fits(s', Filed(b, |s.file|))
  {
    hide EncodeStream, HeightsUpTo, Scanned, IndexOf;
    var bs, n := s.recorded, |s.recorded|;
    assert bs[..n] == bs && (bs + [b])[..n] == bs;
    EncodeStreamAppend(bs, [b], PivxCompat);
    HeightsExtend(bs, b, s.cursor);
  }

  lemma BufferStep(s: State, b: ShieldBlock, offset: nat)
    requires s.clean && Fits(s, Filed(b, offset))
    ensures Fits(s.(buffer := s.buffer + BlockBytes(b)), Buffered(b, offset))
  {
    hide EncodeStream, HeightsUpTo, Scanned, IndexOf;
    var bs, n := s.recorded, |s.recorded|;
    assert bs[..n] == bs && bs == bs[..n - 1] + [b];
    EncodeStreamAppend(bs[..n - 1], [b], PivxCompat);
  }

  lemma AlignedIndex(bs: seq<ShieldBlock>, file: seq<byte>, buffer: seq<byte>, entries: seq<IndexEntry>)
    requires bs != [] && Aligned(bs, file, buffer, entries, 0, 1)
    ensures var b, offset := bs[|bs| - 1], |EncodeStream(bs[..|bs| - 1], PivxCompat)|;
            Aligned(bs, file, buffer, entries + [IndexEntry(b.height, offset)], 0, 0)
  {
    hide EncodeStream, IndexOf;
    var n := |bs|;
    assert bs[..n] == bs && bs == bs[..n - 1] + [bs[n - 1]];
    IndexOfAppend(bs[..n - 1], bs[n - 1]);
  }

  lemma IndexStep(s: State, b: ShieldBlock, offset: nat, save: bool)
    requires s.clean && Fits(s, Buffered(b, offset))
    ensures b.height !in Heights(s.entries)
    ensures var entries := s.entries + [IndexEntry(b.height, offset)];
            Fits(s.(entries := entries, saved := if save then entries else s.saved,
                    savedFresh := save || s.savedFresh), Indexed)
  {
    hide EncodeStream, HeightsUpTo, Scanned, Aligned, Heights, IndexOf;
    AlignedIndex(s.recorded, s.file, s.buffer, s.entries);
    IndexedBlocks(s.recorded, s.file, s.buffer, s.entries, 1);
    NotIndexed(s.recorded[..|s.recorded| - 1], s.cursor);
  }

  lemma IndexedBlocks(bs: seq<ShieldBlock>, file: seq<byte>, buffer: seq<byte>, entries: seq<IndexEntry>, lag: nat)
    requires lag <= |bs| && Aligned(bs, file, buffer, entries, 0, lag)
    ensures entries == IndexOf(bs[..|bs| - lag])
  {
  }

  lemma AlignedBegins(bs: seq<ShieldBlock>, file: seq<byte>, buffer: seq<byte>, entries: seq<IndexEntry>, h: nat)
    requires Aligned(bs, file, buffer, entries, 0, 0) && HeightsUpTo(bs, h)
    ensures Begins(bs, file, buffer, entries) && OrderedUpTo(entries, h) && |entries| == |bs|
    ensures forall p | 0 <= p < |bs| :: CutsOffFaults(bs, entries[p].i, p)
  {
    hide EncodeStream;
    assert bs[..|bs|] == bs;
    IndexOfIncreasing(bs);
    forall p | 0 <= p < |bs| ensures CutsOffFaults(bs, entries[p].i, p) {
      EncodedPrefix(bs, p);
    }
    forall i | 0 <= i < |entries| ensures entries[i].block <= h {
      assert bs[i] in bs;
    }
  }

  lemma IndexBegins(bs: seq<ShieldBlock>, file: seq<byte>, buffer: seq<byte>, entries: seq<IndexEntry>)
    requires Begins(bs, file, buffer, entries)
    ensures IndexOf(bs) <= entries && |bs| <= |entries|
  {
  }

  /** Cutting all three at the first block from `fork` on, when the cut falls inside what was recorded. */
  lemma CutInside(bs: seq<ShieldBlock>, file: seq<byte>, buffer: seq<byte>, entries: seq<IndexEntry>, fork: nat, p: nat)
    requires Begins(bs, file, buffer, entries) && Increasing(entries)
    requires p == PartitionPoint(entries, fork) < |entries| && CutsOffFaults(bs, entries[p].i, p)
    ensures var offset := entries[p].i;
            && offset <= |buffer|
            && Aligned(bs[..p], SetLen(file, offset), buffer[..offset], RetainBelow(entries, fork), 0, 0)
  {
    hide EncodeStream;
    RetainBelowIsPrefix(entries, fork);
    IndexOfPrefix(bs, p);
    EncodedPrefix(bs, p);
    assert entries[..p] == IndexOf(bs)[..p];
    assert bs[..p][..p] == bs[..p];
    var s, offset := EncodeStream(bs, PivxCompat), entries[p].i;
    if p < |bs| {
      assert entries[p] == IndexOf(bs)[p];
    } else {
      assert bs[..p] == bs;
    }
    assert file[..offset] == s[..offset] && buffer[..offset] == s[..offset];
  }

  /** A cut behind what was recorded leaves that in place. */
  lemma CutBehind(bs: seq<ShieldBlock>, file: seq<byte>, buffer: seq<byte>, entries: seq<IndexEntry>, fork: nat, p: nat)
    requires Begins(bs, file, buffer, entries) && Increasing(entries)
    requires p == PartitionPoint(entries, fork) < |entries| && !CutsOffFaults(bs, entries[p].i, p)
    ensures |bs| <= p && RetainBelow(entries, fork) == entries[..p]
    ensures var offset := entries[p].i;
            Begins(bs, SetLen(file, offset), if offset <= |buffer| then buffer[..offset] else buffer, entries[..p])
  {
    hide EncodeStream;
    RetainBelowIsPrefix(entries, fork);
    if p < |bs| {
      assert entries[p] == IndexOf(bs)[p];
      EncodedPrefix(bs, p);
    }
  }

  lemma OrderIsIncreasing(entries: seq<IndexEntry>, h: nat)
    requires OrderedUpTo(entries, h)
    ensures Increasing(entries)
  {
  }

  lemma BelowFork(bs: seq<ShieldBlock>, entries: seq<IndexEntry>, fork: nat, h: nat)
    requires IndexOf(bs) <= entries && HeightsUpTo(bs, h) && fork >= 1
    ensures var p := PartitionPoint(entries, fork);
            HeightsUpTo(if p <= |bs| then bs[..p] else bs, fork - 1)
  {
    hide EncodeStream, AllScanned;
    var p := PartitionPoint(entries, fork);
    var n := if p <= |bs| then p else |bs|;
    forall k | 0 <= k < n ensures bs[k].height <= fork - 1 {
      assert entries[k] == IndexOf(bs)[k];
    }
    KeptHeights(bs, n, h, fork - 1);
    assert bs[..|bs|] == bs;
  }

  lemma KeptEntries(entries: seq<IndexEntry>, fork: nat, h: nat)
    requires OrderedUpTo(entries, h) && fork >= 1
    ensures OrderedUpTo(entries[..PartitionPoint(entries, fork)], fork - 1)
  {
  }

  /** A cut that fails after shortening the file leaves a shorter beginning in place. */
  lemma CutTorn(bs: seq<ShieldBlock>, file: seq<byte>, buffer: seq<byte>, entries: seq<IndexEntry>, p: nat)
    requires Begins(bs, file, buffer, entries) && p < |entries|
    ensures Begins(if p <= |bs| then bs[..p] else bs, SetLen(file, entries[p].i), buffer, entries)
  {
    hide EncodeStream;
    var n := if p <= |bs| then p else |bs|;
    assert bs[..|bs|] == bs;
    EncodedPrefix(bs, n);
    IndexOfPrefix(bs, n);
    forall i | n <= i < |entries| ensures entries[i].i >= |EncodeStream(bs[..n], PivxCompat)| {
      if i < |bs| {
        assert entries[i] == IndexOf(bs)[i];
        EncodedPrefix(bs[..i], n);
        assert bs[..i][..n] == bs[..n];
      }
    }
  }

  lemma PrefixUpTo(bs: seq<ShieldBlock>, p: nat, h: nat)
    requires HeightsUpTo(bs, h)
    ensures HeightsUpTo(if p <= |bs| then bs[..p] else bs, h)
  {
    var n := if p <= |bs| then p else |bs|;
    assert bs[..|bs|] == bs;
    KeptHeights(bs, n, h, h);
  }

  lemma RollbackStep(s: State, fork: nat, cut: FileCut, save: bool)
    requires Fits(s, Checking) && 1 <= fork <= s.cursor + 1
    ensures Fits(RolledBack(s, fork, cut, save), Looping)
  {
    hide EncodeStream, HeightsUpTo, IndexOf, RetainBelow, SetLen, Aligned, Begins, OrderedUpTo;
    var bs, p := s.recorded, PartitionPoint(s.entries, fork);
    assert bs[..|bs|] == bs;
    if s.clean {
      AlignedBegins(bs, s.file, s.buffer, s.entries, s.cursor);
    }
    IndexBegins(bs, s.file, s.buffer, s.entries);
    BelowFork(bs, s.entries, fork, s.cursor);
    KeptEntries(s.entries, fork, s.cursor);
    OrderIsIncreasing(s.entries, s.cursor);
    if p == |s.entries| {
      assert s.entries[..p] == s.entries;
    } else if cut.Torn? {
      CutTorn(bs, s.file, s.buffer, s.entries, p);
      PrefixUpTo(bs, p, s.cursor);
    } else if CutsOffFaults(bs, s.entries[p].i, p) {
      CutInside(bs, s.file, s.buffer, s.entries, fork, p);
    } else {
      CutBehind(bs, s.file, s.buffer, s.entries, fork, p);
    }
  }

  lemma KeptHeights(bs: seq<ShieldBlock>, p: nat, h: nat, g: nat)
    requires HeightsUpTo(bs, h) && p <= |bs| && forall k | 0 <= k < p :: bs[k].height <= g
    ensures HeightsUpTo(bs[..p], g)
  {
    forall b <- bs[..p] ensures b.height <= g && b in bs {
      var k :| 0 <= k < p && bs[k] == b;
    }
  }

  lemma HeightsRelax(bs: seq<ShieldBlock>, h: nat, g: nat)
    requires HeightsUpTo(bs, h) && h <= g
    ensures HeightsUpTo(bs, g)
  {
  }

  lemma StepFitsClean(s: State, step: Step)
    requires s.clean && Fits(s, s.Phase(step.t)) && !step.Reorg? && !step.AppendFileFails?
    ensures Fits(Next(s, step), Next(s, step).Phase(step.t))
  {
    hide Aligned, HeightsUpTo, InFlight, RolledBack, Scanned, BlockBytes, Heights, FitsTorn;
    var p := s.Phase(step.t);
    if Next(s, step) != s {
      match step
      case ScanEmpty(t) => HeightsRelax(s.recorded, s.cursor, s.cursor + 1);
      case Filter(t, b) => HeightsRelax(s.recorded, s.cursor, s.cursor + 1);
      case AppendFile(t) => FileStep(s, p.block);
      case AppendBuffer(t) => BufferStep(s, p.block, p.offset);
      case AddToIndex(t, save) => IndexStep(s, p.block, p.offset, save);
      case _ =>
    }
  }

  lemma BeginsLonger(bs: seq<ShieldBlock>, file: seq<byte>, buffer: seq<byte>, entries: seq<IndexEntry>,
                     more: seq<byte>)
    requires Begins(bs, file, buffer, entries)
    ensures Begins(bs, file + more, buffer, entries) && Begins(bs, file, buffer + more, entries)
    ensures |file| >= |EncodeStream(bs, PivxCompat)|
  {
    hide EncodeStream, IndexOf;
  }

  lemma BeginsIndexed(bs: seq<ShieldBlock>, file: seq<byte>, buffer: seq<byte>, entries: seq<IndexEntry>,
                      e: IndexEntry, h: nat)
    requires Begins(bs, file, buffer, entries) && e.i >= |EncodeStream(bs, PivxCompat)|
    requires OrderedUpTo(entries, h) && e.block == h + 1
    ensures Begins(bs, file, buffer, entries + [e]) && OrderedUpTo(entries + [e], h + 1)
  {
    hide EncodeStream, IndexOf;
  }

  lemma OrderRelax(entries: seq<IndexEntry>, h: nat, g: nat)
    requires OrderedUpTo(entries, h) && h <= g
    ensures OrderedUpTo(entries, g)
  {
  }

  lemma StepFitsTorn(s: State, step: Step)
    requires !s.clean && Fits(s, s.Phase(step.t)) && !step.Reorg?
    ensures Fits(Next(s, step), Next(s, step).Phase(step.t))
  {
    hide Begins, OrderedUpTo, HeightsUpTo, RolledBack, Scanned, BlockBytes, Heights, FitsClean, EncodeStream;
    HeightsRelax(s.recorded, s.cursor, s.cursor + 1);
    var p := s.Phase(step.t);
    if !p.Indexed? {
      OrderRelax(s.entries, s.cursor, s.cursor + 1);
    }
    match step {
      case AppendFile(t) =>
        if p.Passed? { BeginsLonger(s.recorded, s.file, s.buffer, s.entries, BlockBytes(p.block)); }
      case AppendFileFails(t, n) =>
        if p.Passed? && n <= |BlockBytes(p.block)| {
          BeginsLonger(s.recorded, s.file, s.buffer, s.entries, BlockBytes(p.block)[..n]);
        }
      case AppendBuffer(t) =>
        if p.Filed? || p.Spoiled? { BeginsLonger(s.recorded, s.file, s.buffer, s.entries, BlockBytes(p.block)); }
      case AddToIndex(t, save) =>
        if p.Buffered? {
          assert s.entries + [] == s.entries;
          BeginsIndexed(s.recorded, s.file, s.buffer, s.entries, IndexEntry(p.block.height, p.offset), s.cursor);
        }
      case _ =>
    }
  }

  /** A failed write leaves everything recorded before it at the start of all three. */
  lemma SpoilStep(s: State, t: Task, n: nat)
    requires s.clean && Fits(s, s.Phase(t))
    ensures Fits(Next(s, AppendFileFails(t, n)), Next(s, AppendFileFails(t, n)).Phase(t))
  {
    hide Begins, OrderedUpTo, HeightsUpTo, Scanned, BlockBytes, EncodeStream, Aligned;
    var p := s.Phase(t);
    if p.Passed? && n <= |BlockBytes(p.block)| {
      AlignedBegins(s.recorded, s.file, s.buffer, s.entries, s.cursor);
      BeginsLonger(s.recorded, s.file, s.buffer, s.entries, BlockBytes(p.block)[..n]);
    }
  }

  lemma StepFits(s: State, step: Step)
    requires Fits(s, s.Phase(step.t))
    ensures Fits(Next(s, step), Next(s, step).Phase(step.t))
  {
    hide Fits;
    match step {
      case Reorg(t, fork, cut, save) =>
        if s.Phase(t) == Checking && 1 <= fork <= s.cursor + 1 {
          RollbackStep(s, fork, cut, save);
          FitsIgnoresPhases(RolledBack(s, fork, cut, save), t, Looping, Looping);
        }
      case AppendFileFails(t, n) => if s.clean { SpoilStep(s, t, n); } else { StepFitsTorn(s, step); }
      case _ => if s.clean { StepFitsClean(s, step); } else { StepFitsTorn(s, step); }
    }
  }

  lemma FitsIgnoresPhases(s: State, t: Task, p: Phase, q: Phase)
    ensures Fits(s.At(t, p), q) <==> Fits(s, q)
  {
    hide Aligned, HeightsUpTo, InFlight, Begins, OrderedUpTo;
  }

  /** Every single step keeps the invariant, whoever takes it. */
  lemma NextKeepsInv(s: State, step: Step)
    requires Inv(s)
    ensures Inv(Next(s, step))
  {
    hide Fits, Next, Exclusive;
    StepIsLocal(s, step);
    if Next(s, step) != s {
      StepFits(s, step);
    }
  }

  lemma {:induction false} RunKeepsInv(s: State, steps: seq<Step>)
    requires Inv(s)
    ensures Inv(Run(s, steps))
    decreases |steps|
  {
    hide Inv, Next;
    if steps != [] {
      NextKeepsInv(s, steps[0]);
      RunKeepsInv(Next(s, steps[0]), steps[1..]);
    }
  }

  lemma StartSatisfiesInv()
    ensures Inv(Start)
  {
    assert forall t :: !Inside(Start, t);
  }

  ghost function InBuffer(s: State): seq<ShieldBlock>
    requires Inv(s) && s.clean
  {
    s.recorded[..|s.recorded| - BufferLag(Current(s))]
  }

  ghost function InIndex(s: State): seq<ShieldBlock>
    requires Inv(s) && s.clean
  {
    s.recorded[..|s.recorded| - IndexLag(Current(s))]
  }

  lemma WhatInvHolds(s: State)
    requires Inv(s) && s.clean
    ensures s.file == EncodeStream(s.recorded, PivxCompat) && s.buffer == EncodeStream(InBuffer(s), PivxCompat)
    ensures s.entries == IndexOf(InIndex(s))
    ensures InIndex(s) <= InBuffer(s) <= s.recorded && |s.recorded| <= |InIndex(s)| + 1
    ensures IncreasingHeights(s.recorded) && AllScanned(s.recorded)
    ensures !s.flag ==> InIndex(s) == InBuffer(s) == s.recorded
    ensures s.savedFresh ==> s.saved <= s.entries
  {
    hide EncodeStream, IndexOf, Exclusive, Scanned, InFlight;
  }

  lemma WhatInvHoldsTorn(s: State)
    requires Inv(s) && !s.clean
    ensures Begins(s.recorded, s.file, s.buffer, s.entries) && Increasing(s.entries) && IncreasingHeights(s.recorded)
    ensures s.savedFresh ==> s.saved <= s.entries
  {
    hide EncodeStream, IndexOf, Exclusive, Scanned, Begins;
  }

  /**
   Along every run, whatever fails. While every failed write has been cut off again, the index is a prefix of the
   buffer and the buffer of the file, at most one block behind; with the flag clear all three agree; and no height is
   in the file twice. Otherwise all three still begin with the blocks recorded before the failure.
   */
  lemma IndexBufferFileArePrefixes(start: State, steps: seq<Step>)
    requires Inv(start)
    ensures Inv(Run(start, steps))
    ensures var s := Run(start, steps);
            && IncreasingHeights(s.recorded)
            && if s.clean then
                 && s.file == EncodeStream(s.recorded, PivxCompat)
                 && s.buffer == EncodeStream(InBuffer(s), PivxCompat)
                 && s.entries == IndexOf(InIndex(s))
                 && InIndex(s) <= InBuffer(s) <= s.recorded && |s.recorded| <= |InIndex(s)| + 1
                 && (!s.flag ==> InIndex(s) == InBuffer(s) == s.recorded)
               else
                 Begins(s.recorded, s.file, s.buffer, s.entries) && Increasing(s.entries)
  {
    hide *;
    RunKeepsInv(start, steps);
    if Run(start, steps).clean {
      WhatInvHolds(Run(start, steps));
    } else {
      WhatInvHoldsTorn(Run(start, steps));
    }
  }

  lemma CutsWhereRecorded(bs: seq<ShieldBlock>, file: seq<byte>, buffer: seq<byte>, entries: seq<IndexEntry>,
                          fork: nat, k: nat)
    requires Begins(bs, file, buffer, entries) && k < |bs| && fork <= bs[k].height
    ensures var p := PartitionPoint(entries, fork);
            p <= k < |entries| && CutsOffFaults(bs, entries[p].i, p)
  {
    hide EncodeStream;
    assert entries[k] == IndexOf(bs)[k];
    var p := PartitionPoint(entries, fork);
    assert entries[p] == IndexOf(bs)[p];
    EncodedPrefix(bs, p);
  }

  /** A cut that falls on a block recorded before the failure puts all three back in step. */
  lemma ReorgRepairs(s: State, t: Task, fork: nat, save: bool)
    requires Inv(s) && s.Phase(t) == Checking && 1 <= fork <= s.cursor + 1
    requires exists b <- s.recorded :: fork <= b.height
    ensures Next(s, Reorg(t, fork, Done, save)).clean
  {
    hide Inv, CutsOffFaults, PartitionPoint, RetainBelow, SetLen, Begins;
    if !s.clean {
      var b :| b in s.recorded && fork <= b.height;
      var k :| 0 <= k < |s.recorded| && s.recorded[k] == b;
      WhatInvHoldsTorn(s);
      CutsWhereRecorded(s.recorded, s.file, s.buffer, s.entries, fork, k);
    }
  }

  /**
   Without such a cut nothing repairs: the block is appended again behind what the failure left. From the empty
   bridge, a write of `w` bytes that fails and the retry leave the block twice in the buffer, and, when the failure
   came after all its bytes, twice in the file.
   */
  lemma RetryStoresTwice(b: ShieldBlock, w: nat)
    requires b.height == 1 && Scanned(b) && w <= |BlockBytes(b)|
    ensures var s := Run(Start, FailedCall(b, w) + SecondCall(b));
            && !s.clean && s.entries == [IndexEntry(1, w)]
            && s.buffer == EncodeStream([b, b], PivxCompat)
            && s.file == BlockBytes(b)[..w] + BlockBytes(b)
            && (w == |BlockBytes(b)| ==> s.file == EncodeStream([b, b], PivxCompat))
  {
    hide *;
    var s := AfterFailedCall(b, w, SecondCall(b));
    AfterSecondCall(s, b);
    TwiceEncoded(b);
    assert BlockBytes(b)[..|BlockBytes(b)|] == BlockBytes(b);
  }

  function FailedCall(b: ShieldBlock, w: nat): seq<Step> {
    [Enter(0), NoReorg(0), Filter(0, b), AppendFileFails(0, w), AppendBuffer(0), Leave(0)]
  }

  function SecondCall(b: ShieldBlock): seq<Step> {
    [Enter(0), NoReorg(0), Filter(0, b), AppendFile(0), AppendBuffer(0), AddToIndex(0, true)]
  }

  lemma AfterFailedCall(b: ShieldBlock, w: nat, rest: seq<Step>) returns (s: State)
    requires b.height == 1 && Scanned(b) && w <= |BlockBytes(b)|
    ensures Run(Start, FailedCall(b, w) + rest) == Run(s, rest)
    ensures s.Phase(0) == Outside && !s.flag && !s.clean && s.cursor == 0 && s.entries == []
    ensures s.file == BlockBytes(b)[..w] && s.buffer == BlockBytes(b)
  {
    hide Scanned, Run, BlockBytes, RolledBack;
    var c := FailedCall(b, w);
    RunSix(Start, c[0], c[1], c[2], c[3], c[4], c[5], rest);
    ReachesPassed(Start, b);
    var s3 := Next(Next(Next(Start, c[0]), c[1]), c[2]);
    s := Next(Next(Next(s3, c[3]), c[4]), c[5]);
    assert [] + BlockBytes(b)[..w] == BlockBytes(b)[..w] && [] + BlockBytes(b) == BlockBytes(b);
  }

  lemma ReachesPassed(s: State, b: ShieldBlock)
    requires s.Phase(0) == Outside && !s.flag && s.cursor == 0 && s.entries == []
    requires b.height == 1 && Scanned(b)
    ensures var t := Next(Next(Next(s, Enter(0)), NoReorg(0)), Filter(0, b));
            && t.Phase(0) == Passed(b) && t.clean == s.clean
            && t.file == s.file && t.buffer == s.buffer && t.entries == [] && t.cursor == 0
  {
    hide Scanned, RolledBack;
  }

  lemma PassedIsStored(s: State, b: ShieldBlock)
    requires s.Phase(0) == Passed(b) && b.height == 1 && !s.clean && s.entries == []
    ensures var t := Next(Next(Next(s, AppendFile(0)), AppendBuffer(0)), AddToIndex(0, true));
            && !t.clean && t.entries == [IndexEntry(1, |s.file|)]
            && t.file == s.file + BlockBytes(b) && t.buffer == s.buffer + BlockBytes(b)
  {
    hide BlockBytes, RolledBack;
    assert [] + [IndexEntry(1, |s.file|)] == [IndexEntry(1, |s.file|)];
  }

  lemma AfterSecondCall(s: State, b: ShieldBlock)
    requires s.Phase(0) == Outside && !s.flag && !s.clean && s.cursor == 0 && s.entries == []
    requires b.height == 1 && Scanned(b)
    ensures var end := Run(s, SecondCall(b));
            && !end.clean && end.entries == [IndexEntry(1, |s.file|)]
            && end.buffer == s.buffer + BlockBytes(b) && end.file == s.file + BlockBytes(b)
  {
    hide Scanned, BlockBytes, Next;
    var c := SecondCall(b);
    assert c + [] == c;
    RunSix(s, c[0], c[1], c[2], c[3], c[4], c[5], []);
    ReachesPassed(s, b);
    PassedIsStored(Next(Next(Next(s, c[0]), c[1]), c[2]), b);
  }

  function Copies(b: ShieldBlock, n: nat): (bs: seq<ShieldBlock>)
    ensures |bs| == n
  {
    seq(n, _ => b)
  }

  lemma LengthOfCopies(b: ShieldBlock, n: nat)
    ensures |BlockBytes(b)| >= 13
    ensures n == 0 ==> |EncodeStream(Copies(b, n), PivxCompat)| == 0
    ensures n == 1 ==> |EncodeStream(Copies(b, n), PivxCompat)| == |BlockBytes(b)|
    ensures n >= 2 ==> |EncodeStream(Copies(b, n), PivxCompat)| >= 2 * |BlockBytes(b)|
  {
    hide EncodeStream;
    NonEmptyStream([b]);
    EncodingOfNone(PivxCompat);
    if n == 1 {
      assert Copies(b, 1) == [b];
    } else if n >= 2 {
      var rest := Copies(b, n)[2..];
      assert Copies(b, n) == [b] + ([b] + rest);
      EncodeStreamAppend([b], [b] + rest, PivxCompat);
      EncodeStreamAppend([b], rest, PivxCompat);
    } else {
      assert Copies(b, 0) == [];
    }
  }

  /**
   What a client then gets: the offset `w` comes from the file and is applied to the buffer. The reply is made of
   whole copies of the block exactly when nothing or all of it had been written.
   */
  lemma RetryReply(b: ShieldBlock, w: nat) returns (reply: seq<byte>)
    requires b.height == 1 && Scanned(b) && w <= |BlockBytes(b)|
    ensures var s := Run(Start, FailedCall(b, w) + SecondCall(b));
            reply == Reply(OffsetForHeight(s.entries, 1), s.buffer, PivxCompat)
    ensures reply == EncodeStream([b, b], PivxCompat)[w..]
    ensures (exists n :: reply == EncodeStream(Copies(b, n), PivxCompat)) <==> w == 0 || w == |BlockBytes(b)|
  {
    hide EncodeStream, Run, Scanned;
    RetryStoresTwice(b, w);
    TwiceEncoded(b);
    LengthOfCopies(b, 1);
    reply := EncodeStream([b, b], PivxCompat)[w..];
    if w == 0 {
      assert Copies(b, 2) == [b, b];
      assert reply == EncodeStream(Copies(b, 2), PivxCompat);
    } else if w == |BlockBytes(b)| {
      assert Copies(b, 1) == [b];
      assert (BlockBytes(b) + BlockBytes(b))[w..] == BlockBytes(b) == EncodeStream([b], PivxCompat);
      assert reply == EncodeStream(Copies(b, 1), PivxCompat);
    } else {
      forall n: nat ensures reply != EncodeStream(Copies(b, n), PivxCompat) {
        LengthOfCopies(b, n);
      }
    }
  }

  /** When the write had stopped between two transactions, the client reads a block that lacks the first ones. */
  lemma RetryLosesTransactions(b: ShieldBlock, k: nat) returns (w: nat, reply: seq<byte>)
    requires b.height == 1 && Scanned(b) && k <= |b.txs|
    ensures w == |RawPackets(b.txs[..k])| < |BlockBytes(b)|
    ensures var s := Run(Start, FailedCall(b, w) + SecondCall(b));
            reply == Reply(OffsetForHeight(s.entries, 1), s.buffer, PivxCompat)
    ensures reply == EncodeStream([b.(txs := b.txs[k..]), b], PivxCompat)
  {
    hide EncodeStream, Run, Scanned, RawPackets, FooterPayload, Frame;
    w := |RawPackets(b.txs[..k])|;
    var rest := b.(txs := b.txs[k..]);
    RawPacketsAppend(b.txs[..k], b.txs[k..]);
    assert b.txs[..k] + b.txs[k..] == b.txs;
    EncodeStreamOne(b, PivxCompat);
    EncodeStreamOne(rest, PivxCompat);
    reply := RetryReply(b, w);
    TwiceEncoded(b);
    assert [rest, b] == [rest] + [b];
    EncodeStreamAppend([rest], [b], PivxCompat);
    assert BlockBytes(b)[w..] == EncodeBlock(rest, PivxCompat);
  }

  lemma {:induction false} RawPacketsAppend(a: seq<ShieldTx>, b: seq<ShieldTx>)
    ensures RawPackets(a + b) == RawPackets(a) + RawPackets(b)
  {
    hide Frame;
    if a == [] {
      assert a + b == b;
    } else {
      RawPacketsAppend(a[1..], b);
      assert (a + b)[1..] == a[1..] + b;
    }
  }

  lemma TwiceEncoded(b: ShieldBlock)
    ensures EncodeStream([b, b], PivxCompat) == BlockBytes(b) + BlockBytes(b)
  {
    hide EncodeStream;
    assert [b, b] == [b] + [b];
    EncodeStreamAppend([b], [b], PivxCompat);
  }

  lemma RunSix(s: State, a: Step, b: Step, c: Step, d: Step, e: Step, f: Step, rest: seq<Step>)
    ensures Run(s, [a, b, c, d, e, f] + rest) == Run(Next(Next(Next(Next(Next(Next(s, a), b), c), d), e), f), rest)
  {
    hide Next;
    assert [a, b, c, d, e, f] + rest == [a] + ([b] + ([c] + ([d] + ([e] + ([f] + rest)))));
    RunSteps(s, a, [b] + ([c] + ([d] + ([e] + ([f] + rest)))));
    var s1 := Next(s, a);
    RunSteps(s1, b, [c] + ([d] + ([e] + ([f] + rest))));
    var s2 := Next(s1, b);
    RunSteps(s2, c, [d] + ([e] + ([f] + rest)));
    var s3 := Next(s2, c);
    RunSteps(s3, d, [e] + ([f] + rest));
    var s4 := Next(s3, d);
    RunSteps(s4, e, [f] + rest);
    RunSteps(Next(s4, e), f, rest);
  }

  // ---------------------------------------------------------------------------
  // The cursor
  // ---------------------------------------------------------------------------

  /** Holds whatever fails: the block in hand is the one above the cursor, and once indexed it is in the index. */
  ghost predicate InHand(s: State, p: Phase) {
    match p
    case Passed(b) => b.height == s.cursor + 1
    case Filed(b, _) => b.height == s.cursor + 1
    case Buffered(b, _) => b.height == s.cursor + 1
    case Indexed => s.cursor + 1 in Heights(s.entries)
    case _ => true
  }

  ghost predicate CursorInv(s: State) {
    Exclusive(s) && InHand(s, Current(s))
  }

  lemma HeightsAppend(entries: seq<IndexEntry>, e: IndexEntry)
    ensures e.block in Heights(entries + [e])
  {
    assert Heights(entries + [e])[|entries|] == e.block;
  }

  /**
   Apart from reorganisations the cursor moves only forward and by one, and past a shield block only when that
   block's height is in the index.
   */
  lemma CursorNeverSkips(s: State, step: Step)
    requires CursorInv(s)
    ensures CursorInv(Next(s, step))
    ensures var s' := Next(s, step);
            || step.Reorg?
            || s'.cursor == s.cursor
            || (s'.cursor == s.cursor + 1 && (step.ScanEmpty? || (step.Advance? && s'.cursor in Heights(s'.entries))))
  {
    hide Exclusive, RolledBack, Scanned, BlockBytes, Heights;
    StepIsLocal(s, step);
    var p := s.Phase(step.t);
    if p.Buffered? {
      HeightsAppend(s.entries, IndexEntry(p.block.height, p.offset));
      assert s.entries + [] == s.entries;
    }
  }

  lemma StartSatisfiesCursorInv()
    ensures CursorInv(Start)
  {
    StartSatisfiesInv();
  }

  /** The heights whose latest scan found a shield block. */
  function Found(s: State, steps: seq<Step>, found: set<nat>): set<nat>
    decreases |steps|
  {
    if steps == [] then found
    else Found(Next(s, steps[0]), steps[1..], FoundBy(s, steps[0], found))
  }

  function FoundBy(s: State, step: Step, found: set<nat>): set<nat> {
    if Next(s, step) == s then found
    else
      match step
      case Filter(_, block) => found + {block.height}
      case ScanEmpty(_) => found - {s.cursor + 1}
      case _ => found
  }

  /** Up to the cursor, what was found is in the index. */
  ghost predicate NoneSkipped(s: State, found: set<nat>) {
    forall h <- found :: h <= s.cursor ==> h in Heights(s.entries)
  }

  lemma {:induction false} RetainedHeights(entries: seq<IndexEntry>, fork: nat, k: nat)
    requires k < |entries| && entries[k].block < fork
    ensures exists i :: 0 <= i < |RetainBelow(entries, fork)| && RetainBelow(entries, fork)[i] == entries[k]
    decreases |entries|
  {
    var rest := RetainBelow(entries[1..], fork);
    var r := RetainBelow(entries, fork);
    if k == 0 {
      assert r[0] == entries[0];
    } else {
      RetainedHeights(entries[1..], fork, k - 1);
      var i :| 0 <= i < |rest| && rest[i] == entries[k];
      assert r[|r| - |rest| + i] == entries[k];
    }
  }

  lemma RetainedHeight(entries: seq<IndexEntry>, fork: nat, h: nat)
    requires h in Heights(entries) && h < fork
    ensures h in Heights(RetainBelow(entries, fork))
  {
    hide RetainBelow;
    var k :| 0 <= k < |entries| && Heights(entries)[k] == h;
    RetainedHeights(entries, fork, k);
    var i :| 0 <= i < |RetainBelow(entries, fork)| && RetainBelow(entries, fork)[i] == entries[k];
    assert Heights(RetainBelow(entries, fork))[i] == h;
  }

  lemma HeightsGrow(entries: seq<IndexEntry>, more: seq<IndexEntry>, h: nat)
    requires h in Heights(entries)
    ensures h in Heights(entries + more)
  {
    var k :| 0 <= k < |entries| && Heights(entries)[k] == h;
    assert Heights(entries + more)[k] == h;
  }

  lemma StepSkipsNone(s: State, step: Step, found: set<nat>)
    requires CursorInv(s) && NoneSkipped(s, found)
    ensures NoneSkipped(Next(s, step), FoundBy(s, step, found))
  {
    hide Exclusive, Scanned, BlockBytes, Heights, CutsOffFaults;
    StepIsLocal(s, step);
    var s' := Next(s, step);
    forall h <- FoundBy(s, step, found) | h <= s'.cursor ensures h in Heights(s'.entries) {
      if h <= s.cursor && h in found && s'.entries != s.entries {
        if step.Reorg? {
          RetainedHeight(s.entries, step.fork, h);
        } else {
          HeightsGrow(s.entries, s'.entries[|s.entries|..], h);
          assert s'.entries == s.entries + s'.entries[|s.entries|..];
        }
      }
    }
  }

  /**
   Over every run, whatever fails and whatever is reorganised: each height up to the cursor whose latest scan found a
   shield block is in the index.
   */
  lemma {:induction false} RunSkipsNone(s: State, steps: seq<Step>, found: set<nat>)
    requires CursorInv(s) && NoneSkipped(s, found)
    ensures CursorInv(Run(s, steps)) && NoneSkipped(Run(s, steps), Found(s, steps, found))
    decreases |steps|
  {
    hide CursorInv, NoneSkipped, Next, FoundBy;
    if steps != [] {
      CursorNeverSkips(s, steps[0]);
      StepSkipsNone(s, steps[0], found);
      RunSkipsNone(Next(s, steps[0]), steps[1..], FoundBy(s, steps[0], found));
    }
  }

  // ---------------------------------------------------------------------------
  // Readers between two reads
  // ---------------------------------------------------------------------------

  /** The block in hand came out of the scanner. */
  ghost predicate HandScanned(p: Phase) {
    p.Passed? || p.Filed? || p.Buffered? || p.Spoiled? ==> Scanned(p.block)
  }

  ghost predicate HandInv(s: State) {
    Exclusive(s) && HandScanned(Current(s))
  }

  lemma InvHasHand(s: State)
    requires Inv(s) && s.clean
    ensures HandInv(s)
  {
    hide Scanned, Exclusive, EncodeStream, IndexOf;
    var p := Current(s);
    if p.Filed? || p.Buffered? {
      assert p.block in s.recorded;
    }
  }

  /** Apart from reorganisations a step appends whole blocks to the buffer, if anything, whatever fails. */
  lemma AppendsOnly(s: State, step: Step) returns (more: seq<ShieldBlock>)
    requires HandInv(s) && !step.Reorg?
    ensures HandInv(Next(s, step)) && AllScanned(more)
    ensures Next(s, step).buffer == s.buffer + EncodeStream(more, PivxCompat)
  {
    hide Exclusive, Scanned, RolledBack, EncodeStream;
    StepIsLocal(s, step);
    EncodingOfNone(PivxCompat);
    var p := s.Phase(step.t);
    more := if step.AppendBuffer? && (p.Filed? || p.Spoiled?) then [p.block] else [];
    assert s.buffer + [] == s.buffer;
  }

  lemma {:induction false} AppendsOnlyRun(s: State, steps: seq<Step>) returns (more: seq<ShieldBlock>)
    requires HandInv(s) && forall step <- steps :: !step.Reorg?
    ensures HandInv(Run(s, steps)) && AllScanned(more)
    ensures Run(s, steps).buffer == s.buffer + EncodeStream(more, PivxCompat)
    decreases |steps|
  {
    hide HandInv, Next, EncodeStream, Scanned;
    if steps == [] {
      more := [];
      EncodingOfNone(PivxCompat);
      assert s.buffer + [] == s.buffer;
    } else {
      var first := AppendsOnly(s, steps[0]);
      var rest := AppendsOnlyRun(Next(s, steps[0]), steps[1..]);
      more := first + rest;
      EncodeStreamAppend(first, rest, PivxCompat);
      assert s.buffer + EncodeStream(first, PivxCompat) + EncodeStream(rest, PivxCompat)
          == s.buffer + (EncodeStream(first, PivxCompat) + EncodeStream(rest, PivxCompat));
    }
  }

  lemma SplitIsOrdered(bs: seq<ShieldBlock>, front: seq<ShieldBlock>, back: seq<ShieldBlock>)
    requires IncreasingHeights(bs) && AllScanned(bs) && front + back <= bs
    ensures IncreasingHeights(front) && AllScanned(front) && AllScanned(back)
  {
    hide Scanned;
    forall i | 0 <= i < |front| ensures front[i] == bs[i] && front[i] in bs {
      assert (front + back)[i] == bs[i];
    }
    forall i | 0 <= i < |back| ensures back[i] in bs {
      assert (front + back)[|front| + i] == bs[|front| + i];
    }
  }

  /** What the buffer holds beyond the index. */
  lemma BufferedBeyondIndex(s: State) returns (ahead: seq<ShieldBlock>)
    requires Inv(s) && s.clean
    ensures s.entries == IndexOf(InIndex(s)) && s.buffer == EncodeStream(InIndex(s) + ahead, PivxCompat)
    ensures IncreasingHeights(InIndex(s)) && AllScanned(InIndex(s)) && AllScanned(ahead)
    ensures InIndex(s) + ahead == InBuffer(s) && |ahead| <= 1
  {
    hide *;
    WhatInvHolds(s);
    ahead := InBuffer(s)[|InIndex(s)|..];
    assert InBuffer(s) == InIndex(s) + ahead;
    SplitIsOrdered(s.recorded, InIndex(s), ahead);
  }

  /**
   `getshielddata` lets go of the index before it takes the buffer. If no reorganisation falls in between, whatever
   else does, its reply is the stream of the indexed blocks from `start` on, followed by whole blocks appended
   meanwhile.
   */
  lemma ReaderIsSoundUnderAppends(s: State, steps: seq<Step>, start: nat, format: StreamFormat)
    returns (newer: seq<ShieldBlock>)
    requires Inv(s) && s.clean && forall step <- steps :: !step.Reorg?
    ensures AllScanned(newer) && Run(s, steps).buffer == EncodeStream(InIndex(s) + newer, PivxCompat)
    ensures Reply(OffsetForHeight(s.entries, start), Run(s, steps).buffer, format)
         == var served := BlocksFrom(InIndex(s), start);
            if served == [] then [] else EncodeStream(served + newer, format)
  {
    hide EncodeStream, IndexOf, OffsetForHeight, Reply, Run, Inv, InIndex, InBuffer, HandInv, Scanned, BlocksFrom;
    InvHasHand(s);
    var ahead := BufferedBeyondIndex(s);
    var more := AppendsOnlyRun(s, steps);
    newer := ahead + more;
    EncodeStreamAppend(InIndex(s) + ahead, more, PivxCompat);
    assert InIndex(s) + ahead + more == InIndex(s) + newer;
    StaleOffsetServesWholeBlocks(InIndex(s), newer, start, format);
  }

  /**
   `getshielddatalength` between two steps: exact for the indexed blocks exactly when the index is not behind the
   buffer, or nothing is indexed from `start` on, or something is indexed above `end`.
   */
  lemma LengthUnderInterleaving(s: State, start: nat, end: nat, format: StreamFormat)
    requires Inv(s) && s.clean
    ensures ReplyLength(s.entries, s.buffer, start, end, format)
              == Some(|EncodeStream(BlocksIn(InIndex(s), start, end + 1), format)|)
       <==> InIndex(s) == InBuffer(s) || BlocksFrom(InIndex(s), start) == [] || BlocksFrom(InIndex(s), end + 1) != []
  {
    hide *;
    var ahead := BufferedBeyondIndex(s);
    LengthIsExactExactlyWhen(InIndex(s), ahead, start, end, format);
    assert InIndex(s) + ahead == InIndex(s) <==> ahead == [];
  }

  /** No call is under way and everything holds `bs`. */
  ghost function Quiet(bs: seq<ShieldBlock>, cursor: nat): State {
    var stream := EncodeStream(bs, PivxCompat);
    State(false, map[], stream, stream, IndexOf(bs), [], cursor, bs, true, true)
  }

  lemma QuietSatisfiesInv(bs: seq<ShieldBlock>, cursor: nat)
    requires HeightsUpTo(bs, cursor)
    ensures Inv(Quiet(bs, cursor))
  {
    hide EncodeStream;
    assert bs[..|bs|] == bs;
    assert forall t :: !Inside(Quiet(bs, cursor), t);
  }

  lemma RunSteps(s: State, a: Step, steps: seq<Step>)
    ensures Run(s, [a] + steps) == Run(Next(s, a), steps)
  {
    hide Next;
    assert ([a] + steps)[1..] == steps;
  }

  /** A reorganisation that cuts everything, followed by the file and buffer appends of one block. */
  lemma ReplaceAll(bs: seq<ShieldBlock>, cursor: nat, b: ShieldBlock) returns (steps: seq<Step>)
    requires HeightsUpTo(bs, cursor) && bs != [] && bs[0].height == 1 && b.height == 1 && Scanned(b) && 1 <= cursor
    ensures Run(Quiet(bs, cursor), steps).clean && Run(Quiet(bs, cursor), steps).buffer == BlockBytes(b)
  {
    hide EncodeStream, Scanned, RolledBack;
    var s := Quiet(bs, cursor);
    var rest := [Filter(0, b), AppendFile(0), AppendBuffer(0)];
    steps := [Enter(0)] + ([Reorg(0, 1, Done, true)] + rest);
    var s1 := Next(s, Enter(0));
    RunSteps(s, Enter(0), [Reorg(0, 1, Done, true)] + rest);
    RunSteps(s1, Reorg(0, 1, Done, true), rest);
    var s2 := Next(s1, Reorg(0, 1, Done, true));
    CutsEverything(s1, bs);
    AppendToEmpty(s2, b);
  }

  lemma {:induction false} CutsEverything(s: State, bs: seq<ShieldBlock>)
    requires bs != [] && bs[0].height == 1 && IncreasingHeights(bs)
    requires s.entries == IndexOf(bs) && s.buffer == EncodeStream(bs, PivxCompat)
    ensures var r := RolledBack(s, 1, Done, true);
            r.buffer == [] && r.entries == [] && r.cursor == 0
  {
    hide EncodeStream;
    IndexOfIncreasing(bs);
    NothingRetained(s.entries);
    EncodingOfNone(PivxCompat);
    assert bs[..0] == [];
  }

  lemma AppendToEmpty(s: State, b: ShieldBlock)
    requires s.Phase(0) == Looping && s.cursor == 0 && s.entries == [] && s.buffer == [] && s.clean
    requires b.height == 1 && Scanned(b)
    ensures var end := Run(s, [Filter(0, b), AppendFile(0), AppendBuffer(0)]);
            end.clean && end.buffer == BlockBytes(b)
  {
    hide Scanned, RolledBack, BlockBytes;
    assert [Filter(0, b), AppendFile(0), AppendBuffer(0)]
        == [Filter(0, b)] + ([AppendFile(0)] + ([AppendBuffer(0)] + []));
    RunSteps(s, Filter(0, b), [AppendFile(0)] + ([AppendBuffer(0)] + []));
    var s1 := Next(s, Filter(0, b));
    RunSteps(s1, AppendFile(0), [AppendBuffer(0)] + []);
    RunSteps(Next(s1, AppendFile(0)), AppendBuffer(0), []);
    assert [] + BlockBytes(b) == BlockBytes(b);
  }

  lemma NothingRetained(entries: seq<IndexEntry>)
    requires entries != [] && entries[0].block >= 1 && Increasing(entries)
    ensures PartitionPoint(entries, 1) == 0 && RetainBelow(entries, 1) == []
  {
    RetainBelowIsPrefix(entries, 1);
  }

  /** A reorganisation and an append between the two reads can leave the reader with part of a block. */
  lemma ReaderIsTornByReorg()
    ensures exists s, steps, start: nat ::
              && Inv(s) && Run(s, steps).clean
              && forall bs :: EncodeStream(bs, PivxCompat)
                              != Reply(OffsetForHeight(s.entries, start), Run(s, steps).buffer, PivxCompat)
  {
    hide EncodeStream, Scanned, Run, Inv, Exclusive;
    var b1, b2, longer := SampleBlock(1, 0), SampleBlock(2, 0), SampleBlock(1, 5);
    SampleIsScanned(1, 0);
    SampleIsScanned(2, 0);
    SampleIsScanned(1, 5);
    var bs := [b1, b2];
    var s := Quiet(bs, 2);
    QuietSatisfiesInv(bs, 2);
    var steps := ReplaceAll(bs, 2, longer);
    assert bs[..1] == [b1];
    assert s.entries[0].block == 1 && s.entries[1] == IndexEntry(2, 422);
    SecondOffset(s.entries);
    var reply := Reply(OffsetForHeight(s.entries, 2), Run(s, steps).buffer, PivxCompat);
    assert |reply| == 5;
    forall other: seq<ShieldBlock> ensures reply != EncodeStream(other, PivxCompat) {
      if other == [] { EncodingOfNone(PivxCompat); } else { NonEmptyStream(other); }
    }
    assert Inv(s) && Run(s, steps).clean;
  }

  lemma SecondOffset(entries: seq<IndexEntry>)
    requires |entries| == 2 && entries[0].block == 1 && entries[1].block == 2
    ensures OffsetForHeight(entries, 2) == Some(entries[1].i)
  {
    assert PartitionPoint(entries[1..], 2) == 0;
  }

  // ---------------------------------------------------------------------------
  // Crash during an append
  // ---------------------------------------------------------------------------

  /** The file holds `bs` and the first `n` bytes of one more block. */
  lemma CrashedFile(bs: seq<ShieldBlock>, b: ShieldBlock, h: nat, n: nat)
    requires HeightsUpTo(bs, h) && b.height == h + 1 && Scanned(b) && n <= |BlockBytes(b)|
    ensures var disk := EncodeStream(bs, PivxCompat) + BlockBytes(b)[..n];
            var whole := if n == |BlockBytes(b)| then bs + [b] else bs;
            RecoveredBytes(disk) == EncodeStream(whole, PivxCompat) <==> whole != [] || n == 0
  {
    hide EncodeStream, RecoveredBytes, Scanned;
    var all, k := bs + [b], |EncodeStream(bs, PivxCompat)| + n;
    var whole := if n == |BlockBytes(b)| then all else bs;
    EncodeStreamAppend(bs, [b], PivxCompat);
    assert EncodeStream(bs, PivxCompat) + BlockBytes(b)[..n] == EncodeStream(all, PivxCompat)[..k];
    assert all[..|bs|] == bs && all[..|bs| + 1] == all;
    WholeBlocksIs(all, k, |whole|);
    HeightsExtend(bs, b, h);
    RecoveryRemovesTornBlockExactlyWhen(all, k);
    if bs == [] { EncodingOfNone(PivxCompat); } else { NonEmptyStream(bs); }
  }

  /**
   A crash may leave any part of the block being written. Recovery leaves whole blocks exactly when a whole block is
   there or nothing of the first one was written, and then the saved index is a prefix of the recovered file's index.
   */
  lemma CrashDuringAppend(s: State, b: ShieldBlock, n: nat)
    requires Inv(s) && s.clean && Current(s) == Passed(b) && n <= |BlockBytes(b)|
    ensures var disk := s.file + BlockBytes(b)[..n];
            var whole := if n == |BlockBytes(b)| then s.recorded + [b] else s.recorded;
            && (RecoveredBytes(disk) == EncodeStream(whole, PivxCompat) <==> whole != [] || n == 0)
            && (s.savedFresh ==> s.saved <= IndexOf(whole))
  {
    hide EncodeStream, RecoveredBytes, Exclusive, Scanned, IndexOf, BlockBytes, HeightsUpTo;
    assert s.recorded[..|s.recorded|] == s.recorded;
    CrashedFile(s.recorded, b, s.cursor, n);
    IndexOfAppend(s.recorded, b);
  }
}
