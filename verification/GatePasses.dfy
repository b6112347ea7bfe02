/** What whole indexing calls do behind the gate of src/main.rs, and that each of them can give it back. */
module GatePasses {
  import opened Wrappers
  import opened Stream
  import opened Scanner
  import opened Cache
  import opened Index
  import opened Gate

  /** Nobody is inside, and any task may enter. */
  ghost predicate Free(s: State) {
    && Exclusive(s) && !s.flag
    && forall t :: !Inside(s, t) && Next(s, Enter(t)).flag && Next(s, Enter(t)).Phase(t) == Checking
  }

  /** Everything but who is where and whether the flag is set. */
  function Data(s: State): State {
    s.(flag := false, phases := map[])
  }

  lemma ClearIsFree(s: State)
    requires Exclusive(s) && !s.flag
    ensures Free(s)
  {
  }

  // ---------------------------------------------------------------------------
  // Leaving
  // ---------------------------------------------------------------------------

  /** How many steps a task is from leaving. */
  function StepsLeft(p: Phase): nat {
    match p
    case Outside => 0
    case Checking => 1
    case Looping => 1
    case Giving => 1
    case Indexed => 2
    case Spoiled(_) => 2
    case Buffered(_, _) => 3
    case Filed(_, _) => 4
    case Passed(_) => 5
  }

  /** The step that takes a task one step closer to leaving. */
  function Onwards(t: Task, p: Phase): Step {
    match p
    case Passed(_) => AppendFile(t)
    case Filed(_, _) => AppendBuffer(t)
    case Spoiled(_) => AppendBuffer(t)
    case Buffered(_, _) => AddToIndex(t, true)
    case Indexed => Advance(t)
    case _ => Leave(t)
  }

  lemma OnwardsIsCloser(s: State, t: Task)
    requires Inside(s, t)
    ensures StepsLeft(Next(s, Onwards(t, s.Phase(t))).Phase(t)) == StepsLeft(s.Phase(t)) - 1
    ensures Onwards(t, s.Phase(t)).t == t
    ensures var s' := Next(s, Onwards(t, s.Phase(t)));
            && s'.cursor == s.cursor + (if s.Phase(t) == Indexed then 1 else 0)
            && (s'.Phase(t) == Outside ==> !s'.flag)
  {
    hide BlockBytes, RolledBack, Heights;
  }

  /** A block in hand is still counted by the cursor. */
  predicate HoldsBlock(p: Phase) {
    p.Passed? || p.Filed? || p.Buffered? || p.Indexed?
  }

  lemma OnwardsHolds(s: State, t: Task)
    requires Inside(s, t)
    ensures var p := Next(s, Onwards(t, s.Phase(t))).Phase(t);
            HoldsBlock(p) <==> HoldsBlock(s.Phase(t)) && s.Phase(t) != Indexed
  {
    hide BlockBytes, RolledBack, Heights;
  }

  /**
   Wherever a task is, steps of its own, and of nobody else, take it out and give the gate back. A block in hand
   moves the cursor by one on the way; nothing else does.
   */
  lemma {:induction false} CanLeave(s: State, t: Task) returns (steps: seq<Step>)
    requires Exclusive(s) && Inside(s, t)
    ensures |steps| == StepsLeft(s.Phase(t)) && forall step <- steps :: step.t == t && !step.Enter?
    ensures Free(Run(s, steps))
    ensures Run(s, steps).cursor == s.cursor + if HoldsBlock(s.Phase(t)) then 1 else 0
    decreases StepsLeft(s.Phase(t))
  {
    hide Next, Exclusive, Free;
    var step := Onwards(t, s.Phase(t));
    var s' := Next(s, step);
    StepIsLocal(s, step);
    OnwardsIsCloser(s, t);
    OnwardsHolds(s, t);
    var rest := [];
    if Inside(s', t) {
      rest := CanLeave(s', t);
    } else {
      ClearIsFree(s');
    }
    steps := [step] + rest;
    RunSteps(s, step, rest);
  }

  // ---------------------------------------------------------------------------
  // Whole passes
  // ---------------------------------------------------------------------------

  lemma EntersLoop(s: State, t: Task)
    requires Exclusive(s) && !s.flag
    ensures var s' := Next(Next(s, Enter(t)), NoReorg(t));
            Exclusive(s') && s'.flag && s'.Phase(t) == Looping && Data(s') == Data(s)
  {
    hide Exclusive, RolledBack, BlockBytes;
    ClearIsFree(s);
    StepIsLocal(s, Enter(t));
    StepIsLocal(Next(s, Enter(t)), NoReorg(t));
  }

  /** A turn of the loop over a height without shield data moves the cursor and nothing else. */
  lemma EmptyTurn(s: State, t: Task)
    requires Exclusive(s) && s.Phase(t) == Looping
    ensures var s' := Next(s, ScanEmpty(t));
            Exclusive(s') && s'.Phase(t) == Looping && Data(s') == Data(s).(cursor := s.cursor + 1)
  {
    hide Exclusive, RolledBack, BlockBytes;
    StepIsLocal(s, ScanEmpty(t));
  }

  lemma LeavesLoop(s: State, t: Task)
    requires Exclusive(s) && s.Phase(t) == Looping
    ensures var s' := Next(s, Leave(t));
            Free(s') && Data(s') == Data(s)
  {
    hide Exclusive, RolledBack, BlockBytes;
    StepIsLocal(s, Leave(t));
    ClearIsFree(Next(s, Leave(t)));
  }

  /** What storing `b` makes of everything but the cursor. */
  ghost predicate Stored(s: State, s': State, b: ShieldBlock, save: bool) {
    var bytes := EncodeStream([b], PivxCompat);
    && s'.file == s.file + bytes && s'.buffer == s.buffer + bytes
    && s'.entries == s.entries + [IndexEntry(b.height, |s.file|)]
    && s'.saved == (if save then s'.entries else s.saved)
    && s'.savedFresh == (save || s.savedFresh)
    && s'.clean == s.clean && s'.recorded == (if s.clean then s.recorded + [b] else s.recorded)
  }

  function BlockTurn(t: Task, b: ShieldBlock, save: bool): seq<Step> {
    [Filter(t, b), AppendFile(t), AppendBuffer(t), AddToIndex(t, save), Advance(t)]
  }

  /** A turn over a new shield block stores it in file, buffer and index, and only then moves the cursor. */
  lemma BlockTurnStores(s: State, t: Task, b: ShieldBlock, save: bool)
    requires Exclusive(s) && s.Phase(t) == Looping
    requires b.height == s.cursor + 1 && Scanned(b) && b.height !in Heights(s.entries)
    ensures var end := Run(s, BlockTurn(t, b, save));
            Exclusive(end) && end.Phase(t) == Looping && end.cursor == s.cursor + 1 && Stored(s, end, b, save)
  {
    hide Exclusive, Scanned, Heights, RolledBack, EncodeStream, Next, Run;
    var s1, rest := Next(Next(s, Filter(t, b)), AppendFile(t)), [AppendBuffer(t), AddToIndex(t, save)] + [Advance(t)];
    assert BlockTurn(t, b, save) == [Filter(t, b), AppendFile(t)] + rest;
    RunTwo(s, Filter(t, b), AppendFile(t), rest);
    BlockIsFiled(s, t, b);
    RunTwo(s1, AppendBuffer(t), AddToIndex(t, save), [Advance(t)]);
    FiledIsIndexed(s1, t, b, |s.file|, save);
    var s2 := Next(Next(s1, AppendBuffer(t)), AddToIndex(t, save));
    RunOne(s2, Advance(t));
    Advances(s2, t);
  }

  lemma BlockIsFiled(s: State, t: Task, b: ShieldBlock)
    requires Exclusive(s) && s.Phase(t) == Looping
    requires b.height == s.cursor + 1 && Scanned(b) && b.height !in Heights(s.entries)
    ensures var s' := Next(Next(s, Filter(t, b)), AppendFile(t));
            && Exclusive(s') && s'.Phase(t) == Filed(b, |s.file|)
            && Data(s') == Data(s).(file := s.file + EncodeStream([b], PivxCompat),
                                    recorded := if s.clean then s.recorded + [b] else s.recorded)
  {
    hide Exclusive, Scanned, Heights, RolledBack, EncodeStream;
    StepIsLocal(s, Filter(t, b));
    StepIsLocal(Next(s, Filter(t, b)), AppendFile(t));
  }

  lemma FiledIsIndexed(s: State, t: Task, b: ShieldBlock, offset: nat, save: bool)
    requires Exclusive(s) && s.Phase(t) == Filed(b, offset) && b.height !in Heights(s.entries)
    ensures var s' := Next(Next(s, AppendBuffer(t)), AddToIndex(t, save));
            var entries := s.entries + [IndexEntry(b.height, offset)];
            && Exclusive(s') && s'.Phase(t) == Indexed
            && Data(s') == Data(s).(buffer := s.buffer + EncodeStream([b], PivxCompat), entries := entries,
                                    saved := if save then entries else s.saved, savedFresh := save || s.savedFresh)
  {
    hide Exclusive, Heights, RolledBack, EncodeStream;
    StepIsLocal(s, AppendBuffer(t));
    StepIsLocal(Next(s, AppendBuffer(t)), AddToIndex(t, save));
  }

  lemma Advances(s: State, t: Task)
    requires Exclusive(s) && s.Phase(t) == Indexed
    ensures var s' := Next(s, Advance(t));
            Exclusive(s') && s'.Phase(t) == Looping && Data(s') == Data(s).(cursor := s.cursor + 1)
  {
    hide Exclusive, RolledBack, BlockBytes;
    StepIsLocal(s, Advance(t));
  }

  /** A turn over a height that the index knows stores nothing and moves the cursor. */
  lemma KnownTurnStoresNothing(s: State, t: Task, b: ShieldBlock)
    requires Exclusive(s) && s.Phase(t) == Looping
    requires b.height == s.cursor + 1 && Scanned(b) && b.height in Heights(s.entries)
    ensures var s' := Next(Next(s, Filter(t, b)), Advance(t));
            Exclusive(s') && s'.Phase(t) == Looping && Data(s') == Data(s).(cursor := s.cursor + 1)
  {
    hide Exclusive, Scanned, Heights, RolledBack, BlockBytes;
    StepIsLocal(s, Filter(t, b));
    Advances(Next(s, Filter(t, b)), t);
  }

  /** A write that fails part-way: the file gets that part, the buffer all, the rest nothing. The call leaves. */
  lemma FailedTurn(s: State, t: Task, b: ShieldBlock, written: nat)
    requires Exclusive(s) && s.Phase(t) == Passed(b) && written <= |EncodeStream([b], PivxCompat)|
    ensures var end := Next(Next(Next(s, AppendFileFails(t, written)), AppendBuffer(t)), Leave(t));
            var bytes := EncodeStream([b], PivxCompat);
            Free(end) && Data(end) == Data(s).(file := s.file + bytes[..written], buffer := s.buffer + bytes,
                                               clean := false)
  {
    hide Exclusive, EncodeStream, Heights, Scanned, RolledBack, Free;
    var s1 := Next(s, AppendFileFails(t, written));
    StepIsLocal(s, AppendFileFails(t, written));
    StepIsLocal(s1, AppendBuffer(t));
    StepIsLocal(Next(s1, AppendBuffer(t)), Leave(t));
    ClearIsFree(Next(Next(s1, AppendBuffer(t)), Leave(t)));
  }

  // ---------------------------------------------------------------------------
  // In program order
  // ---------------------------------------------------------------------------

  /** A block in hand is seen through: no step but the next one on its way does anything, or the write fails. */
  lemma BlockIsSeenThrough(s: State, t: Task, step: Step)
    requires Exclusive(s) && (HoldsBlock(s.Phase(t)) || s.Phase(t).Spoiled?) && Next(s, step) != s
    ensures || step == Onwards(t, s.Phase(t)) || (s.Phase(t).Buffered? && step == AddToIndex(t, false))
            || (s.Phase(t).Passed? && step.AppendFileFails? && step.t == t)
  {
    if step.t != t {
      OthersWait(s, t, step);
    } else {
      hide Exclusive, BlockBytes, Heights, Scanned, RolledBack;
    }
  }

  /** After a failed write the buffer is extended, and then nothing more happens until the gate is given back. */
  lemma {:induction false} FailureEndsCall(s: State, t: Task, steps: seq<Step>)
    requires Exclusive(s) && (s.Phase(t).Spoiled? || s.Phase(t) == Giving) && Leave(t) !in steps
    ensures Run(s, steps) == s || (s.Phase(t).Spoiled? && Run(s, steps) == Next(s, AppendBuffer(t)))
    decreases |steps|
  {
    hide Exclusive, Next;
    if steps != [] {
      assert steps[0] != Leave(t) && Leave(t) !in steps[1..];
      StaysInside(s, t, steps[0]);
      OnlyBufferAfterFailure(s, t, steps[0]);
      FailureEndsCall(Next(s, steps[0]), t, steps[1..]);
    }
  }

  lemma OnlyBufferAfterFailure(s: State, t: Task, step: Step)
    requires Exclusive(s) && (s.Phase(t).Spoiled? || s.Phase(t) == Giving) && step != Leave(t)
    ensures Next(s, step) == s || (s.Phase(t).Spoiled? && step == AppendBuffer(t))
    ensures s.Phase(t).Spoiled? ==> Next(s, AppendBuffer(t)).Phase(t) == Giving
  {
    if step.t != t {
      OthersWait(s, t, step);
    } else {
      hide Exclusive, BlockBytes, Heights, Scanned, RolledBack;
    }
  }

  /** A call looks for a reorganisation once, before it scans anything. */
  lemma {:induction false} ChecksOnce(s: State, t: Task, steps: seq<Step>)
    requires Exclusive(s) && Inside(s, t) && s.Phase(t) != Checking && Leave(t) !in steps
    ensures var end := Run(s, steps);
            && Next(end, NoReorg(t)) == end
            && forall fork, cut, save :: Next(end, Reorg(t, fork, cut, save)) == end
    decreases |steps|
  {
    if steps != [] {
      assert steps[0] != Leave(t) && Leave(t) !in steps[1..];
      StaysInside(s, t, steps[0]);
      StaysPastCheck(s, t, steps[0]);
      ChecksOnce(Next(s, steps[0]), t, steps[1..]);
    } else {
      hide Exclusive, BlockBytes, Heights, Scanned, RolledBack;
    }
  }

  lemma StaysPastCheck(s: State, t: Task, step: Step)
    requires Inside(s, t) && s.Phase(t) != Checking
    ensures Next(s, step).Phase(t) != Checking
  {
    hide BlockBytes, Heights, Scanned;
  }

  // ---------------------------------------------------------------------------
  // A call over any number of heights
  // ---------------------------------------------------------------------------

  function Turn(t: Task, found: Option<ShieldBlock>, save: bool): seq<Step> {
    match found case None => [ScanEmpty(t)] case Some(b) => BlockTurn(t, b, save)
  }

  /** One turn of the loop for each height above the cursor. */
  function Turns(t: Task, found: seq<Option<ShieldBlock>>, save: bool): seq<Step> {
    if found == [] then [] else Turn(t, found[0], save) + Turns(t, found[1..], save)
  }

  function Blocks(found: seq<Option<ShieldBlock>>): seq<ShieldBlock> {
    if found == [] then [] else (if found[0].Some? then [found[0].value] else []) + Blocks(found[1..])
  }

  ghost predicate FoundAbove(found: seq<Option<ShieldBlock>>, cursor: nat) {
    forall i | 0 <= i < |found| && found[i].Some? ::
      found[i].value.height == cursor + 1 + i && Scanned(found[i].value)
  }

  lemma CurrentIs(s: State, t: Task)
    requires Exclusive(s) && Inside(s, t)
    ensures Current(s) == s.Phase(t)
  {
  }

  lemma AboveIsNew(s: State, t: Task, h: nat)
    requires Inv(s) && s.clean && s.Phase(t) == Looping && h == s.cursor + 1
    ensures h !in Heights(s.entries)
  {
    hide EncodeStream, IndexOf, Scanned, HeightsUpTo, Heights, InFlight;
    CurrentIs(s, t);
    assert s.recorded[..|s.recorded|] == s.recorded;
    NotIndexed(s.recorded, s.cursor);
  }

  lemma TurnStores(s: State, t: Task, found: Option<ShieldBlock>, save: bool)
    requires Inv(s) && s.clean && s.Phase(t) == Looping
    requires found.Some? ==> found.value.height == s.cursor + 1 && Scanned(found.value)
    ensures var end := Run(s, Turn(t, found, save));
            && Inv(end) && end.clean && end.Phase(t) == Looping && end.cursor == s.cursor + 1
            && end.recorded == s.recorded + if found.Some? then [found.value] else []
  {
    hide Inv, Scanned, EncodeStream, Heights, Next, Run;
    RunKeepsInv(s, Turn(t, found, save));
    InvIsExclusive(s);
    if found.Some? {
      AboveIsNew(s, t, s.cursor + 1);
      BlockTurnStores(s, t, found.value, save);
    } else {
      RunOne(s, ScanEmpty(t));
      EmptyTurn(s, t);
      assert s.recorded + [] == s.recorded;
    }
  }

  lemma FoundAboveRest(found: seq<Option<ShieldBlock>>, cursor: nat)
    requires FoundAbove(found, cursor) && found != []
    ensures FoundAbove(found[1..], cursor + 1)
    ensures found[0].Some? ==> found[0].value.height == cursor + 1 && Scanned(found[0].value)
  {
    hide Scanned;
  }

  lemma {:induction false} TurnsStore(s: State, t: Task, found: seq<Option<ShieldBlock>>, save: bool)
    requires Inv(s) && s.clean && s.Phase(t) == Looping && FoundAbove(found, s.cursor)
    ensures var end := Run(s, Turns(t, found, save));
            && Inv(end) && end.clean && end.Phase(t) == Looping && end.cursor == s.cursor + |found|
            && end.recorded == s.recorded + Blocks(found)
    decreases |found|
  {
    hide *;
    if found == [] {
      NoTurns(s, t, save);
    } else {
      FoundAboveRest(found, s.cursor);
      TurnStores(s, t, found[0], save);
      TurnsSplit(t, found, save);
      RunAppend(s, Turn(t, found[0], save), Turns(t, found[1..], save));
      TurnsStore(Run(s, Turn(t, found[0], save)), t, found[1..], save);
    }
  }

  lemma NoTurns(s: State, t: Task, save: bool)
    ensures Run(s, Turns(t, [], save)) == s && s.recorded + Blocks([]) == s.recorded
  {
  }

  lemma TurnsSplit(t: Task, found: seq<Option<ShieldBlock>>, save: bool)
    requires found != []
    ensures Turns(t, found, save) == Turn(t, found[0], save) + Turns(t, found[1..], save)
    ensures Blocks(found) == (if found[0].Some? then [found[0].value] else []) + Blocks(found[1..])
  {
  }

  lemma InvIsExclusive(s: State)
    requires Inv(s)
    ensures Exclusive(s)
  {
  }

  /** From any state: a whole call that finds a new shield block stores it and gives the gate back. */
  lemma ShieldPass(s: State, t: Task, b: ShieldBlock, save: bool)
    requires Exclusive(s) && !s.flag
    requires b.height == s.cursor + 1 && Scanned(b) && b.height !in Heights(s.entries)
    ensures var end := Run(s, [Enter(t), NoReorg(t)] + (BlockTurn(t, b, save) + [Leave(t)]));
            Free(end) && end.cursor == s.cursor + 1 && Stored(s, end, b, save)
  {
    hide *;
    EntersLoop(s, t);
    var s1 := Next(Next(s, Enter(t)), NoReorg(t));
    SameFields(s1, s);
    RunTwo(s, Enter(t), NoReorg(t), BlockTurn(t, b, save) + [Leave(t)]);
    BlockTurnStores(s1, t, b, save);
    var s2 := Run(s1, BlockTurn(t, b, save));
    RunAppend(s1, BlockTurn(t, b, save), [Leave(t)]);
    RunOne(s2, Leave(t));
    LeavesLoop(s2, t);
    StoredFrom(s, s1, s2, Next(s2, Leave(t)), b, save);
  }

  /** From any state: a whole call that finds no shield data moves the cursor, and gives the gate back. */
  lemma EmptyPass(s: State, t: Task)
    requires Exclusive(s) && !s.flag
    ensures var end := Run(s, [Enter(t), NoReorg(t)] + [ScanEmpty(t), Leave(t)]);
            Free(end) && Data(end) == Data(s).(cursor := s.cursor + 1)
  {
    hide *;
    EntersLoop(s, t);
    var s1 := Next(Next(s, Enter(t)), NoReorg(t));
    SameFields(s1, s);
    EmptyTurn(s1, t);
    LeavesLoop(Next(s1, ScanEmpty(t)), t);
    RunTwo(s, Enter(t), NoReorg(t), [ScanEmpty(t), Leave(t)]);
    assert [ScanEmpty(t), Leave(t)] == [ScanEmpty(t)] + [Leave(t)];
    RunSteps(s1, ScanEmpty(t), [Leave(t)]);
    RunOne(Next(s1, ScanEmpty(t)), Leave(t));
  }

  /**
   From any state in which nobody is inside and nothing has failed: a whole call over any number of heights records
   exactly the shield blocks found, in order, in file, buffer and index, and gives the gate back.
   */
  lemma CallStoresAllFound(s: State, t: Task, found: seq<Option<ShieldBlock>>, save: bool)
    requires Inv(s) && s.clean && !s.flag && FoundAbove(found, s.cursor)
    ensures var end := Run(s, [Enter(t), NoReorg(t)] + (Turns(t, found, save) + [Leave(t)]));
            && Free(end) && end.clean && end.cursor == s.cursor + |found|
            && end.recorded == s.recorded + Blocks(found)
            && end.file == end.buffer == EncodeStream(end.recorded, PivxCompat)
            && end.entries == IndexOf(end.recorded)
  {
    hide *;
    InvIsExclusive(s);
    EntersLoop(s, t);
    var s1 := Next(Next(s, Enter(t)), NoReorg(t));
    SameFields(s1, s);
    NextKeepsInv(s, Enter(t));
    NextKeepsInv(Next(s, Enter(t)), NoReorg(t));
    RunTwo(s, Enter(t), NoReorg(t), Turns(t, found, save) + [Leave(t)]);
    TurnsStore(s1, t, found, save);
    var s2 := Run(s1, Turns(t, found, save));
    RunAppend(s1, Turns(t, found, save), [Leave(t)]);
    RunOne(s2, Leave(t));
    InvIsExclusive(s2);
    LeavesLoop(s2, t);
    var end := Next(s2, Leave(t));
    SameFields(end, s2);
    FreeIsClear(end);
    NextKeepsInv(s2, Leave(t));
    WhatInvHolds(end);
  }

  lemma FreeIsClear(s: State)
    requires Free(s)
    ensures !s.flag
  {
  }

  lemma RunOne(s: State, a: Step)
    ensures Run(s, [a]) == Next(s, a)
  {
    hide Next;
    assert Run(Next(s, a), [a][1..]) == Next(s, a);
  }

  lemma RunTwo(s: State, a: Step, b: Step, rest: seq<Step>)
    ensures Run(s, [a, b] + rest) == Run(Next(Next(s, a), b), rest)
  {
    hide Next, Run;
    assert [a, b] + rest == [a] + ([b] + rest);
    RunSteps(s, a, [b] + rest);
    RunSteps(Next(s, a), b, rest);
  }

  lemma {:induction false} RunAppend(s: State, a: seq<Step>, b: seq<Step>)
    ensures Run(s, a + b) == Run(Run(s, a), b)
    decreases |a|
  {
    hide Next;
    if a == [] {
      assert a + b == b;
    } else {
      RunAppend(Next(s, a[0]), a[1..], b);
      assert a + b == [a[0]] + (a[1..] + b);
      RunSteps(s, a[0], a[1..] + b);
    }
  }

  lemma SameFields(s: State, s': State)
    requires Data(s) == Data(s')
    ensures s.cursor == s'.cursor && s.entries == s'.entries && s.recorded == s'.recorded && s.clean == s'.clean
  {
  }

  /** Entering and leaving do not matter for what is stored. */
  lemma StoredFrom(s: State, s1: State, s2: State, end: State, b: ShieldBlock, save: bool)
    requires Data(s1) == Data(s) && Data(end) == Data(s2) && Stored(s1, s2, b, save)
    ensures Stored(s, end, b, save) && s1.cursor == s.cursor && end.cursor == s2.cursor
  {
    hide EncodeStream;
  }

  // ---------------------------------------------------------------------------
  // Calls are serial
  // ---------------------------------------------------------------------------

  function Own(steps: seq<Step>, t: Task): seq<Step> {
    if steps == [] then [] else (if steps[0].t == t then [steps[0]] else []) + Own(steps[1..], t)
  }

  /** While a task is inside, a step of any other changes nothing. */
  lemma OthersWait(s: State, t: Task, step: Step)
    requires Exclusive(s) && Inside(s, t) && step.t != t
    ensures Next(s, step) == s
  {
    hide Next;
    StepIsLocal(s, step);
  }

  lemma StaysInside(s: State, t: Task, step: Step)
    requires Exclusive(s) && Inside(s, t) && step != Leave(t)
    ensures Inside(Next(s, step), t) && Exclusive(Next(s, step))
  {
    StepIsLocal(s, step);
    if step.t != t {
      OthersWait(s, t, step);
    } else {
      hide Exclusive, BlockBytes, Heights, Scanned;
    }
  }

  /** Until it leaves, a call goes as if nobody else were there, however it is interleaved. */
  lemma {:induction false} CallsAreSerial(s: State, t: Task, steps: seq<Step>)
    requires Exclusive(s) && Inside(s, t) && Leave(t) !in steps
    ensures Run(s, steps) == Run(s, Own(steps, t))
    decreases |steps|
  {
    hide Next, Exclusive, Inside;
    if steps != [] {
      StaysInside(s, t, steps[0]);
      CallsAreSerial(Next(s, steps[0]), t, steps[1..]);
      if steps[0].t == t {
        RunSteps(s, steps[0], Own(steps[1..], t));
      } else {
        OthersWait(s, t, steps[0]);
        assert Own(steps, t) == Own(steps[1..], t);
      }
    }
  }

  // ---------------------------------------------------------------------------
  // A reorganisation
  // ---------------------------------------------------------------------------

  /** `bs` is what file, buffer, index and history hold. */
  ghost predicate Holds(s: State, bs: seq<ShieldBlock>) {
    && s.recorded == bs && s.file == s.buffer == EncodeStream(bs, PivxCompat) && s.entries == IndexOf(bs)
  }

  lemma HoldsRecorded(s: State, t: Task)
    requires Inv(s) && s.clean && s.Phase(t) in {Checking, Looping}
    ensures Holds(s, s.recorded) && IncreasingHeights(s.recorded)
  {
    hide EncodeStream, IndexOf, Scanned, InFlight;
    CurrentIs(s, t);
    assert s.recorded[..|s.recorded|] == s.recorded;
  }

  /** The cut that a reorganisation makes is the one between the blocks below the fork and the rest. */
  lemma CutAtFork(bs: seq<ShieldBlock>, fork: nat)
    requires IncreasingHeights(bs)
    ensures var p, kept := PartitionPoint(IndexOf(bs), fork), BlocksIn(bs, 0, fork);
            && kept == bs[..p] && (p == |bs| <==> kept == bs)
            && RetainBelow(IndexOf(bs), fork) == IndexOf(kept)
            && var s := EncodeStream(bs, PivxCompat);
               && |EncodeStream(kept, PivxCompat)| <= |s|
               && s[..|EncodeStream(kept, PivxCompat)|] == EncodeStream(kept, PivxCompat)
  {
    hide EncodeStream, BlocksIn;
    IndexOfIncreasing(bs);
    BelowIsPrefix(bs, fork);
    RetainBelowIsPrefix(IndexOf(bs), fork);
    IndexOfPrefix(bs, Cut(bs, fork));
    EncodedPrefix(bs, Cut(bs, fork));
  }

  /**
   With nothing failed before, a reorganisation leaves the recorded blocks below the fork in all three, and the cursor
   under the fork. A refused cut changes nothing, and one that fails after shortening the file changes only the file.
   */
  lemma ReorgCuts(s: State, t: Task, fork: nat, cut: FileCut, save: bool)
    requires Inv(s) && s.clean && s.Phase(t) == Checking && 1 <= fork <= s.cursor + 1
    ensures var s', kept := Next(s, Reorg(t, fork, cut, save)), BlocksIn(s.recorded, 0, fork);
            && s'.Phase(t) == Looping
            && if cut.Done? || kept == s.recorded then
                 && Holds(s', kept) && s'.clean && s'.cursor == fork - 1
                 && (kept != s.recorded && save ==> s'.saved == s'.entries)
               else
                 && s'.buffer == s.buffer && s'.entries == s.entries && s'.saved == s.saved && s'.cursor == s.cursor
                 && s'.file == (if cut.Torn? then EncodeStream(kept, PivxCompat) else s.file)
                 && s'.clean == cut.Refused?
  {
    hide Inv, EncodeStream, IndexOf, BlocksIn, RetainBelow;
    HoldsRecorded(s, t);
    CutAtFork(s.recorded, fork);
  }
}
