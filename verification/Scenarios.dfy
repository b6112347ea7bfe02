/**
 Runs of the bridge after which the node's chain and what the bridge holds differ, in blocks that carry shield data.
 The node's universe is two branches over one genesis block.
 */
module Scenarios {
  import opened Wrappers
  import opened Bytes
  import opened Stream
  import opened Scanner
  import opened Samples
  import opened Cache
  import opened Index
  import opened Chain
  import opened RpcNode
  import opened ForkSearch
  import opened Bridge

  /** The hash of a block is its branch's letter, once for each block below it. */
  function Name(letter: char, height: nat): (h: Hash)
    ensures |h.hex| == height
  {
    Hash(seq(height, _ => letter))
  }

  function Branch(letter: char, length: nat): (hs: seq<Hash>)
    ensures |hs| == length && forall i | 0 <= i < length :: hs[i] == Name(letter, i)
  {
    seq(length, i requires 0 <= i < length => Name(letter, i))
  }

  /** Every block but the genesis block carries shield data, and other data on the other branch. */
  function BlockOf(h: Hash): Block {
    if h.hex == "" then Block(Hash(""), 0, 0, [])
    else Block(Hash(h.hex[1..]), |h.hex|, 0, [SampleBits(Padding(h.hex[0]))])
  }

  function Padding(letter: char): nat {
    if letter == 'a' then 0 else 1
  }

  function TwoBranches(length: nat): Universe {
    map h | h in Branch('a', length) + Branch('b', length) :: BlockOf(h)
  }

  lemma TwoBranchesIsWellFormed(length: nat)
    requires length < U32_LIMIT
    ensures WellFormed(TwoBranches(length))
  {
    var u := TwoBranches(length);
    forall h <- u ensures u[h].Sized() {
      assert |h.hex| < length;
    }
  }

  lemma InBranches(letter: char, height: nat, length: nat)
    requires letter in {'a', 'b'} && height < length
    ensures Name(letter, height) in TwoBranches(length) && TwoBranches(length)[Name(letter, height)].height == height
  {
    hide BlockOf, Name;
    assert Branch(letter, length)[height] == Name(letter, height);
    assert Name(letter, height) in Branch('a', length) + Branch('b', length);
    HeightOf(Name(letter, height));
  }

  lemma HeightOf(h: Hash)
    ensures BlockOf(h).height == |h.hex|
  {
  }

  lemma ParentOf(letter: char, height: nat)
    ensures BlockOf(Name(letter, height + 1)).prev == Name(letter, height)
  {
    assert Name(letter, height + 1).hex[1..] == Name(letter, height).hex;
  }

  lemma BranchIsChain(letter: char, length: nat, total: nat)
    requires letter in {'a', 'b'} && length <= total
    ensures IsChain(TwoBranches(total), Branch(letter, length))
  {
    hide BlockOf, Name, TwoBranches;
    var u, hs := TwoBranches(total), Branch(letter, length);
    forall i | 0 <= i < length ensures hs[i] in u && u[hs[i]].height == i {
      InBranches(letter, i, total);
    }
    forall i | 0 < i < length ensures u[hs[i]].prev == hs[i - 1] {
      InBranches(letter, i, total);
      ParentOf(letter, i - 1);
      LooksUp(total, hs[i]);
    }
  }

  lemma LooksUp(total: nat, h: Hash)
    requires h in TwoBranches(total)
    ensures TwoBranches(total)[h] == BlockOf(h)
  {
  }

  lemma Parted(i: nat, j: nat)
    requires i > 0 && j > 0
    ensures Name('a', i) != Name('b', j) && Name('a', 0) == Name('b', 0)
  {
    assert Name('a', i).hex[0] == 'a' && Name('b', j).hex[0] == 'b';
    assert Name('a', 0).hex == Name('b', 0).hex;
  }

  lemma ShieldAt(letter: char, height: nat, total: nat)
    requires letter in {'a', 'b'} && 0 < height < total
    ensures Name(letter, height) in TwoBranches(total)
    ensures TwoBranches(total)[Name(letter, height)].Shield() == Some(SampleBlock(height, Padding(letter)))
  {
    hide SampleBits;
    InBranches(letter, height, total);
    LooksUp(total, Name(letter, height));
    assert Name(letter, height).hex[0] == letter;
    SampleIsFound(height, Padding(letter));
  }

  lemma SamplesDiffer(height: nat)
    ensures SampleBlock(height, 0) != SampleBlock(height, 1)
  {
    assert |SampleRaw(0)| != |SampleRaw(1)|;
  }

  /** An orphan of branch a that stands where the node has branch b. */
  lemma OrphanStays(held: seq<Hash>, chain: seq<Hash>, h: nat, total: nat)
    requires var u := TwoBranches(total); AtHeights(u, held) && AtHeights(u, chain) && |held| == |chain|
    requires 0 < h < |held| && h < total && held[h] == Name('a', h) && chain[h] == Name('b', h)
    ensures SampleBlock(h, 0) in Shields(TwoBranches(total), held)
    ensures Shields(TwoBranches(total), held) != Shields(TwoBranches(total), chain)
  {
    hide Shields, Block.Shield, TwoBranches, Name, SampleBlock, AtHeights;
    var u := TwoBranches(total);
    ShieldAt('a', h, total);
    ShieldAt('b', h, total);
    SamplesDiffer(h);
    HeldAt(u, held, h);
    ShieldsContain(u, held, h);
    ShieldsEqualExactlyWhen(u, held, chain);
  }

  lemma HeldAt(u: Universe, hs: seq<Hash>, h: nat)
    requires AtHeights(u, hs) && h < |hs|
    ensures hs[h] in u
  {
  }

  /**
   A reorganisation of 1001 blocks: whatever the cache holds, a pass stops searching above the fork, and orphaned
   shield blocks stay recorded.
   */
  lemma ReorgBeyondWindowKeepsOrphans(m: BC.Maps, capacity: nat)
    requires CacheFits(TwoBranches(1003), Branch('a', 1002), m, capacity)
    ensures var u, scanned, chain := TwoBranches(1003), Branch('a', 1002), Branch('b', 1003);
            var held := Outcome({}, m.heightToHash, scanned, chain);
            && IsChain(u, scanned) && IsChain(u, chain)
            && AtHeights(u, held) && SampleBlock(1, 0) in Shields(u, held) && Shields(u, held) != Shields(u, chain)
  {
    hide BC.Consistent, TwoBranches, Name, IsChain, SearchFrom, ForkHeight, Shields, SampleBlock;
    var u, scanned, chain := TwoBranches(1003), Branch('a', 1002), Branch('b', 1003);
    BranchIsChain('a', 1002, 1003);
    BranchIsChain('b', 1003, 1003);
    Parted(1, 1);
    ForkAtOne(u, scanned, chain);
    Remembered(u, scanned, m, capacity);
    ForkSearchIsSafeExactlyInWindow(u, m.heightToHash, scanned, chain);
    var held := Outcome({}, m.heightToHash, scanned, chain);
    ScansAbove(m.heightToHash, scanned, chain);
    ChainIsAtHeights(u, scanned);
    ChainIsAtHeights(u, chain);
    OutcomeAtHeights(u, m, scanned, chain, capacity);
    OrphanStays(held, chain, 1, 1003);
  }

  lemma ForkAtOne(u: Universe, a: seq<Hash>, b: seq<Hash>)
    requires IsChain(u, a) && IsChain(u, b) && |a| >= 2 && |b| >= 2 && a[0] == b[0] && a[1] != b[1]
    ensures ForkHeight(a, b) == 1
  {
    hide IsChain, ForkHeight;
    DisagreeFromFork(u, a, b, 0);
    DisagreeFromFork(u, a, b, 1);
  }

  lemma ScansAbove(cached: map<nat, Hash>, scanned: seq<Hash>, chain: seq<Hash>)
    requires |scanned| == 1002 && |chain| == 1003 && ForkHeight(scanned, chain) == 1
    requires SearchFrom({}, cached, chain, 1001, Limit(1002)) > 1
    ensures Outcome({}, cached, scanned, chain)[1] == scanned[1]
  {
    hide SearchFrom, ForkHeight;
  }

  lemma ChainIsAtHeights(u: Universe, hs: seq<Hash>)
    requires IsChain(u, hs)
    ensures AtHeights(u, hs)
  {
  }

  lemma OutcomeAtHeights(u: Universe, m: BC.Maps, scanned: seq<Hash>, chain: seq<Hash>, capacity: nat)
    requires CacheFits(u, scanned, m, capacity) && AtHeights(u, scanned) && AtHeights(u, chain)
    requires scanned != [] && |scanned| < |chain|
    ensures AtHeights(u, Outcome({}, m.heightToHash, scanned, chain))
  {
    hide BC.Consistent, Detected, SearchFrom;
  }

  // ---------------------------------------------------------------------------
  // Runs
  // ---------------------------------------------------------------------------

  /** Nothing stored yet: a working disk, an empty cache of 1000 entries, and the genesis block scanned. */
  method Fresh(chain: seq<Hash>) returns (b: Bridge)
    requires IsChain(TwoBranches(4), chain) && chain != [] && chain[0] == Name('a', 0)
    ensures fresh(b) && fresh(b.node) && fresh(b.file) && fresh(b.index) && fresh(b.cache)
    ensures b.Valid() && b.Mirrored() && !b.indexing && b.file.disk.Working?
    ensures b.node.universe == TwoBranches(4) && b.node.chain == chain && b.node.steady && b.node.failing == {}
    ensures b.scanned == [Name('a', 0)] && b.cache.heightToHash == map[]
  {
    hide TwoBranches, Name, IsChain, BC.Consistent;
    TwoBranchesIsWellFormed(4);
    var node := new Node(TwoBranches(4), chain);
    var file := new CacheFile();
    var index := new ShieldIndex();
    var cache := new BC.BlockCache(1000);
    GenesisIsEmpty(chain);
    EmptyCacheFits(TwoBranches(4), [Name('a', 0)], 1000);
    b := new Bridge(node, file, index, cache, 0, [Name('a', 0)]);
  }

  lemma GenesisIsEmpty(chain: seq<Hash>)
    requires IsChain(TwoBranches(4), chain) && chain != [] && chain[0] == Name('a', 0)
    ensures AtHeights(TwoBranches(4), [Name('a', 0)]) && Shields(TwoBranches(4), [Name('a', 0)]) == []
    ensures EncodeStream([], PivxCompat) == [] && IndexOf([]) == []
  {
    var u, hs := TwoBranches(4), [Name('a', 0)];
    InBranches('a', 0, 4);
    assert hs[..0] == [] && Shields(u, []) == [];
    assert u[hs[0]].txs == [] && AllBytes([]) == [] && KeepAll([]) == [];
  }

  lemma EmptyCacheFits(u: Universe, scanned: seq<Hash>, capacity: nat)
    requires capacity >= 1
    ensures CacheFits(u, scanned, BC.Maps(map[], map[]), capacity)
  {
  }

  /** Level with branch a, of which `length` - 1 blocks carry shield data. */
  method LevelOnA(length: nat) returns (b: Bridge)
    requires 2 <= length <= 4
    ensures fresh(b) && fresh(b.node) && fresh(b.file) && fresh(b.index) && fresh(b.cache)
    ensures b.Level() && b.file.disk.Working? && b.node.universe == TwoBranches(4) && b.scanned == Branch('a', length)
  {
    hide TwoBranches, Name, IsChain, AtHeights, Shields, InStep, Listed, CacheFits, Outcome, Reachable;
    hide KeepsSameShields;
    hide KeysBelow;
    BranchIsChain('a', length, 4);
    b := Fresh(Branch('a', length));
    b.IndexNewBlocks();
    FirstOutcome(Branch('a', length));
  }

  lemma FirstOutcome(chain: seq<Hash>)
    requires |chain| >= 2
    ensures ScanStart({}, map[], [chain[0]], chain) == 1 && Outcome({}, map[], [chain[0]], chain) == chain
  {
    assert [chain[0]][..1] + [chain[1]] + chain[2..] == chain;
  }

  /** The tip is reached, with an orphan of branch a in place of the node's block, and no later pass undoes it. */
  ghost predicate HoldsOrphan(b: Bridge)
    reads b, b.node, b.index, b.cache
    requires b.Valid()
  {
    b.cursor == |b.node.chain| - 1 && Missed(b.cache.heightToHash, b.scanned, b.node.chain)
    && SampleBlock(1, 0) in b.Recorded()
  }

  lemma OrphanIsMissed(b: Bridge)
    requires b.Valid() && b.node.universe == TwoBranches(4) && |b.scanned| == |b.node.chain| >= 3
    requires b.node.chain == Branch('b', |b.node.chain|) && |b.node.chain| <= 4
    requires b.scanned[1] == Name('a', 1) && b.scanned[|b.scanned| - 1] == b.node.chain[|b.scanned| - 1]
    requires KeysBelow(b.cache.heightToHash, |b.scanned|)
    ensures HoldsOrphan(b)
    ensures b.Mirrored() ==> !b.Converged()
  {
    hide TwoBranches, Name, Shields, InStep, Listed, CacheFits, SampleBlock, Block.Shield;
    Parted(1, 1);
    var u, held, chain := b.node.universe, b.scanned, b.node.chain;
    ChainIsAtHeights(u, chain);
    OrphanStays(held, chain, 1, 4);
    Remembered(u, held, b.cache.State(), b.cache.capacity);
    InStepDetermines(u, held, chain, b.file.bytes, b.buffer, b.index.entries);
  }

  /** A pass that sees no reorganisation puts the one block above on top of what it has. */
  lemma UndetectedOutcome(failing: set<Call>, cached: map<nat, Hash>, scanned: seq<Hash>, chain: seq<Hash>)
    requires scanned != [] && |scanned| + 1 == |chain| && |scanned| !in cached
    requires !Detected(failing, cached, scanned, chain)
    ensures ScanStart(failing, cached, scanned, chain) == |scanned|
    ensures Outcome(failing, cached, scanned, chain) == scanned + [chain[|scanned|]]
  {
    assert scanned[..|scanned|] == scanned;
  }

  /** A restart empties the cache. A reorganisation of one block before the next scan is then not seen. */
  method ReorgAfterRestart() returns (b: Bridge)
    ensures b.Valid() && HoldsOrphan(b) && b.Mirrored() && !b.Converged()
  {
    hide TwoBranches, Name, IsChain, AtHeights, Shields, InStep, Listed, CacheFits, Outcome, Reachable;
    hide KeepsSameShields;
    hide SampleBlock, KeysBelow, HoldsOrphan;
    BranchIsChain('b', 3, 4);
    var before := LevelOnA(2);
    BufferIsFile(before.Recorded(), before.file.bytes, before.buffer, before.index.entries);
    var cache := new BC.BlockCache(1000);
    EmptyCacheFits(before.node.universe, before.scanned, 1000);
    b := new Bridge(before.node, before.file, before.index, cache, 1, before.scanned);
    b.node.Adopt(Branch('b', 3), {});
    b.IndexNewBlocks();
    UndetectedOutcome({}, map[], Branch('a', 2), Branch('b', 3));
    OrphanIsMissed(b);
  }

  lemma BufferIsFile(bs: seq<ShieldBlock>, file: seq<byte>, buffer: seq<byte>, entries: seq<IndexEntry>)
    requires InStep(bs, file, buffer, entries)
    ensures buffer == file
  {
  }

  /** Two heights scanned with a reorganisation in between: the second block's parent is not the first block. */
  method ScanAcrossReorg() returns (b: Bridge)
    ensures fresh(b) && fresh(b.node) && fresh(b.file) && fresh(b.index) && fresh(b.cache)
    ensures b.Valid() && b.Mirrored() && !b.indexing && b.file.disk.Working? && b.node.universe == TwoBranches(4)
    ensures b.scanned == [Name('a', 0), Name('a', 1), Name('b', 2)]
    ensures 2 in b.cache.heightToHash && 3 !in b.cache.heightToHash
  {
    hide TwoBranches, Name, IsChain, AtHeights, Shields, InStep, Listed, CacheFits;
    BranchIsChain('a', 3, 4);
    BranchIsChain('b', 3, 4);
    b := Fresh(Branch('a', 3));
    var _, _ := b.ScanNext(2);
    b.node.Adopt(Branch('b', 3), {});
    var _, _ := b.ScanNext(2);
  }

  /** The node reorganises between two heights of one pass. The forward loop does not compare parents. */
  method ReorgDuringPass() returns (b: Bridge)
    ensures b.Valid() && HoldsOrphan(b) && b.Mirrored() && !b.Converged()
  {
    hide TwoBranches, Name, IsChain, AtHeights, Shields, InStep, Listed, CacheFits, Outcome, Reachable;
    hide KeepsSameShields;
    hide SampleBlock, KeysBelow, HoldsOrphan;
    BranchIsChain('b', 4, 4);
    b := ScanAcrossReorg();
    b.node.Adopt(Branch('b', 4), {});
    ghost var c0, s0 := b.cache.heightToHash, b.scanned;
    Remembered(b.node.universe, s0, b.cache.State(), b.cache.capacity);
    b.IndexNewBlocks();
    UndetectedOutcome({}, c0, s0, Branch('b', 4));
    OrphanIsMissed(b);
  }

  /** The first block of branch a is scanned, and its append fails. */
  method ScanThenFailToAppend() returns (b: Bridge)
    ensures fresh(b) && fresh(b.node) && fresh(b.file) && fresh(b.index) && fresh(b.cache)
    ensures b.Valid() && b.node.universe == TwoBranches(4) && !b.indexing && b.scanned == [Name('a', 0)]
    ensures 1 in b.cache.heightToHash && b.cache.heightToHash[1] == Name('a', 1)
  {
    hide TwoBranches, Name, IsChain, AtHeights, Shields, InStep, Listed, CacheFits, SampleBlock, IndexOf, EncodeStream;
    hide BC.Consistent, WellFormed, Increasing, Heights;
    BranchIsChain('a', 2, 4);
    b := Fresh(Branch('a', 2));
    GenesisIsEmpty(Branch('a', 2));
    ShieldAt('a', 1, 4);
    var found, _ := b.ScanBlock(1, 1);
    b.file.disk := Failing;
    var _ := b.AppendBlock(found.value.value);
  }

  /**
   A block whose append failed stays in the cache, above the cursor. If the node reorganises before the retry, the
   cached hash is trusted and the orphan is recorded.
   */
  method ReorgAfterFailedAppend() returns (b: Bridge)
    ensures b.Valid() && HoldsOrphan(b)
  {
    hide TwoBranches, Name, IsChain, AtHeights, Shields, InStep, Listed, CacheFits, Outcome, Reachable;
    hide KeepsSameShields;
    hide SampleBlock, KeysBelow, HoldsOrphan;
    BranchIsChain('b', 3, 4);
    Parted(1, 1);
    b := ScanThenFailToAppend();
    b.file.disk := Working;
    b.node.Adopt(Branch('b', 3), {});
    ghost var c0 := b.cache.heightToHash;
    Remembered(b.node.universe, b.scanned, b.cache.State(), b.cache.capacity);
    b.IndexNewBlocks();
    StaleOutcome(c0, b.node.chain);
    OrphanIsMissed(b);
  }

  lemma StaleOutcome(cached: map<nat, Hash>, chain: seq<Hash>)
    requires |chain| == 3 && chain[0] == Name('a', 0) && 1 in cached && cached[1] == Name('a', 1)
    requires 0 in cached ==> cached[0] == chain[0]
    ensures ScanStart({}, cached, [Name('a', 0)], chain) == 1
    ensures Outcome({}, cached, [Name('a', 0)], chain) == [Name('a', 0), Name('a', 1), chain[2]]
  {
  }

  /** One call of the detection fails, and the forward loop goes on. */
  method ReorgWithFailingDetection() returns (b: Bridge)
    ensures b.Valid() && HoldsOrphan(b) && b.Mirrored() && !b.Converged()
  {
    hide TwoBranches, Name, IsChain, AtHeights, Shields, InStep, Listed, CacheFits, Outcome, Reachable;
    hide KeepsSameShields;
    hide SampleBlock, HoldsOrphan;
    BranchIsChain('b', 3, 4);
    b := LevelOnA(2);
    b.node.Adopt(Branch('b', 3), {BlockCall(Name('b', 2), 1)});
    ghost var c0 := b.cache.heightToHash;
    b.IndexNewBlocks();
    UndetectedOutcome(b.node.failing, c0, Branch('a', 2), Branch('b', 3));
    OrphanIsMissed(b);
  }

  /** One call of the walk fails, above the fork. */
  method ReorgWithFailingWalk() returns (b: Bridge)
    ensures b.Valid() && HoldsOrphan(b) && b.Mirrored() && !b.Converged()
  {
    hide TwoBranches, Name, IsChain, AtHeights, Shields, InStep, Listed, CacheFits, Outcome, Reachable;
    hide KeepsSameShields;
    hide SampleBlock, HoldsOrphan, ScanStart;
    BranchIsChain('b', 4, 4);
    Parted(2, 2);
    b := LevelOnA(3);
    b.node.Adopt(Branch('b', 4), {HashCall(1)});
    ghost var c0 := b.cache.heightToHash;
    Remembered(b.node.universe, b.scanned, b.cache.State(), b.cache.capacity);
    b.IndexNewBlocks();
    CutShortOutcome(c0, Branch('a', 3), Branch('b', 4));
    OrphanIsMissed(b);
  }

  lemma CutShortOutcome(cached: map<nat, Hash>, scanned: seq<Hash>, chain: seq<Hash>)
    requires |scanned| == 3 && |chain| == 4 && Remembers(cached, scanned) && 2 in cached && scanned[2] != chain[2]
    ensures ScanStart({HashCall(1)}, cached, scanned, chain) == 2
    ensures Outcome({HashCall(1)}, cached, scanned, chain) == scanned[..2] + chain[2..]
  {
    assert !StopsAt({HashCall(1)}, cached, chain, 2) && StopsAt({HashCall(1)}, cached, chain, 1);
    assert SearchFrom({HashCall(1)}, cached, chain, 2, 0) == SearchFrom({HashCall(1)}, cached, chain, 1, 0) == 2;
    assert [chain[2]] + chain[3..] == chain[2..];
  }

  /** The cut fails after the cache was invalidated: the cursor's hash is gone, and with it the detection. */
  method ReorgWithFailingCut() returns (b: Bridge)
    ensures b.Valid() && HoldsOrphan(b) && b.Mirrored() && !b.Converged()
  {
    hide TwoBranches, Name, IsChain, AtHeights, Shields, InStep, Listed, CacheFits, Outcome, Reachable;
    hide KeepsSameShields;
    hide SampleBlock, HoldsOrphan;
    BranchIsChain('b', 3, 4);
    b := LevelOnA(2);
    FirstIsIndexed(b);
    b.file.disk := Failing;
    var _ := b.RollBack(1);
    b.file.disk := Working;
    b.node.Adopt(Branch('b', 3), {});
    ghost var c0 := b.cache.heightToHash;
    b.IndexNewBlocks();
    UndetectedOutcome({}, c0, Branch('a', 2), Branch('b', 3));
    OrphanIsMissed(b);
  }

  lemma FirstIsIndexed(b: Bridge)
    requires b.Valid() && b.node.universe == TwoBranches(4) && b.scanned == Branch('a', 2)
    ensures OffsetForHeight(b.index.entries, 1).Some?
  {
    hide TwoBranches, Name, IsChain, CacheFits, SampleRaw, Shields, Block.Shield;
    ShieldAt('a', 1, 4);
    ShieldsContain(b.node.universe, b.scanned, 1);
    var bs := b.Recorded();
    var i :| 0 <= i < |bs| && bs[i] == SampleBlock(1, 0);
    assert b.index.entries[i].block == 1;
  }
}
