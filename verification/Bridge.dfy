/**
 One indexing pass of src/main.rs over the bridge's state: cache file, in-memory buffer, index, scan cursor and
 block cache. A ghost list holds the hash that was scanned at each height up to the cursor.
 */
module Bridge {
  import opened Wrappers
  import opened Bytes
  import opened Stream
  import opened Scanner
  import opened Cache
  import opened Index
  import opened Chain
  import opened RpcNode
  import opened ForkSearch
  import opened Serving
  import opened Client
  import BC = BlockCache

  // ---------------------------------------------------------------------------
  // The invariant, as predicates on values
  // ---------------------------------------------------------------------------

  /** Every reply is the node's for that block, and heights up to the cursor hold the hash that was scanned. */
  ghost predicate CacheFits(u: Universe, scanned: seq<Hash>, m: BC.Maps, capacity: nat) {
    && BC.Consistent(m) && |m.entries| <= capacity && 1 <= capacity
    && Genuine(u, m) && Remembers(m.heightToHash, scanned)
    && forall h <- m.heightToHash :: h <= |scanned|
  }

  ghost predicate Genuine(u: Universe, m: BC.Maps) {
    && (forall k <- m.entries ::
          k.0 in u && m.entries[k] == BC.CachedBlock(u[k.0].height, Json(u[k.0], None, None)))
    && (forall h <- m.heightToHash :: m.heightToHash[h] in u && u[m.heightToHash[h]].height == h)
  }

  /** The index names exactly the shield blocks of `bs`: nothing scanned was skipped. */
  ghost predicate Listed(entries: seq<IndexEntry>, bs: seq<ShieldBlock>) {
    |entries| == |bs| && forall i | 0 <= i < |bs| :: entries[i].block == bs[i].height
  }

  /** File and buffer hold the encoding of `bs`, and the index its offsets. */
  ghost predicate InStep(bs: seq<ShieldBlock>, file: seq<byte>, buffer: seq<byte>, entries: seq<IndexEntry>) {
    file == EncodeStream(bs, PivxCompat) && buffer == file && entries == IndexOf(bs)
  }

  // ---------------------------------------------------------------------------
  // Steps on values
  // ---------------------------------------------------------------------------

  lemma RollbackKeepsCacheFit(u: Universe, scanned: seq<Hash>, m: BC.Maps, capacity: nat, fork: nat)
    requires CacheFits(u, scanned, m, capacity) && fork <= |scanned|
    ensures CacheFits(u, scanned[..fork], BC.Invalidated(m, fork), capacity)
    ensures CacheFits(u, scanned, BC.Invalidated(m, fork), capacity)
    ensures forall h <- BC.Invalidated(m, fork).heightToHash :: h < fork
  {
    BC.InvalidationIsExact(m, fork);
  }

  lemma ListedCut(entries: seq<IndexEntry>, bs: seq<ShieldBlock>, kept: seq<ShieldBlock>, fork: nat)
    requires Listed(entries, bs) && kept <= bs
    requires forall i | |kept| <= i < |bs| :: bs[i].height >= fork
    requires forall b <- kept :: b.height < fork
    ensures PartitionPoint(entries, fork) == |kept|
    ensures Listed(entries[..|kept|], kept)
  {
    forall i | 0 <= i < |kept| ensures entries[i].block == kept[i].height < fork {
      assert kept[i] == bs[i] && kept[i] in kept;
    }
    PartitionPointIs(entries, fork, |kept|);
  }

  lemma PartitionPointIs(entries: seq<IndexEntry>, height: nat, p: nat)
    requires p <= |entries| && forall i | 0 <= i < p :: entries[i].block < height
    requires p < |entries| ==> entries[p].block >= height
    ensures PartitionPoint(entries, height) == p
  {
  }

  lemma InStepCut(bs: seq<ShieldBlock>, kept: seq<ShieldBlock>, file: seq<byte>, buffer: seq<byte>,
                  entries: seq<IndexEntry>)
    requires InStep(bs, file, buffer, entries) && kept <= bs
    ensures |kept| < |bs| ==>
              && entries[|kept|].i < |file|
              && InStep(kept, file[..entries[|kept|].i], buffer[..entries[|kept|].i], entries[..|kept|])
  {
    hide EncodeStream;
    if |kept| < |bs| {
      assert kept == bs[..|kept|];
      EncodedPrefix(bs, |kept|);
      IndexOfPrefix(bs, |kept|);
      NonEmptyStream(bs[|kept|..]);
    }
  }

  lemma InStepAppend(bs: seq<ShieldBlock>, b: ShieldBlock, file: seq<byte>, buffer: seq<byte>, entries: seq<IndexEntry>)
    requires InStep(bs, file, buffer, entries)
    ensures var bytes := EncodeStream([b], PivxCompat);
            InStep(bs + [b], file + bytes, buffer + bytes, entries + [IndexEntry(b.height, |file|)])
  {
    hide EncodeStream;
    EncodeStreamAppend(bs, [b], PivxCompat);
    IndexOfAppend(bs, b);
  }

  // ---------------------------------------------------------------------------
  // The bridge
  // ---------------------------------------------------------------------------

  class Bridge {
    const node: Node
    const file: CacheFile
    const index: ShieldIndex
    const cache: BC.BlockCache
    /** The build: which hex decoder the scanner uses. */
    const target: Hex.Target
    var buffer: seq<byte>
    /** `last_scanned_height`. */
    var cursor: nat
    var indexing: bool
    ghost var scanned: seq<Hash>

    /** Takes over whatever was loaded; it is valid if `scanned` are hashes that explain index and cursor. */
    constructor (node: Node, file: CacheFile, index: ShieldIndex, cache: BC.BlockCache, cursor: nat,
                 ghost scanned: seq<Hash>)
      ensures Valid() <==>
                && node.Valid() && index.Valid() && |scanned| == cursor + 1 && AtHeights(node.universe, scanned)
                && CacheFits(node.universe, scanned, cache.State(), cache.capacity)
                && Listed(index.entries, Shields(node.universe, scanned))
      ensures !indexing && buffer == file.bytes
      ensures this.node == node && this.file == file && this.index == index && this.cache == cache
      ensures this.cursor == cursor && this.scanned == scanned
    {
      this.node, this.file, this.index, this.cache := node, file, index, cache;
      this.buffer, this.cursor, this.indexing := file.bytes, cursor, false;
      this.scanned := scanned;
    }

    ghost predicate Valid()
      reads this, node, index, cache
    {
      && node.Valid() && index.Valid()
      && |scanned| == cursor + 1 && AtHeights(node.universe, scanned)
      && CacheFits(node.universe, scanned, cache.State(), cache.capacity)
      && Listed(index.entries, Recorded())
    }

    /** The shield blocks of everything scanned so far. */
    ghost function Recorded(): seq<ShieldBlock>
      reads this, node
      requires AtHeights(node.universe, scanned)
    {
      Shields(node.universe, scanned)
    }

    ghost predicate Mirrored()
      reads this, node, file, index
      requires AtHeights(node.universe, scanned)
    {
      InStep(Recorded(), file.bytes, buffer, index.entries)
    }

    /** A restart would load the index as it is. */
    ghost predicate Persisted()
      reads index
    {
      index.saved == index.entries
    }

    /** The cache's answer if it has one, else the node's, which the cache then keeps, once it has room. */
    method FetchBlock(hash: Hash, verbosity: nat, chainHeight: nat) returns (r: Option<BlockJson>)
      requires node.Valid()
      requires BC.Lookup(cache.State(), hash, verbosity, chainHeight).None? ==>
                |BC.Orphans(cache.State())| < cache.capacity
      modifies cache
      ensures
        var u, m, hit := node.universe, old(cache.State()), BC.Lookup(old(cache.State()), hash, verbosity, chainHeight);
        if hit.Some? then r == hit && cache.State() == m
        else if r.None? then cache.State() == m
        else && hash in u && Stripped(r.value) == Json(u[hash], None, None)
             && cache.State() == BC.Inserted(m, cache.capacity, hash, verbosity, r.value)
      ensures node.steady && hash in node.universe && BlockCall(hash, verbosity) !in node.failing ==> r.Some?
    {
      hide BC.Lookup, BC.Inserted, BC.Orphans;
      var cached := cache.Get(hash, verbosity, chainHeight);
      if cached.Some? { return cached; }
      r := node.GetBlock(hash, verbosity);
      if r.None? { return None; }
      BC.MissIsAbsent(cache.State(), hash, verbosity, chainHeight);
      cache.Insert(hash, verbosity, r.value);
    }

    /** The hash comes from the cache if it holds the height, else from the node. */
    method ScanBlock(height: nat, chainHeight: nat)
      returns (r: Result<Option<ShieldBlock>, ScanError>, ghost hash: Hash)
      requires Valid() && height == |scanned|
      modifies cache
      ensures Valid()
      ensures r.Ok? ==> hash in node.universe && node.universe[hash].height == height
      ensures r.Ok? ==> r.value == node.universe[hash].Shield() && cache.HashForHeight(height) == Some(hash)
      ensures r.Ok? && r.value.Some? ==> r.value.value.height == height
      ensures r.Ok? && r.value.Some? ==> r.value.value.time == node.universe[hash].time
      ensures node.steady && height < |node.chain| && r.Ok? ==>
                hash == NextHash(old(cache.heightToHash), node.chain, height)
      ensures node.steady && height < |node.chain| && ForwardSucceeds(node.failing, height) ==> r.Ok?
      ensures forall h <- cache.heightToHash ::
                h == |scanned| || (h in old(cache.heightToHash) && cache.heightToHash[h] == old(cache.heightToHash)[h])
    {
      hide AtHeights, Listed, Shields, ShieldOf, IsChain, WellFormed, Genuine, RawsOf, Rendered, AllBytes;
      hide BC.Consistent, BC.Lookup, BC.Inserted, BC.Orphans, BC.Insertable;
      var known := cache.HashForHeight(height);
      if known.None? {
        known := node.GetBlockHash(height);
      }
      if known.None? {
        hash := *;
        return Err(Rpc), hash;
      }
      var blockHash := known.value;
      hash := blockHash;
      ghost var u, m := node.universe, cache.State();
      KnownIsInsertable(u, scanned, m, cache.capacity, hash, height);
      var json := FetchBlock(blockHash, 2, chainHeight);
      if json.None? { return Err(Rpc), hash; }
      FetchKeepsFit(u, scanned, m, cache.State(), cache.capacity, hash, chainHeight, json.value);
      var h := match json.value.height case Some(v) => v case None => height;
      r := ScanBlockInner(target, json.value.tx, h, json.value.time);
      RenderedIsReadBack(target, u[hash].txs);
      FoundBlockIsTheNodes(u[hash]);
    }

    /**
     Appends to the file, then to the buffer whether or not the file took it, then to the index only if it did.
     The index gains the block exactly when the call reports success, and only then are all three still in step.
     */
    method AppendBlock(block: ShieldBlock) returns (appended: bool)
      requires Valid() && forall b <- Recorded() :: b.height < block.height
      modifies `buffer, file`bytes, file`failedAppends, index
      ensures index.Valid()
      ensures file.Faults() == old(file.Faults()) + if appended then 0 else 1
      ensures (file.disk.Working? ==> appended) && (file.disk.Failing? ==> !appended)
      ensures !appended ==> Valid() && index.entries == old(index.entries) && index.saved == old(index.saved)
      ensures appended && file.disk.Working? ==> Persisted()
      ensures appended ==> Listed(index.entries, Recorded() + [block])
      ensures buffer == old(buffer) + EncodeStream([block], PivxCompat)
      ensures |file.bytes| <= |old(file.bytes)| + |EncodeStream([block], PivxCompat)|
      ensures old(Mirrored()) ==> (appended <==> InStep(Recorded() + [block], file.bytes, buffer, index.entries))
      ensures appended ==> file.bytes == old(file.bytes) + EncodeStream([block], PivxCompat)
    {
      hide EncodeStream, CacheFits, AtHeights, Shields, InStep, Listed, IndexTriples;
      ghost var bs := Recorded();
      NotListed(index.entries, bs, block.height);
      if block.height in index.shieldHeights {
        return true;
      }
      var newBytes := EncodeShieldStream([block], PivxCompat);
      var cacheEntries := file.AppendBlocks([block]);
      buffer := buffer + newBytes;
      match cacheEntries
      case Some(entries) =>
        OneTriple(block, |old(file.bytes)|);
        index.Add(entries[0].0, entries[0].1);
        ListedAppend(old(index.entries), bs, block, |old(file.bytes)|);
        var _ := index.Save(file.disk);
        appended := true;
        InStepAppendIf(old(Mirrored()), bs, block, old(file.bytes), old(buffer), old(index.entries));
      case None =>
        PrefixLength(old(file.bytes), EncodeStream([block], PivxCompat), file.bytes);
        NotInStep(old(index.entries), bs, block, file.bytes, buffer);
        appended := false;
    }

    method FindForkPoint(height: nat) returns (fork: nat)
      requires Valid() && height >= 1
      ensures Limit(height) < fork <= height
      ensures 1 <= fork && height < fork + 1000
      ensures node.steady && height <= |node.chain| ==>
                fork == SearchFrom(node.failing, cache.heightToHash, node.chain, height - 1, Limit(height))
    {
      hide CacheFits, Listed, AtHeights, Shields;
      var limit := Limit(height);
      var h := height - 1;
      while h > limit
        invariant limit <= h || h == height - 1
        invariant h <= height - 1 && limit < height
        invariant node.steady && height <= |node.chain| ==>
                    (SearchFrom(node.failing, cache.heightToHash, node.chain, h, limit)
                     == SearchFrom(node.failing, cache.heightToHash, node.chain, height - 1, limit))
        decreases h - limit
      {
        var candidate := cache.HashForHeight(h);
        if candidate.None? {
          var nodeHash := node.GetBlockHash(h);
          if nodeHash.None? { return h + 1; }
          h := h - 1;
        } else {
          var nodeHash := node.GetBlockHash(h);
          if nodeHash.None? { return h + 1; }
          if nodeHash == candidate { return h + 1; }
          h := h - 1;
        }
      }
      fork := limit + 1;
    }

    /** Invalidates the cache, then cuts the rest of the state back to the same fork. */
    method RollBack(fork: nat) returns (ok: bool)
      requires Valid() && 1 <= fork <= |scanned|
      modifies `buffer, `cursor, `scanned, file`bytes, file`tornCuts, index, cache
      ensures Valid()
      ensures cache.State() == BC.Invalidated(old(cache.State()), fork)
      ensures KeysBelow(cache.heightToHash, fork)
      ensures file.disk.Working? ==> ok
      ensures file.disk.Failing? ==>
                (ok <==> OffsetForHeight(old(index.entries), fork).None?) && file.bytes == old(file.bytes)
      ensures scanned == if ok then old(scanned)[..fork] else old(scanned)
      ensures !ok ==> buffer == old(buffer) && unchanged(index)
      ensures file.disk.Working? && old(Persisted()) ==> Persisted()
      ensures file.Faults() == old(file.Faults()) + if !ok && file.bytes != old(file.bytes) then 1 else 0
      ensures old(Mirrored()) ==> (Mirrored() <==> ok || file.bytes == old(file.bytes))
      ensures old(Mirrored()) && !Mirrored() ==> |file.bytes| < |buffer|
    {
      hide EncodeStream, CacheFits, AtHeights, Shields, Listed, InStep;
      RollbackKeepsCacheFit(node.universe, scanned, cache.State(), cache.capacity, fork);
      cache.InvalidateFrom(fork);
      ok := CutBack(fork);
    }

    /**
     Cuts file, buffer, index and cursor back together, under their locks. When the call on the file fails, the
     other three stay, and all are still in step exactly when the file stayed too.
     */
    method CutBack(fork: nat) returns (ok: bool)
      requires Valid() && 1 <= fork <= |scanned|
      requires CacheFits(node.universe, scanned[..fork], cache.State(), cache.capacity)
      modifies `buffer, `cursor, `scanned, file`bytes, file`tornCuts, index
      ensures Valid()
      ensures file.disk.Working? ==> ok
      ensures file.disk.Failing? ==>
                (ok <==> OffsetForHeight(old(index.entries), fork).None?) && file.bytes == old(file.bytes)
      ensures scanned == if ok then old(scanned)[..fork] else old(scanned)
      ensures !ok ==> buffer == old(buffer) && unchanged(index)
      ensures file.disk.Working? && old(Persisted()) ==> Persisted()
      ensures file.Faults() == old(file.Faults()) + if !ok && file.bytes != old(file.bytes) then 1 else 0
      ensures old(Mirrored()) ==> (Mirrored() <==> ok || file.bytes == old(file.bytes))
      ensures old(Mirrored()) && !Mirrored() ==> |file.bytes| < |buffer|
    {
      hide EncodeStream, CacheFits, AtHeights, Shields, Listed, InStep, Increasing, Heights, WellFormed, IsChain;
      hide PartitionPoint;
      ghost var bs := Recorded();
      ghost var kept := KeptBlocks(node.universe, scanned, fork);
      ListedCut(index.entries, bs, kept, fork);
      var truncateOffset := OffsetForHeight(index.entries, fork);
      if truncateOffset.None? {
        cursor := fork - 1;
        scanned := scanned[..fork];
        NothingCut(index.entries, bs, kept);
        return true;
      }
      ghost var before, mirrored := file.bytes, Mirrored();
      InStepCutIf(mirrored, bs, kept, file.bytes, buffer, index.entries);
      ok := file.TruncateTo(truncateOffset.value);
      if !ok {
        if mirrored && file.bytes != before {
          NothingAppended(bs, file.bytes, buffer, index.entries);
        }
        return;
      }
      buffer := if truncateOffset.value <= |buffer| then buffer[..truncateOffset.value] else buffer;
      index.RemoveFrom(fork);
      var _ := index.Save(file.disk);
      cursor := fork - 1;
      scanned := scanned[..fork];
    }

    /** Compares the parent of the block above the cursor with the cache, and rolls back if they differ. */
    method CheckReorg()
      requires Valid()
      modifies `buffer, `cursor, `scanned, file`bytes, file`failedAppends, file`tornCuts, index, cache
      ensures Valid()
      ensures scanned <= old(scanned) && Limit(|old(scanned)|) < |scanned|
      ensures |old(scanned)| - 1 !in old(cache.heightToHash) ==> scanned == old(scanned)
      ensures file.Faults() >= old(file.Faults()) && (file.disk.Working? ==> file.Faults() == old(file.Faults()))
      ensures file.disk.Working? && old(Persisted()) ==> Persisted()
      ensures old(Mirrored()) ==> (Mirrored() <==> file.Faults() == old(file.Faults()))
      ensures old(Mirrored()) && !Mirrored() ==> |file.bytes| < |buffer|
      ensures node.steady && file.disk.Working? && |old(scanned)| < |node.chain| ==>
                var e, c0, s0 := node.failing, old(cache.heightToHash), old(scanned);
                && scanned == s0[..ScanStart(e, c0, s0, node.chain)]
                && ForwardOutcome(cache.heightToHash, scanned, node.chain) == Outcome(e, c0, s0, node.chain)
    {
      hide EncodeStream, CacheFits, AtHeights, Shields, InStep, Listed, WellFormed, SearchFrom;
      assert CacheFits(node.universe, scanned, cache.State(), cache.capacity);
      KeysWithin(node.universe, scanned, cache.State(), cache.capacity);
      ghost var s0, c0, c := scanned, cache.heightToHash, node.chain;
      var scanFrom := cursor + 1;
      var newHash := node.GetBlockHash(scanFrom);
      if newHash.None? { return; }
      var newBlock := node.GetBlock(newHash.value, 1);
      if newBlock.None? { return; }
      var prev := newBlock.value.previousblockhash;
      assert prev == Stripped(newBlock.value).previousblockhash == Some(node.universe[newHash.value].prev);
      if prev.None? { return; }
      if cache.DetectReorg(scanFrom, prev.value) {
        var fork := FindForkPoint(scanFrom);
        var _ := RollBack(fork);
      }
    }

    /** One turn of the forward loop, for the height above the cursor. */
    method ScanNext(chainHeight: nat) returns (advanced: bool, empty: bool)
      requires Valid()
      modifies `buffer, `cursor, `scanned, file`bytes, file`failedAppends, file`tornCuts, index, cache
      ensures Valid()
      ensures advanced ==> |scanned| == |old(scanned)| + 1 && old(scanned) <= scanned
      ensures advanced ==> |old(scanned)| in cache.heightToHash
      ensures !advanced ==> scanned == old(scanned) && index.entries == old(index.entries)
      ensures advanced ==> file.Faults() == old(file.Faults())
      ensures file.Faults() >= old(file.Faults()) && (file.disk.Working? ==> file.Faults() == old(file.Faults()))
      ensures !advanced || empty ==> index.entries == old(index.entries) && index.saved == old(index.saved)
      ensures advanced && !empty && file.disk.Working? ==> Persisted()
      ensures old(Mirrored()) ==> (Mirrored() <==> file.Faults() == old(file.Faults()))
      ensures |old(file.bytes)| < |old(buffer)| ==> |file.bytes| < |buffer|
      ensures forall h <- cache.heightToHash :: h == |old(scanned)| || h in old(cache.heightToHash)
      ensures node.steady && |old(scanned)| < |node.chain| && advanced ==>
                scanned == old(scanned) + [NextHash(old(cache.heightToHash), node.chain, |old(scanned)|)]
      ensures node.steady && file.disk.Working? && |old(scanned)| < |node.chain| ==>
                (ForwardSucceeds(node.failing, |old(scanned)|) ==> advanced)
    {
      hide EncodeStream, CacheFits, AtHeights, Shields, InStep, Listed, WellFormed, IsChain;
      var target := cursor + 1;
      ghost var bs, u, before := Recorded(), node.universe, cache.State();
      var found, hash := ScanBlock(target, chainHeight);
      if found.Err? {
        return false, false;
      }
      AdvanceKeepsFit(u, scanned, cache.State(), cache.capacity, hash);
      ShieldsStep(u, scanned, hash);
      if found.value.Some? {
        var block := found.value.value;
        ShieldsAreOrdered(u, scanned);
        ScannerHeight(u[hash]);
        BufferOutgrows(Mirrored(), bs, block, file.bytes, buffer, index.entries);
        ghost var mirrored := Mirrored();
        var appended := AppendBlock(block);
        if !appended {
          if mirrored { NothingAppended(bs, file.bytes, buffer, index.entries); }
          return false, false;
        }
      } else {
        assert bs + [] == bs;
      }
      cursor := target;
      scanned := scanned + [hash];
      advanced, empty := true, found.value.None?;
    }

    /**
     The forward loop: one height at a time, stopping at the first that cannot be scanned or appended. The index is
     saved once more if the last height reached was empty.
     */
    method ScanForward(chainHeight: nat)
      requires Valid() && cursor < chainHeight
      modifies `buffer, `cursor, `scanned, file`bytes, file`failedAppends, file`tornCuts, index, cache
      ensures Valid() && old(scanned) <= scanned
      ensures file.Faults() >= old(file.Faults()) && (file.disk.Working? ==> file.Faults() == old(file.Faults()))
      ensures file.disk.Working? && (old(Persisted()) || old(scanned) < scanned) ==> Persisted()
      ensures old(Mirrored()) ==> (Mirrored() <==> file.Faults() == old(file.Faults()))
      ensures |old(file.bytes)| < |old(buffer)| ==> |file.bytes| < |buffer|
      ensures node.steady && chainHeight == |node.chain| - 1 ==>
                scanned <= ForwardOutcome(old(cache.heightToHash), old(scanned), node.chain)
      ensures node.steady && file.disk.Working? && chainHeight == |node.chain| - 1 ==>
                (ForwardSucceeds(node.failing, |old(scanned)|) ==>
                   && |scanned| == |node.chain|
                   && |scanned| - 1 in cache.heightToHash && KeysBelow(cache.heightToHash, |scanned|))
    {
      hide EncodeStream, CacheFits, AtHeights, Shields, InStep, Listed, WellFormed, IsChain, ForwardOutcome, KeysBelow;
      var needsPersist := ScanHeights(chainHeight);
      if needsPersist {
        var _ := index.Save(file.disk);
      }
    }

    method ScanHeights(chainHeight: nat) returns (needsPersist: bool)
      requires Valid() && cursor < chainHeight
      modifies `buffer, `cursor, `scanned, file`bytes, file`failedAppends, file`tornCuts, index, cache
      ensures Valid() && old(scanned) <= scanned
      ensures file.Faults() >= old(file.Faults()) && (file.disk.Working? ==> file.Faults() == old(file.Faults()))
      ensures file.disk.Working? && (old(Persisted()) || old(scanned) < scanned) ==> needsPersist || Persisted()
      ensures old(Mirrored()) ==> (Mirrored() <==> file.Faults() == old(file.Faults()))
      ensures |old(file.bytes)| < |old(buffer)| ==> |file.bytes| < |buffer|
      ensures node.steady && chainHeight == |node.chain| - 1 ==>
                scanned <= ForwardOutcome(old(cache.heightToHash), old(scanned), node.chain)
      ensures node.steady && file.disk.Working? && chainHeight == |node.chain| - 1 ==>
                (ForwardSucceeds(node.failing, |old(scanned)|) ==>
                   && |scanned| == |node.chain|
                   && |scanned| - 1 in cache.heightToHash && KeysBelow(cache.heightToHash, |scanned|))
    {
      hide EncodeStream, CacheFits, AtHeights, Shields, InStep, Listed, WellFormed, IsChain, ForwardOutcome, NextHash;
      hide KeysBelow;
      ghost var s0, c0, c := scanned, cache.heightToHash, node.chain;
      ghost var fixed := node.steady && chainHeight == |c| - 1;
      KeysWithin(node.universe, scanned, cache.State(), cache.capacity);
      if fixed { ForwardStarts(c0, s0, c); }
      needsPersist := false;
      while cursor < chainHeight
        invariant Valid() && s0 <= scanned
        invariant file.Faults() == old(file.Faults())
        invariant file.disk.Working? && (old(Persisted()) || s0 < scanned) ==> needsPersist || Persisted()
        invariant old(Mirrored()) ==> Mirrored()
        invariant |old(file.bytes)| < |old(buffer)| ==> |file.bytes| < |buffer|
        invariant fixed ==> |scanned| <= |c| && scanned <= ForwardOutcome(c0, s0, c)
        invariant KeysBelow(cache.heightToHash, |scanned| + 1)
        invariant if |scanned| == |s0| then cache.heightToHash == c0
                  else |scanned| - 1 in cache.heightToHash && KeysBelow(cache.heightToHash, |scanned|)
        decreases chainHeight - cursor
      {
        ghost var before, keys := scanned, cache.heightToHash;
        var advanced, empty;
        advanced, empty := ScanNext(chainHeight);
        if !advanced { break; }
        needsPersist := empty;
        KeysAdvance(keys, cache.heightToHash, |before|);
        if fixed { ForwardStep(c0, s0, c, before, keys); }
      }
    }

    /** The body of `index_new_blocks` behind the gate. */
    method Pass()
      requires Valid()
      modifies `buffer, `cursor, `scanned, file`bytes, file`failedAppends, file`tornCuts, index, cache
      ensures Valid()
      ensures old(scanned)[..Limit(|old(scanned)|) + 1] <= scanned
      ensures |old(scanned)| - 1 !in old(cache.heightToHash) ==> old(scanned) <= scanned
      ensures file.Faults() >= old(file.Faults()) && (file.disk.Working? ==> file.Faults() == old(file.Faults()))
      ensures file.disk.Working? && old(Persisted()) ==> Persisted()
      ensures old(Mirrored()) ==> (Mirrored() <==> file.Faults() == old(file.Faults()))
      ensures node.steady && (|node.chain| <= |old(scanned)| || CountCall in node.failing) ==>
                scanned == old(scanned) && buffer == old(buffer)
      ensures Scannable() && |old(scanned)| < |node.chain| ==>
                var e, c0, s0 := node.failing, old(cache.heightToHash), old(scanned);
                && scanned <= Outcome(e, c0, s0, node.chain)
                && (ForwardSucceeds(e, ScanStart(e, c0, s0, node.chain)) ==>
                      && |scanned| == |node.chain|
                      && |scanned| - 1 in cache.heightToHash && KeysBelow(cache.heightToHash, |scanned|))
    {
      hide EncodeStream, CacheFits, AtHeights, Shields, InStep, Listed, WellFormed, IsChain, SearchFrom;
      var count := node.GetBlockCount();
      if count.None? { return; }
      var chainHeight := count.value;
      if cursor + 1 > chainHeight { return; }
      CheckReorg();
      if cursor + 1 > chainHeight { return; }
      ghost var short := |file.bytes| < |buffer|;
      ScanForward(chainHeight);
      if short {
        NothingAppended(Recorded(), file.bytes, buffer, index.entries);
      }
    }

    /** The node stays on its chain and answers how high it is, and the disk works. */
    ghost predicate Scannable()
      reads node, file
    {
      node.steady && CountCall !in node.failing && file.disk.Working?
    }

    /** File, buffer, index and cursor are what a fresh scan of the node's chain would have produced. */
    ghost predicate Converged()
      reads this, node, file, index
      requires node.Valid()
    {
      && cursor == |node.chain| - 1
      && InStep(Shields(node.universe, node.chain), file.bytes, buffer, index.entries)
    }

    /**
     One call of the indexer. Whatever fails, nothing scanned is ever missing from the index, and at most the search
     window is undone, only if the cursor's hash was cached. File, buffer and index stay in step exactly when no
     append failed and no failed cut shortened the file. Against a fixed longer chain, whatever calls fail in
     detection and search as long as those of the forward loop do not, the call ends in the state of a fresh scan
     exactly when no block it keeps carries other shield data than the node's, and with the node's hashes exactly when
     the chain was reachable.
     */
    method IndexNewBlocks()
      requires Valid()
      modifies this, file`bytes, file`failedAppends, file`tornCuts, index, cache
      ensures Valid() && indexing == old(indexing)
      ensures old(indexing) ==> scanned == old(scanned) && buffer == old(buffer) && unchanged(file, index, cache)
      ensures old(scanned)[..Limit(|old(scanned)|) + 1] <= scanned
      ensures |old(scanned)| - 1 !in old(cache.heightToHash) ==> old(scanned) <= scanned
      ensures file.Faults() >= old(file.Faults()) && (file.disk.Working? ==> file.Faults() == old(file.Faults()))
      ensures file.disk.Working? && old(Persisted()) ==> Persisted()
      ensures old(Mirrored()) ==> (Mirrored() <==> file.Faults() == old(file.Faults()))
      ensures node.steady && (|node.chain| <= |old(scanned)| || CountCall in node.failing) ==>
                scanned == old(scanned) && buffer == old(buffer)
      ensures !old(indexing) && Scannable() && |old(scanned)| < |node.chain| ==>
          var u, e, c0, s0, c := node.universe, node.failing, old(cache.heightToHash), old(scanned), node.chain;
          && scanned <= Outcome(e, c0, s0, c)
          && (ForwardSucceeds(e, ScanStart(e, c0, s0, c)) ==>
                && scanned == Outcome(e, c0, s0, c)
                && (scanned == c <==> Reachable(e, c0, s0, c))
                && (old(Mirrored()) ==> (Converged() <==> KeepsSameShields(u, e, c0, s0, c)))
                && (old(Mirrored()) && Reachable(e, c0, s0, c) ==> Converged())
                && |scanned| - 1 in cache.heightToHash && KeysBelow(cache.heightToHash, |scanned|))
      ensures !old(indexing) && Scannable() && node.failing == {} && |old(scanned)| < |node.chain| ==>
          (SmallReorg(node.universe, old(cache.heightToHash), old(scanned), node.chain) ==>
             scanned == node.chain && (old(Mirrored()) ==> Converged()))
    {
      hide EncodeStream, CacheFits, AtHeights, Shields, InStep, Listed, Remembers, WellFormed, Increasing, Heights;
      hide Outcome, ScanStart, Reachable, KeepsSameShields, KeysBelow, IsChain, ForwardSucceeds, SmallReorg;
      if indexing { return; }
      indexing := true;
      ghost var u, e, c0, s0, c := node.universe, node.failing, cache.heightToHash, scanned, node.chain;
      Remembered(u, scanned, cache.State(), cache.capacity);
      Pass();
      if |s0| < |c| {
        if scanned == Outcome(e, c0, s0, c) {
          Verdict(u, e, c0, s0, c, file.bytes, buffer, index.entries);
        }
        SmallReorgIsCovered(u, e, c0, s0, c);
      }
      indexing := false;
    }

    /**
     Calls of the indexer, the node behaving differently at each and the disk as `disks` says, then one without errors
     against `chain`. The run ends at the tip, and in step unless an append failed or a failed cut shortened the file.
     */
    method Run(disks: seq<Disk>, chain: seq<Hash>)
      requires Valid() && !indexing && IsChain(node.universe, chain) && chain != []
      modifies this, node, file, index, cache
      ensures Valid() && !indexing && node.chain == chain
      ensures cursor >= |chain| - 1
      ensures file.Faults() >= old(file.Faults())
      ensures (forall disk <- disks :: disk.Working?) ==> file.Faults() == old(file.Faults())
      ensures old(Mirrored()) && file.Faults() == old(file.Faults()) ==> Mirrored()
    {
      hide EncodeStream, CacheFits, AtHeights, Shields, InStep, Listed, WellFormed, IsChain, Outcome, ScanStart;
      for i := 0 to |disks|
        invariant Valid() && !indexing
        invariant file.Faults() >= old(file.Faults())
        invariant (forall disk <- disks :: disk.Working?) ==> file.Faults() == old(file.Faults())
        invariant old(Mirrored()) && file.Faults() == old(file.Faults()) ==> Mirrored()
      {
        node.Churn();
        file.disk := disks[i];
        assert disks[i] in disks;
        IndexNewBlocks();
      }
      node.Adopt(chain, {});
      file.disk := Working;
      IndexNewBlocks();
    }

    /** The bridge is level with the node, and its cache can tell when the node leaves its chain. */
    ghost predicate Level()
      reads this, node, file, index, cache
    {
      && Valid() && !indexing && Mirrored() && scanned == node.chain
      && |scanned| - 1 in cache.heightToHash && KeysBelow(cache.heightToHash, |scanned|)
    }

    /** Error-free calls against ever longer chains, each parting from the one before inside the search window. */
    method Follow(chains: seq<seq<Hash>>)
      requires Level() && file.disk.Working?
      requires forall c <- chains :: IsChain(node.universe, c)
      requires chains != [] ==> Follows(node.chain, chains[0])
      requires forall i | 0 < i < |chains| :: Follows(chains[i - 1], chains[i])
      modifies this, node, file`bytes, file`failedAppends, file`tornCuts, index, cache
      ensures Level() && Converged()
      ensures node.chain == if chains == [] then old(node.chain) else chains[|chains| - 1]
    {
      hide EncodeStream, CacheFits, AtHeights, Shields, InStep, Listed, WellFormed, IsChain, Outcome, ScanStart;
      hide Reachable, KeepsSameShields, Follows;
      for i := 0 to |chains|
        invariant Level() && file.disk.Working?
        invariant node.chain == if i == 0 then old(node.chain) else chains[i - 1]
      {
        Remembered(node.universe, scanned, cache.State(), cache.capacity);
        assert chains[i] in chains;
        FollowerIsReachable(node.universe, cache.heightToHash, scanned, chains[i]);
        node.Adopt(chains[i], {});
        IndexNewBlocks();
      }
    }

    /** Calls against ever longer chains on top of a tip that hides a missed reorganisation undo nothing. */
    method StayMissed(chains: seq<seq<Hash>>)
      requires Valid() && !indexing && file.disk.Working? && Missed(cache.heightToHash, scanned, node.chain)
      requires forall c <- chains :: IsChain(node.universe, c)
      requires chains != [] ==> node.chain < chains[0]
      requires forall i | 0 < i < |chains| :: chains[i - 1] < chains[i]
      modifies this, node, file`bytes, file`failedAppends, file`tornCuts, index, cache
      ensures Valid() && !indexing && old(scanned) <= scanned && Missed(cache.heightToHash, scanned, node.chain)
      ensures node.chain == if chains == [] then old(node.chain) else chains[|chains| - 1]
    {
      hide EncodeStream, CacheFits, AtHeights, Shields, InStep, Listed, WellFormed, IsChain, Outcome, ScanStart;
      hide Reachable, KeepsSameShields, Missed, KeysBelow;
      for i := 0 to |chains|
        invariant Valid() && !indexing && file.disk.Working? && old(scanned) <= scanned
        invariant Missed(cache.heightToHash, scanned, node.chain)
        invariant node.chain == if i == 0 then old(node.chain) else chains[i - 1]
      {
        assert chains[i] in chains;
        ghost var c0, s0, c := cache.heightToHash, scanned, node.chain;
        MissedIsShorter(c0, s0, c, chains[i]);
        MissedForGood({}, c0, s0, c, chains[i]);
        node.Adopt(chains[i], {});
        IndexNewBlocks();
        Remembered(node.universe, scanned, cache.State(), cache.capacity);
        StillMissed(c0, s0, c, chains[i], cache.heightToHash);
      }
    }

    /** `getshielddata` between calls of the indexer. */
    method Serve(start: nat, format: StreamFormat) returns (reply: seq<byte>)
      requires Valid()
      ensures Mirrored() ==> reply == EncodeStream(BlocksFrom(Recorded(), start), format)
    {
      reply := GetShieldData(index, buffer, start, format);
      if Mirrored() {
        ShieldsAreOrdered(node.universe, scanned);
        ServedSliceIsFilteredStream(Recorded(), start, format);
      }
    }

    /** `getshielddatalength` between calls of the indexer. */
    method ServeLength(start: nat, end: nat, format: StreamFormat) returns (length: Option<nat>)
      requires Valid()
      ensures Mirrored() ==> length == Some(|EncodeStream(BlocksIn(Recorded(), start, end + 1), format)|)
    {
      hide EncodeStream, BlocksIn, ReplyLength;
      length := GetShieldDataLength(index, buffer, start, end, format);
      if Mirrored() {
        ShieldsAreOrdered(node.universe, scanned);
        LengthAgreesWithStream(Recorded(), start, end, format);
      }
    }
  }

  /** Longer, over the same genesis block, and replacing fewer than 1000 blocks. */
  ghost predicate Follows(before: seq<Hash>, next: seq<Hash>) {
    |before| < |next| && 0 < ForkHeight(before, next) && |before| < ForkHeight(before, next) + 1000
  }

  lemma FollowerIsReachable(u: Universe, cached: map<nat, Hash>, scanned: seq<Hash>, chain: seq<Hash>)
    requires IsChain(u, scanned) && IsChain(u, chain) && Follows(scanned, chain) && scanned != []
    requires Remembers(cached, scanned) && |scanned| - 1 in cached && KeysBelow(cached, |scanned|)
    ensures |scanned| < |chain| && Reachable({}, cached, scanned, chain)
  {
    hide IsChain, ForkHeight, Reachable, KeysBelow;
    NotAhead(cached, |scanned|);
    SmallReorgIsUndone(u, cached, scanned, chain);
  }

  lemma SmallReorgIsCovered(u: Universe, failing: set<Call>, cached: map<nat, Hash>, scanned: seq<Hash>,
                            chain: seq<Hash>)
    requires Remembers(cached, scanned) && scanned != [] && |scanned| < |chain|
    ensures failing == {} && SmallReorg(u, cached, scanned, chain) ==>
              && ForwardSucceeds(failing, ScanStart(failing, cached, scanned, chain))
              && Reachable(failing, cached, scanned, chain)
  {
    hide SmallReorg, Reachable, Remembers, ScanStart;
    if failing == {} && SmallReorg(u, cached, scanned, chain) {
      SmallReorgIsUndone(u, cached, scanned, chain);
    }
  }

  lemma NotAhead(cached: map<nat, Hash>, n: nat)
    requires KeysBelow(cached, n)
    ensures n !in cached
  {
  }

  lemma MissedIsShorter(cached: map<nat, Hash>, held: seq<Hash>, chain: seq<Hash>, next: seq<Hash>)
    requires Missed(cached, held, chain) && chain < next
    ensures held != [] && |held| < |next|
  {
  }

  lemma StillMissed(cached: map<nat, Hash>, held: seq<Hash>, chain: seq<Hash>, next: seq<Hash>, after: map<nat, Hash>)
    requires Missed(cached, held, chain) && chain < next
    requires Remembers(after, held + next[|held|..]) && KeysBelow(after, |next|)
    ensures Missed(after, held + next[|held|..], next)
  {
    MissedForGood({}, cached, held, chain, next);
  }

  /** What the three hold while in step for one scan tells whether another scan would have left the same. */
  lemma InStepDetermines(u: Universe, scanned: seq<Hash>, chain: seq<Hash>, file: seq<byte>, buffer: seq<byte>,
                         entries: seq<IndexEntry>)
    requires WellFormed(u) && AtHeights(u, scanned) && AtHeights(u, chain)
    ensures InStep(Shields(u, scanned), file, buffer, entries) ==>
              (InStep(Shields(u, chain), file, buffer, entries) <==> Shields(u, scanned) == Shields(u, chain))
  {
    hide EncodeStream, Shields, IndexOf;
    ShieldsAreOrdered(u, scanned);
    ShieldsAreOrdered(u, chain);
    StoredIsInjective(Shields(u, scanned), Shields(u, chain));
  }

  /** What a finished call has come to, from the state before it. */
  lemma Verdict(u: Universe, failing: set<Call>, cached: map<nat, Hash>, scanned: seq<Hash>, chain: seq<Hash>,
                file: seq<byte>, buffer: seq<byte>, entries: seq<IndexEntry>)
    requires WellFormed(u) && IsChain(u, chain) && Remembers(cached, scanned) && scanned != [] && |scanned| < |chain|
    requires AtHeights(u, Outcome(failing, cached, scanned, chain))
    ensures Outcome(failing, cached, scanned, chain) == chain <==> Reachable(failing, cached, scanned, chain)
    ensures InStep(Shields(u, Outcome(failing, cached, scanned, chain)), file, buffer, entries) ==>
              && (InStep(Shields(u, chain), file, buffer, entries)
                  <==> KeepsSameShields(u, failing, cached, scanned, chain))
              && (Reachable(failing, cached, scanned, chain) ==> InStep(Shields(u, chain), file, buffer, entries))
  {
    hide InStep, Shields, Outcome, Reachable, KeepsSameShields, Remembers, WellFormed;
    PassConvergesExactlyWhen(failing, cached, scanned, chain);
    RecordsAgreeExactlyWhen(u, failing, cached, scanned, chain);
    InStepDetermines(u, Outcome(failing, cached, scanned, chain), chain, file, buffer, entries);
  }

  /** The hash a scan of height `h` uses. */
  ghost function NextHash(cached: map<nat, Hash>, chain: seq<Hash>, h: nat): Hash
    requires h < |chain|
  {
    if h in cached then cached[h] else chain[h]
  }

  lemma KeysWithin(u: Universe, scanned: seq<Hash>, m: BC.Maps, capacity: nat)
    requires CacheFits(u, scanned, m, capacity)
    ensures KeysBelow(m.heightToHash, |scanned| + 1)
  {
  }

  lemma KeysAdvance(before: map<nat, Hash>, after: map<nat, Hash>, n: nat)
    requires KeysBelow(before, n + 1) && forall h <- after :: h == n || h in before
    ensures KeysBelow(after, n + 1) && KeysBelow(after, n + 2)
  {
  }

  /** The hashes scanned once the forward loop reaches the tip of `chain`. */
  ghost function ForwardOutcome(cached: map<nat, Hash>, scanned: seq<Hash>, chain: seq<Hash>): (r: seq<Hash>)
    requires |scanned| < |chain|
    ensures |r| == |chain|
  {
    scanned + [NextHash(cached, chain, |scanned|)] + chain[|scanned| + 1..]
  }

  ghost predicate KeysBelow(cached: map<nat, Hash>, n: nat) {
    forall h <- cached :: h < n
  }

  lemma ForwardStarts(c0: map<nat, Hash>, s0: seq<Hash>, c: seq<Hash>)
    requires |s0| < |c|
    ensures s0 <= ForwardOutcome(c0, s0, c)
  {
  }

  /** One more height of the forward loop. */
  lemma ForwardStep(c0: map<nat, Hash>, s0: seq<Hash>, c: seq<Hash>, scanned: seq<Hash>, cached: map<nat, Hash>)
    requires |s0| <= |scanned| < |c| && scanned <= ForwardOutcome(c0, s0, c)
    requires if |scanned| == |s0| then cached == c0 else KeysBelow(cached, |scanned|)
    ensures scanned + [NextHash(cached, c, |scanned|)] <= ForwardOutcome(c0, s0, c)
  {
    var r, n := ForwardOutcome(c0, s0, c), |scanned|;
    assert r[n] == if n == |s0| then NextHash(c0, c, n) else c[n];
  }

  lemma Remembered(u: Universe, scanned: seq<Hash>, m: BC.Maps, capacity: nat)
    requires CacheFits(u, scanned, m, capacity)
    ensures Remembers(m.heightToHash, scanned)
  {
  }

  lemma AdvanceKeepsFit(u: Universe, scanned: seq<Hash>, m: BC.Maps, capacity: nat, hash: Hash)
    requires CacheFits(u, scanned, m, capacity)
    requires |scanned| in m.heightToHash && m.heightToHash[|scanned|] == hash
    ensures CacheFits(u, scanned + [hash], m, capacity)
  {
  }

  lemma NothingAppended(bs: seq<ShieldBlock>, file: seq<byte>, buffer: seq<byte>, entries: seq<IndexEntry>)
    requires |file| < |buffer| || |buffer| > |EncodeStream(bs, PivxCompat)|
    ensures !InStep(bs, file, buffer, entries)
  {
  }

  lemma BufferOutgrows(premise: bool, bs: seq<ShieldBlock>, b: ShieldBlock, file: seq<byte>, buffer: seq<byte>,
                       entries: seq<IndexEntry>)
    requires premise ==> InStep(bs, file, buffer, entries)
    ensures premise ==> |buffer + EncodeStream([b], PivxCompat)| > |EncodeStream(bs, PivxCompat)|
  {
    hide EncodeStream;
    NonEmptyStream([b]);
  }

  lemma HitIsGenuine(u: Universe, m: BC.Maps, hash: Hash, verbosity: nat, chainHeight: nat)
    requires BC.Consistent(m) && Genuine(u, m) && BC.Lookup(m, hash, verbosity, chainHeight).Some?
    ensures hash in u && Stripped(BC.Lookup(m, hash, verbosity, chainHeight).value) == Json(u[hash], None, None)
    ensures u[hash].height in m.heightToHash && m.heightToHash[u[hash].height] == hash
  {
  }

  lemma InsertKeepsFit(u: Universe, scanned: seq<Hash>, m: BC.Maps, capacity: nat, hash: Hash, json: BlockJson)
    requires CacheFits(u, scanned, m, capacity) && (hash, 2) !in m.entries
    requires hash in u && u[hash].height == |scanned| && BC.Insertable(m, hash, |scanned|)
    requires Stripped(json) == Json(u[hash], None, None)
    requires |BC.Orphans(m)| < capacity
    ensures var m' := BC.Inserted(m, capacity, hash, 2, json);
            && CacheFits(u, scanned, m', capacity)
            && |scanned| in m'.heightToHash && m'.heightToHash[|scanned|] == hash
            && forall h <- m'.heightToHash ::
                 h == |scanned| || (h in m.heightToHash && m'.heightToHash[h] == m.heightToHash[h])
  {
    hide BC.Consistent, BC.Orphans, BC.Without;
    BC.InsertKeepsRegime(m, capacity, hash, 2, json);
    var gone := BC.EvictUntilRemovesLowest(m, capacity);
    hide BC.EvictUntil;
    PutKeepsGenuine(u, m, gone, hash, json);
  }

  /** What `fetch_block` does to the cache when the scanner asks for the block above the cursor. */
  lemma FetchKeepsFit(u: Universe, scanned: seq<Hash>, m: BC.Maps, after: BC.Maps, capacity: nat, hash: Hash,
                      chainHeight: nat, json: BlockJson)
    requires CacheFits(u, scanned, m, capacity)
    requires hash in u && u[hash].height == |scanned| && BC.Insertable(m, hash, |scanned|) && |BC.Orphans(m)| < capacity
    requires var hit := BC.Lookup(m, hash, 2, chainHeight);
             if hit.Some? then hit.value == json && after == m
             else Stripped(json) == Json(u[hash], None, None) && after == BC.Inserted(m, capacity, hash, 2, json)
    ensures CacheFits(u, scanned, after, capacity)
    ensures Stripped(json) == Json(u[hash], None, None)
    ensures |scanned| in after.heightToHash && after.heightToHash[|scanned|] == hash
    ensures forall h <- after.heightToHash ::
              h == |scanned| || (h in m.heightToHash && after.heightToHash[h] == m.heightToHash[h])
  {
    hide BC.Consistent, BC.Lookup, BC.Inserted, BC.Orphans, BC.Insertable, Genuine;
    if BC.Lookup(m, hash, 2, chainHeight).Some? {
      HitIsGenuine(u, m, hash, 2, chainHeight);
    } else {
      BC.MissIsAbsent(m, hash, 2, chainHeight);
      InsertKeepsFit(u, scanned, m, capacity, hash, json);
    }
  }

  lemma PutKeepsGenuine(u: Universe, m: BC.Maps, gone: set<nat>, hash: Hash, json: BlockJson)
    requires Genuine(u, m) && hash in u && Stripped(json) == Json(u[hash], None, None)
    ensures var m' := BC.Put(BC.Without(m, gone), hash, 2, json);
            && Genuine(u, m')
            && u[hash].height in m'.heightToHash && m'.heightToHash[u[hash].height] == hash
            && forall h <- m'.heightToHash ::
                 h == u[hash].height || (h in m.heightToHash && m'.heightToHash[h] == m.heightToHash[h])
  {
    assert json.height == Stripped(json).height;
  }

  lemma KnownIsInsertable(u: Universe, scanned: seq<Hash>, m: BC.Maps, capacity: nat, hash: Hash, height: nat)
    requires CacheFits(u, scanned, m, capacity)
    requires if height in m.heightToHash then m.heightToHash[height] == hash else hash in u && u[hash].height == height
    ensures hash in u && u[hash].height == height && BC.Insertable(m, hash, height) && |BC.Orphans(m)| < capacity
  {
    BC.NoOrphans(m);
  }

  lemma NotListed(entries: seq<IndexEntry>, bs: seq<ShieldBlock>, height: nat)
    requires Listed(entries, bs) && forall b <- bs :: b.height < height
    ensures forall h <- Heights(entries) :: h < height
  {
    forall h <- Heights(entries) ensures h < height {
      var i :| 0 <= i < |entries| && Heights(entries)[i] == h;
      assert bs[i] in bs;
    }
  }

  lemma ListedAppend(entries: seq<IndexEntry>, bs: seq<ShieldBlock>, b: ShieldBlock, offset: nat)
    requires Listed(entries, bs)
    ensures Listed(entries + [IndexEntry(b.height, offset)], bs + [b])
  {
  }

  lemma NotInStep(entries: seq<IndexEntry>, bs: seq<ShieldBlock>, b: ShieldBlock, file: seq<byte>, buffer: seq<byte>)
    requires Listed(entries, bs)
    ensures !InStep(bs + [b], file, buffer, entries)
  {
    hide EncodeStream;
    assert |IndexOf(bs + [b])| == |bs| + 1;
  }

  lemma PrefixLength(before: seq<byte>, part: seq<byte>, after: seq<byte>)
    requires exists n :: 0 <= n <= |part| && after == before + part[..n]
    ensures |before| <= |after| <= |before| + |part|
  {
  }

  lemma InStepAppendIf(premise: bool, bs: seq<ShieldBlock>, b: ShieldBlock, file: seq<byte>, buffer: seq<byte>,
                       entries: seq<IndexEntry>)
    requires premise ==> InStep(bs, file, buffer, entries)
    ensures premise ==> var bytes := EncodeStream([b], PivxCompat);
              InStep(bs + [b], file + bytes, buffer + bytes, entries + [IndexEntry(b.height, |file|)])
  {
    if premise {
      InStepAppend(bs, b, file, buffer, entries);
    }
  }

  lemma OneTriple(b: ShieldBlock, offset: nat)
    ensures |IndexTriples([b], offset)| == 1
    ensures IndexTriples([b], offset)[0] == (b.height, offset, |EncodeBlock(b, PivxCompat)|)
  {
  }

  ghost function KeptBlocks(u: Universe, scanned: seq<Hash>, fork: nat): (kept: seq<ShieldBlock>)
    requires WellFormed(u) && AtHeights(u, scanned) && fork <= |scanned|
    ensures AtHeights(u, scanned[..fork]) && kept == Shields(u, scanned[..fork]) && kept <= Shields(u, scanned)
    ensures forall i | |kept| <= i < |Shields(u, scanned)| :: Shields(u, scanned)[i].height >= fork
    ensures forall b <- kept :: b.height < fork
  {
    ShieldsOfPrefix(u, scanned, fork);
    ShieldsAreOrdered(u, scanned[..fork]);
    Shields(u, scanned[..fork])
  }

  lemma NothingCut(entries: seq<IndexEntry>, bs: seq<ShieldBlock>, kept: seq<ShieldBlock>)
    requires Listed(entries, bs) && kept <= bs && |kept| == |entries|
    ensures kept == bs
  {
  }

  lemma InStepCutIf(premise: bool, bs: seq<ShieldBlock>, kept: seq<ShieldBlock>, file: seq<byte>, buffer: seq<byte>,
                    entries: seq<IndexEntry>)
    requires premise ==> InStep(bs, file, buffer, entries)
    requires kept <= bs && |kept| < |entries| && Listed(entries, bs)
    ensures premise ==>
              && entries[|kept|].i < |file| && |file| == |buffer|
              && InStep(kept, file[..entries[|kept|].i], buffer[..entries[|kept|].i], entries[..|kept|])
  {
    if premise {
      InStepCut(bs, kept, file, buffer, entries);
    }
  }
}
