/** The block cache of src/block_cache.rs: stripped replies by (hash, verbosity), and hashes by height. */
module BlockCache {
  import opened Wrappers
  import opened Chain

  datatype CachedBlock = CachedBlock(height: nat, json: BlockJson)

  datatype Maps = Maps(entries: map<(Hash, nat), CachedBlock>, heightToHash: map<nat, Hash>)

  // ---------------------------------------------------------------------------
  // Operations on the two maps
  // ---------------------------------------------------------------------------

  function Rehydrated(m: Maps, e: CachedBlock, chainHeight: nat): BlockJson {
    var confirmations := (if chainHeight >= e.height then chainHeight - e.height else 0) + 1;
    var json := e.json.(confirmations := Some(confirmations));
    if e.height + 1 in m.heightToHash then json.(nextblockhash := Some(m.heightToHash[e.height + 1])) else json
  }

  function Lookup(m: Maps, hash: Hash, verbosity: nat, chainHeight: nat): Option<BlockJson> {
    var fallback := if verbosity == 1 then 2 else 1;
    if (hash, verbosity) in m.entries then Some(Rehydrated(m, m.entries[(hash, verbosity)], chainHeight))
    else if (hash, fallback) in m.entries then Some(Rehydrated(m, m.entries[(hash, fallback)], chainHeight))
    else None
  }

  lemma MissIsAbsent(m: Maps, hash: Hash, verbosity: nat, chainHeight: nat)
    ensures Lookup(m, hash, verbosity, chainHeight).None? ==> (hash, verbosity) !in m.entries
  {
  }

  function Keys(hash: Hash): set<(Hash, nat)> {
    {(hash, 0), (hash, 1), (hash, 2)}
  }

  /** Forgets one height and every reply held under its hash. */
  function Forget(m: Maps, h: nat): Maps
    requires h in m.heightToHash
  {
    Maps(m.entries - Keys(m.heightToHash[h]), m.heightToHash - {h})
  }

  ghost predicate IsLowest(heights: set<nat>, h: nat) {
    h in heights && forall k <- heights :: h <= k
  }

  lemma LowestExists(heights: set<nat>)
    requires heights != {}
    ensures exists h :: IsLowest(heights, h)
  {
    var x :| x in heights;
    var rest := heights - {x};
    if rest == {} {
      assert heights == {x};
      assert IsLowest(heights, x);
    } else {
      LowestExists(rest);
      var y :| IsLowest(rest, y);
      var h := if x <= y then x else y;
      forall k <- heights ensures h <= k {
        assert k == x || k in rest;
      }
      assert IsLowest(heights, h);
    }
  }

  ghost function Lowest(heights: set<nat>): (h: nat)
    requires heights != {}
    ensures IsLowest(heights, h)
  {
    LowestExists(heights);
    var h :| IsLowest(heights, h);
    h
  }

  ghost function Evict(m: Maps): Maps {
    if m.heightToHash.Keys == {} then m else Forget(m, Lowest(m.heightToHash.Keys))
  }

  /** Replies that no eviction can reach, because the reverse map does not lead to them. */
  ghost function Orphans(m: Maps): set<(Hash, nat)> {
    set k | k in m.entries && (k.0 !in m.heightToHash.Values || k.1 > 2)
  }

  lemma EvictKeepsOrphans(m: Maps)
    ensures Orphans(Evict(m)) == Orphans(m)
  {
    if m.heightToHash.Keys != {} {
      var h := Lowest(m.heightToHash.Keys);
      var hash := m.heightToHash[h];
      var m' := Evict(m);
      forall k | k in m.entries && k.0 in m.heightToHash.Values && k.1 <= 2 ensures k !in Orphans(m') {
        if k.0 == hash {
          assert k in Keys(hash);
        } else {
          var h' :| h' in m.heightToHash && m.heightToHash[h'] == k.0;
          assert h' in m'.heightToHash && m'.heightToHash[h'] == k.0;
        }
      }
      forall k | k in Orphans(m) ensures k in Orphans(m') {
        assert m.heightToHash[h] in m.heightToHash.Values;
      }
    }
  }

  /** The eviction loop: lowest heights go until there is room. */
  ghost function EvictUntil(m: Maps, capacity: nat): (r: Maps)
    requires |Orphans(m)| < capacity
    ensures |r.entries| < capacity && Orphans(r) == Orphans(m)
    decreases |m.heightToHash.Keys|
  {
    if |m.entries| < capacity then m
    else
      EvictKeepsOrphans(m);
      RoomIsReachable(m, capacity);
      EvictUntil(Evict(m), capacity)
  }

  lemma RoomIsReachable(m: Maps, capacity: nat)
    requires |Orphans(m)| < capacity <= |m.entries|
    ensures m.heightToHash.Keys != {}
    ensures |Evict(m).heightToHash.Keys| < |m.heightToHash.Keys|
  {
    UnmappedAreOrphans(m);
    if m.heightToHash.Keys != {} {
      var h := Lowest(m.heightToHash.Keys);
      assert Evict(m).heightToHash.Keys == m.heightToHash.Keys - {h};
    }
  }

  lemma UnmappedAreOrphans(m: Maps)
    ensures m.heightToHash.Keys == {} ==> Orphans(m) == m.entries.Keys
  {
  }

  ghost function EvictTimes(m: Maps, n: nat): Maps
    decreases n
  {
    if n == 0 then m else EvictTimes(Evict(m), n - 1)
  }

  lemma {:induction false} OrphansStay(m: Maps, n: nat)
    ensures |EvictTimes(m, n).entries| >= |Orphans(m)|
    decreases n
  {
    if n > 0 {
      EvictKeepsOrphans(m);
      OrphansStay(Evict(m), n - 1);
    } else {
      SubsetSize(Orphans(m), m.entries.Keys);
    }
  }

  lemma SubsetSize<T>(a: set<T>, b: set<T>)
    requires a <= b
    ensures |a| <= |b|
  {
    assert b == a + (b - a);
  }

  lemma {:induction false} EvictUntilIsReached(m: Maps, capacity: nat) returns (n: nat)
    requires |Orphans(m)| < capacity
    ensures |EvictTimes(m, n).entries| < capacity
    decreases |m.heightToHash.Keys|
  {
    hide Evict, Orphans;
    n := 0;
    if |m.entries| >= capacity {
      EvictKeepsOrphans(m);
      RoomIsReachable(m, capacity);
      var rest := EvictUntilIsReached(Evict(m), capacity);
      n := rest + 1;
    }
  }

  /** The loop of `insert` ends exactly when fewer replies than the capacity are out of reach of eviction. */
  lemma EvictionEndsExactlyWhen(m: Maps, capacity: nat)
    ensures (exists n :: |EvictTimes(m, n).entries| < capacity) <==> |Orphans(m)| < capacity
  {
    if |Orphans(m)| < capacity {
      var n := EvictUntilIsReached(m, capacity);
    } else {
      forall n: nat ensures |EvictTimes(m, n).entries| >= capacity {
        OrphansStay(m, n);
      }
    }
  }

  /** Replies that `evict_lowest` never names. */
  ghost function BeyondVerbosity2(m: Maps): set<(Hash, nat)> {
    set k | k in m.entries && k.1 > 2
  }

  /** Once as many of them as the cache may hold are there, the loop of `insert` never ends. */
  lemma EvictionMayNeverEnd(m: Maps, capacity: nat)
    requires |BeyondVerbosity2(m)| >= capacity
    ensures !exists n :: |EvictTimes(m, n).entries| < capacity
  {
    EvictionEndsExactlyWhen(m, capacity);
    SubsetSize(BeyondVerbosity2(m), Orphans(m));
  }

  lemma OneMoreBeyond(m: Maps, hash: Hash, json: BlockJson)
    requires (hash, 3) !in m.entries
    ensures var m' := Put(m, hash, 3, json);
            && |m'.entries| == |m.entries| + 1 && |BeyondVerbosity2(m')| == |BeyondVerbosity2(m)| + 1
            && |Orphans(m')| <= |m'.entries|
  {
    var m' := Put(m, hash, 3, json);
    assert BeyondVerbosity2(m') == BeyondVerbosity2(m) + {(hash, 3)};
    SubsetSize(Orphans(m'), m'.entries.Keys);
  }

  /** A cache of any capacity that was asked to keep that many replies of verbosity 3, one a height. */
  ghost function Flooded(capacity: nat, n: nat): Maps
    requires n <= capacity
    ensures |Orphans(Flooded(capacity, n))| <= |Flooded(capacity, n).entries|
         == |BeyondVerbosity2(Flooded(capacity, n))| == n
    ensures forall k <- Flooded(capacity, n).entries :: |k.0.hex| < n
  {
    if n == 0 then Maps(map[], map[])
    else
      var m := Flooded(capacity, n - 1);
      var hash := Hash(seq(n - 1, _ => 'f'));
      var json := BlockJson(Some(n - 1), None, 0, None, None, None);
      assert |hash.hex| == n - 1 && (hash, 3) !in m.entries;
      var m' := Inserted(m, capacity, hash, 3, json);
      assert m' == Put(m, hash, 3, json);
      OneMoreBeyond(m, hash, json);
      m'
  }

  /** So, starting from the empty cache, `capacity` such inserts make the next insert of anything new run forever. */
  lemma FloodedCacheNeverEnds(capacity: nat)
    ensures !exists n :: |EvictTimes(Flooded(capacity, capacity), n).entries| < capacity
  {
    EvictionMayNeverEnd(Flooded(capacity, capacity), capacity);
  }

  // ---------------------------------------------------------------------------
  // The regime in which only the scanner fills the cache
  // ---------------------------------------------------------------------------

  /** Each map leads to the other, and no two heights share a hash. */
  ghost predicate Consistent(m: Maps) {
    && (forall k <- m.entries :: k.1 <= 2 && m.entries[k].height in m.heightToHash
                              && m.heightToHash[m.entries[k].height] == k.0)
    && (forall h <- m.heightToHash :: HasReply(m, h))
    && (forall h, g | h in m.heightToHash && g in m.heightToHash && m.heightToHash[h] == m.heightToHash[g] :: h == g)
  }

  ghost predicate HasReply(m: Maps, h: nat)
    requires h in m.heightToHash
  {
    exists v: nat :: (m.heightToHash[h], v) in m.entries && m.entries[(m.heightToHash[h], v)].height == h
  }

  lemma NoOrphans(m: Maps)
    requires Consistent(m)
    ensures Orphans(m) == {}
  {
    forall k <- m.entries ensures k.0 in m.heightToHash.Values {
      assert m.heightToHash[m.entries[k].height] == k.0;
    }
  }

  /** Both maps without the given heights. */
  ghost function Without(m: Maps, gone: set<nat>): Maps {
    Maps(map k | k in m.entries && m.entries[k].height !in gone :: m.entries[k],
         map h | h in m.heightToHash && h !in gone :: m.heightToHash[h])
  }

  lemma WithoutKeepsConsistent(m: Maps, gone: set<nat>)
    requires Consistent(m)
    ensures Consistent(Without(m, gone)) && |Without(m, gone).entries| <= |m.entries|
  {
    var m' := Without(m, gone);
    forall h <- m'.heightToHash ensures HasReply(m', h) {
      assert HasReply(m, h);
      var v: nat :| (m.heightToHash[h], v) in m.entries && m.entries[(m.heightToHash[h], v)].height == h;
      assert (m'.heightToHash[h], v) in m'.entries;
    }
    SubsetSize(m'.entries.Keys, m.entries.Keys);
  }

  lemma KeysOfHeight(m: Maps, h: nat, k: (Hash, nat))
    requires Consistent(m) && h in m.heightToHash && k in m.entries
    ensures k in Keys(m.heightToHash[h]) <==> m.entries[k].height == h
  {
  }

  /** Forgetting a height removes exactly the replies of that height, and there is at least one. */
  lemma ForgetRemovesHeight(m: Maps, h: nat)
    requires Consistent(m) && h in m.heightToHash
    ensures Forget(m, h) == Without(m, {h})
    ensures |Forget(m, h).entries| < |m.entries|
  {
    hide Consistent, Keys;
    var m' := Forget(m, h);
    forall k <- m.entries ensures k in m'.entries <==> m.entries[k].height != h {
      KeysOfHeight(m, h, k);
    }
    assert m'.entries == Without(m, {h}).entries;
    assert m'.heightToHash == Without(m, {h}).heightToHash;
    ForgetShrinks(m, h);
  }

  lemma ForgetShrinks(m: Maps, h: nat)
    requires Consistent(m) && h in m.heightToHash
    ensures |Forget(m, h).entries| < |m.entries|
  {
    hide Consistent;
    ReplyAt(m, h);
    var v: nat :| (m.heightToHash[h], v) in m.entries && m.entries[(m.heightToHash[h], v)].height == h;
    var k := (m.heightToHash[h], v);
    KeysOfHeight(m, h, k);
    SubsetSize(Forget(m, h).entries.Keys, m.entries.Keys - {k});
  }

  lemma ReplyAt(m: Maps, h: nat)
    requires Consistent(m) && h in m.heightToHash
    ensures HasReply(m, h)
  {
  }

  /** Without the highest of the heights in `gone`, too much would have been left. */
  ghost predicate NoMoreThanNeeded(m: Maps, capacity: nat, gone: set<nat>) {
    gone != {} ==>
      exists last <- gone :: (forall g <- gone :: g <= last) && |Without(m, gone - {last}).entries| >= capacity
  }

  lemma OneMoreGone(m: Maps, capacity: nat, h: nat, rest: set<nat>)
    requires |m.entries| >= capacity && h !in rest && forall g <- rest :: h < g
    requires NoMoreThanNeeded(Without(m, {h}), capacity, rest)
    ensures NoMoreThanNeeded(m, capacity, rest + {h})
  {
    hide Without;
    if rest == {} {
      assert rest + {h} == {h} && {h} - {h} == {};
      WithoutNothing(m);
      assert h in rest + {h};
    } else {
      var last :| last in rest && (forall g <- rest :: g <= last)
                  && |Without(Without(m, {h}), rest - {last}).entries| >= capacity;
      WithoutTwice(m, {h}, rest - {last});
      assert rest + {h} - {last} == rest - {last} + {h};
      assert last in rest + {h};
    }
  }

  /** Only heights below every surviving one are evicted, and no more of them than needed. */
  lemma {:induction false} EvictUntilRemovesLowest(m: Maps, capacity: nat) returns (gone: set<nat>)
    requires Consistent(m) && |Orphans(m)| < capacity
    ensures EvictUntil(m, capacity) == Without(m, gone)
    ensures forall g, h | g in gone && h in m.heightToHash && h !in gone :: g < h
    ensures |m.entries| < capacity ==> gone == {}
    ensures gone <= m.heightToHash.Keys && NoMoreThanNeeded(m, capacity, gone)
    decreases |m.heightToHash.Keys|
  {
    hide Consistent, Orphans, Forget, Without, NoMoreThanNeeded;
    gone := {};
    if |m.entries| >= capacity {
      RoomIsReachable(m, capacity);
      EvictKeepsOrphans(m);
      var h := Lowest(m.heightToHash.Keys);
      ForgetRemovesHeight(m, h);
      WithoutKeepsConsistent(m, {h});
      var rest := EvictUntilRemovesLowest(Evict(m), capacity);
      gone := rest + {h};
      WithoutTwice(m, {h}, rest);
      forall k ensures k in Evict(m).heightToHash <==> k in m.heightToHash && k != h {
        WithoutHeights(m, {h}, k);
      }
      OneMoreGone(m, capacity, h, rest);
    } else {
      WithoutNothing(m);
      NothingGone(m, capacity);
    }
  }

  lemma WithoutTwice(m: Maps, a: set<nat>, b: set<nat>)
    ensures Without(Without(m, a), b) == Without(m, b + a)
  {
  }

  lemma WithoutNothing(m: Maps)
    ensures Without(m, {}) == m
  {
    assert Without(m, {}).entries == m.entries && Without(m, {}).heightToHash == m.heightToHash;
  }

  lemma NothingGone(m: Maps, capacity: nat)
    ensures NoMoreThanNeeded(m, capacity, {})
  {
  }

  lemma WithoutHeights(m: Maps, gone: set<nat>, h: nat)
    ensures h in Without(m, gone).heightToHash <==> h in m.heightToHash && h !in gone
  {
  }

  /** The scanner inserts a block only where its height is free or already holds its hash. */
  ghost predicate Insertable(m: Maps, hash: Hash, height: nat) {
    && (height in m.heightToHash ==> m.heightToHash[height] == hash)
    && (forall h <- m.heightToHash :: m.heightToHash[h] == hash ==> h == height)
  }

  function Put(m: Maps, hash: Hash, verbosity: nat, json: BlockJson): Maps {
    var height := match json.height case Some(h) => h case None => 0;
    Maps(m.entries[(hash, verbosity) := CachedBlock(height, Stripped(json))], m.heightToHash[height := hash])
  }

  lemma PutKeepsConsistent(m: Maps, hash: Hash, verbosity: nat, json: BlockJson)
    requires Consistent(m) && verbosity <= 2 && json.height.Some? && Insertable(m, hash, json.height.value)
    ensures Consistent(Put(m, hash, verbosity, json))
  {
    var m' := Put(m, hash, verbosity, json);
    var height := json.height.value;
    forall h <- m'.heightToHash ensures HasReply(m', h) {
      if h == height {
        assert (m'.heightToHash[h], verbosity) in m'.entries;
      } else {
        assert HasReply(m, h);
        var v: nat :| (m.heightToHash[h], v) in m.entries && m.entries[(m.heightToHash[h], v)].height == h;
        assert (m'.heightToHash[h], v) in m'.entries;
      }
    }
  }

  /** The maps after `insert`. */
  ghost function Inserted(m: Maps, capacity: nat, hash: Hash, verbosity: nat, json: BlockJson): Maps
    requires |Orphans(m)| < capacity
  {
    if (hash, verbosity) in m.entries then m else Put(EvictUntil(m, capacity), hash, verbosity, json)
  }

  lemma InsertKeepsRegime(m: Maps, capacity: nat, hash: Hash, verbosity: nat, json: BlockJson)
    requires Consistent(m) && |m.entries| <= capacity && 1 <= capacity
    requires verbosity <= 2 && json.height.Some? && Insertable(m, hash, json.height.value)
    ensures |Orphans(m)| < capacity
    ensures var m' := Inserted(m, capacity, hash, verbosity, json);
            Consistent(m') && |m'.entries| <= capacity
  {
    NoOrphans(m);
    if (hash, verbosity) !in m.entries {
      var gone := EvictUntilRemovesLowest(m, capacity);
      WithoutKeepsConsistent(m, gone);
      PutKeepsConsistent(EvictUntil(m, capacity), hash, verbosity, json);
    }
  }

  /**
   What an insertion may cost: nothing when there is room; otherwise only heights below every survivor, and the
   replies of one height go or stay together.
   */
  lemma InsertEvictsLowest(m: Maps, capacity: nat, hash: Hash, verbosity: nat, json: BlockJson)
    requires Consistent(m) && |m.entries| <= capacity && 1 <= capacity && (hash, verbosity) !in m.entries
    ensures |Orphans(m)| < capacity
    ensures var m' := Inserted(m, capacity, hash, verbosity, json);
            && (|m.entries| < capacity ==> m.entries.Keys <= m'.entries.Keys)
            && (forall k, s | k in m.entries && k !in m'.entries && s in m.entries && s in m'.entries ::
                  m.entries[k].height < m.entries[s].height)
            && (forall k, s | k in m.entries && s in m.entries && m.entries[k].height == m.entries[s].height ::
                  k in m'.entries <==> s in m'.entries)
            && m'.entries[(hash, verbosity)].json == Stripped(json)
  {
    hide Orphans, EvictUntil, NoMoreThanNeeded, Put, Without, Consistent;
    NoOrphans(m);
    var gone := EvictUntilRemovesLowest(m, capacity);
    RepliesHaveHeights(m);
    PutBesides(m, gone, hash, verbosity, json);
  }

  lemma RepliesHaveHeights(m: Maps)
    requires Consistent(m)
    ensures forall k <- m.entries :: m.entries[k].height in m.heightToHash
  {
  }

  lemma PutBesides(m: Maps, gone: set<nat>, hash: Hash, verbosity: nat, json: BlockJson)
    requires (hash, verbosity) !in m.entries
    ensures var m' := Put(Without(m, gone), hash, verbosity, json);
            && (forall k <- m.entries :: k in m'.entries <==> m.entries[k].height !in gone)
            && m'.entries[(hash, verbosity)].json == Stripped(json)
  {
  }

  /** Eviction only takes away, whatever state the maps are in. */
  lemma {:induction false} EvictUntilShrinks(m: Maps, capacity: nat)
    requires |Orphans(m)| < capacity
    ensures var r := EvictUntil(m, capacity);
            r.entries.Keys <= m.entries.Keys && r.heightToHash.Keys <= m.heightToHash.Keys
    decreases |m.heightToHash.Keys|
  {
    hide Orphans;
    if |m.entries| >= capacity {
      EvictKeepsOrphans(m);
      RoomIsReachable(m, capacity);
      EvictUntilShrinks(Evict(m), capacity);
    }
  }

  /**
   A reply that was inserted is served again, to its own verbosity, and to the other one of 1 and 2, or any other if
   it is 1, when that one holds nothing of its own: with fresh confirmations, never below 1, and the known successor.
   */
  lemma InsertThenGet(m: Maps, capacity: nat, hash: Hash, verbosity: nat, asked: nat, json: BlockJson, tip: nat)
    requires |Orphans(m)| < capacity && (hash, verbosity) !in m.entries
    requires asked == verbosity || (asked == 1 && verbosity == 2) || (asked != 1 && verbosity == 1)
    requires asked != verbosity ==> (hash, asked) !in m.entries
    ensures var m' := Inserted(m, capacity, hash, verbosity, json);
            var height := if json.height.Some? then json.height.value else 0;
            && m'.heightToHash[height] == hash
            && Lookup(m', hash, asked, tip)
               == Some(json.(confirmations := Some(if tip < height then 1 else tip - height + 1),
                             nextblockhash := if height + 1 in m'.heightToHash then Some(m'.heightToHash[height + 1])
                                              else None))
  {
    hide Orphans, EvictUntil;
    EvictUntilShrinks(m, capacity);
  }

  /** Nothing is served exactly when neither the verbosity asked for nor its substitute is held. */
  lemma MissExactlyWhen(m: Maps, hash: Hash, verbosity: nat, tip: nat)
    ensures Lookup(m, hash, verbosity, tip).None?
       <==> (hash, verbosity) !in m.entries && (hash, 1) !in m.entries
            && (verbosity == 1 ==> (hash, 2) !in m.entries)
  {
  }

  // ---------------------------------------------------------------------------
  // Invalidation
  // ---------------------------------------------------------------------------

  /** Without the heights `gone` and whatever is held under their hashes. */
  ghost function Cleared(m: Maps, gone: set<nat>): Maps
    requires gone <= m.heightToHash.Keys
  {
    Maps(map k | k in m.entries && !(k.1 <= 2 && exists h :: h in gone && m.heightToHash[h] == k.0) :: m.entries[k],
         m.heightToHash - gone)
  }

  lemma ClearedStep(m: Maps, gone: set<nat>, h: nat)
    requires gone <= m.heightToHash.Keys && h in m.heightToHash
    ensures Cleared(m, gone + {h})
         == Maps(Cleared(m, gone).entries - Keys(m.heightToHash[h]), Cleared(m, gone).heightToHash - {h})
  {
    var a, b := Cleared(m, gone + {h}), Cleared(m, gone);
    assert a.entries == b.entries - Keys(m.heightToHash[h]);
    assert a.heightToHash == b.heightToHash - {h};
  }

  lemma ClearedNothing(m: Maps)
    ensures Cleared(m, {}) == m
  {
    assert Cleared(m, {}).entries == m.entries && Cleared(m, {}).heightToHash == m.heightToHash;
  }

  ghost function HeightsFrom(m: Maps, fork: nat): set<nat> {
    set h | h in m.heightToHash && h >= fork
  }

  ghost function Invalidated(m: Maps, fork: nat): Maps {
    Cleared(m, HeightsFrom(m, fork))
  }

  lemma InvalidatedReply(m: Maps, fork: nat, k: (Hash, nat))
    requires Consistent(m) && k in m.entries
    ensures k in Invalidated(m, fork).entries <==> m.entries[k].height < fork
    ensures m.entries[k].height in m.heightToHash
  {
    var h := m.entries[k].height;
    assert h in m.heightToHash && m.heightToHash[h] == k.0;
  }

  lemma InvalidatedIsWithout(m: Maps, fork: nat)
    requires Consistent(m)
    ensures Invalidated(m, fork) == Without(m, HeightsFrom(m, fork))
    ensures forall k <- m.entries :: m.entries[k].height in HeightsFrom(m, fork) <==> m.entries[k].height >= fork
  {
    hide Consistent;
    var m', r := Invalidated(m, fork), Without(m, HeightsFrom(m, fork));
    forall k <- m.entries
      ensures k in m'.entries <==> m.entries[k].height < fork
      ensures m.entries[k].height in m.heightToHash
    {
      InvalidatedReply(m, fork, k);
    }
    assert m'.entries == r.entries;
    assert m'.heightToHash == r.heightToHash;
  }

  /** Exactly the cached heights from `fork` on disappear, from both maps. */
  lemma InvalidationIsExact(m: Maps, fork: nat)
    requires Consistent(m)
    ensures var m' := Invalidated(m, fork);
            && Consistent(m') && |m'.entries| <= |m.entries|
            && m'.entries == (map k | k in m.entries && m.entries[k].height < fork :: m.entries[k])
            && m'.heightToHash == (map h | h in m.heightToHash && h < fork :: m.heightToHash[h])
  {
    hide Consistent, Invalidated;
    InvalidatedIsWithout(m, fork);
    WithoutKeepsConsistent(m, HeightsFrom(m, fork));
  }

  // ---------------------------------------------------------------------------
  // The cache and the node
  // ---------------------------------------------------------------------------

  /** Every reply is the stripped reply of a block on `chain`, at its own height. */
  ghost predicate OnChain(u: Universe, chain: seq<Hash>, m: Maps) {
    && (forall h <- m.heightToHash :: h < |chain| && chain[h] == m.heightToHash[h])
    && (forall k <- m.entries :: k.0 in u && m.entries[k] == CachedBlock(u[k.0].height, Json(u[k.0], None, None)))
  }

  /** What the node itself would answer. */
  function NodeReply(u: Universe, chain: seq<Hash>, h: nat): BlockJson
    requires h < |chain| && chain[h] in u
  {
    Json(u[chain[h]], Some(|chain| - h), if h + 1 < |chain| then Some(chain[h + 1]) else None)
  }

  /** An exact hit is the node's own answer, except that a successor the cache does not hold is left out. */
  lemma HitAgreesWithNode(u: Universe, chain: seq<Hash>, m: Maps, hash: Hash, verbosity: nat)
    requires IsChain(u, chain) && Consistent(m) && OnChain(u, chain, m) && (hash, verbosity) in m.entries
    ensures hash in u && u[hash].height < |chain| && chain[u[hash].height] == hash
    ensures var got := Lookup(m, hash, verbosity, |chain| - 1).value;
            var node := NodeReply(u, chain, u[hash].height);
            got == node || got == node.(nextblockhash := None)
    ensures var h := u[hash].height;
            h + 1 in m.heightToHash ==> Lookup(m, hash, verbosity, |chain| - 1).value == NodeReply(u, chain, h)
  {
    var e := m.entries[(hash, verbosity)];
    assert e.height in m.heightToHash && m.heightToHash[e.height] == hash;
  }

  /** After a reorganisation, invalidating from any height up to the fork puts the cache back on the new chain. */
  lemma InvalidationRestoresAgreement(u: Universe, before: seq<Hash>, chain: seq<Hash>, m: Maps, fork: nat)
    requires Consistent(m) && OnChain(u, before, m) && fork <= ForkHeight(before, chain)
    ensures OnChain(u, chain, Invalidated(m, fork))
  {
    InvalidationIsExact(m, fork);
    var f := ForkHeight(before, chain);
    forall h <- Invalidated(m, fork).heightToHash ensures h < |chain| && chain[h] == m.heightToHash[h] {
      assert before[h] == before[..f][h] && chain[h] == chain[..f][h];
    }
  }

  // ---------------------------------------------------------------------------
  // The cache object
  // ---------------------------------------------------------------------------

  class BlockCache {
    var entries: map<(Hash, nat), CachedBlock>
    var heightToHash: map<nat, Hash>
    const capacity: nat
    var hits: nat
    var misses: nat

    function State(): Maps
      reads this
    {
      Maps(entries, heightToHash)
    }

    constructor (capacity: nat)
      ensures this.capacity == capacity && State() == Maps(map[], map[]) && Consistent(State())
    {
      this.capacity := capacity;
      entries, heightToHash := map[], map[];
      hits, misses := 0, 0;
    }

    method Get(hash: Hash, verbosity: nat, chainHeight: nat) returns (r: Option<BlockJson>)
      modifies this`hits, this`misses
      ensures r == Lookup(State(), hash, verbosity, chainHeight)
      ensures hits == old(hits) + (if r.Some? then 1 else 0) && misses == old(misses) + if r.None? then 1 else 0
    {
      var key := (hash, verbosity);
      if key !in entries {
        var fallback := if verbosity == 1 then 2 else 1;
        key := (hash, fallback);
        if key !in entries {
          misses := misses + 1;
          return None;
        }
      }
      hits := hits + 1;
      var entry := entries[key];
      var confs := (if chainHeight >= entry.height then chainHeight - entry.height else 0) + 1;
      var json := entry.json.(confirmations := Some(confs));
      if entry.height + 1 in heightToHash {
        json := json.(nextblockhash := Some(heightToHash[entry.height + 1]));
      }
      r := Some(json);
    }

    method EvictLowest()
      modifies this`entries, this`heightToHash
      ensures State() == Evict(old(State()))
    {
      if heightToHash.Keys == {} { return; }
      LowestExists(heightToHash.Keys);
      var minHeight: nat :| minHeight in heightToHash.Keys && forall k <- heightToHash.Keys :: minHeight <= k;
      assert minHeight == Lowest(heightToHash.Keys);
      var hash := heightToHash[minHeight];
      heightToHash := heightToHash - {minHeight};
      var v := 0;
      while v <= 2
        invariant 0 <= v <= 3
        invariant heightToHash == old(heightToHash) - {minHeight}
        invariant entries == old(entries) - set w | 0 <= w < v :: (hash, w)
      {
        entries := entries - {(hash, v)};
        v := v + 1;
      }
      assert (set w | 0 <= w < 3 :: (hash, w)) == Keys(hash);
      assert State() == Forget(old(State()), minHeight);
    }

    method Insert(hash: Hash, verbosity: nat, json: BlockJson)
      requires (hash, verbosity) !in entries ==> |Orphans(State())| < capacity
      modifies this`entries, this`heightToHash
      ensures State() == if (hash, verbosity) in old(entries) then old(State())
                         else Inserted(old(State()), capacity, hash, verbosity, json)
    {
      if (hash, verbosity) in entries { return; }
      var height := match json.height case Some(h) => h case None => 0;
      while |entries| >= capacity
        invariant |Orphans(State())| < capacity
        invariant EvictUntil(State(), capacity) == EvictUntil(old(State()), capacity)
        decreases |heightToHash.Keys|
      {
        EvictKeepsOrphans(State());
        RoomIsReachable(State(), capacity);
        EvictLowest();
      }
      var stripped := json.(confirmations := None, nextblockhash := None);
      heightToHash := heightToHash[height := hash];
      entries := entries[(hash, verbosity) := CachedBlock(height, stripped)];
    }

    function HashForHeight(height: nat): Option<Hash>
      reads this
    {
      if height in heightToHash then Some(heightToHash[height]) else None
    }

    predicate DetectReorg(height: nat, prevHash: Hash)
      reads this
    {
      height > 0 && height - 1 in heightToHash && heightToHash[height - 1] != prevHash
    }

    method InvalidateFrom(fork: nat)
      modifies this`entries, this`heightToHash
      ensures State() == Invalidated(old(State()), fork)
    {
      hide Cleared;
      var toRemove := set h | h in heightToHash && h >= fork;
      ghost var m, gone := State(), {};
      ClearedNothing(m);
      while toRemove != {}
        invariant gone <= m.heightToHash.Keys && toRemove <= m.heightToHash.Keys - gone
        invariant gone + toRemove == HeightsFrom(m, fork)
        invariant State() == Cleared(m, gone)
        invariant forall h <- toRemove :: h in heightToHash && heightToHash[h] == m.heightToHash[h]
        decreases |toRemove|
      {
        var h :| h in toRemove;
        var hash := heightToHash[h];
        ClearedStep(m, gone, h);
        heightToHash := heightToHash - {h};
        entries := entries - {(hash, 0), (hash, 1), (hash, 2)};
        toRemove := toRemove - {h};
        gone := gone + {h};
      }
      assert gone == HeightsFrom(m, fork);
    }
  }
}
