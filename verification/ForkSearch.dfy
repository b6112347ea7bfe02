/** Where `find_fork_point` of src/main.rs stops on a fixed chain, and what a pass makes of it. */
module ForkSearch {
  import opened Chain

  const SEARCH_DEPTH: nat := 1000

  function Limit(height: nat): nat {
    if height > SEARCH_DEPTH then height - SEARCH_DEPTH else 0
  }

  /** The cache remembers scanned hashes only; any subset of heights may be cached. */
  ghost predicate Remembers(cached: map<nat, Hash>, scanned: seq<Hash>) {
    forall h <- cached :: h < |scanned| ==> cached[h] == scanned[h]
  }

  /** A height that the walk stops at: its call fails, or its hash is cached and still the node's. */
  ghost predicate StopsAt(failing: set<Call>, cached: map<nat, Hash>, chain: seq<Hash>, h: nat) {
    HashCall(h) in failing || (h in cached && h < |chain| && cached[h] == chain[h])
  }

  /** The walk down from `h`, to just above the first height it stops at. */
  ghost function SearchFrom(failing: set<Call>, cached: map<nat, Hash>, chain: seq<Hash>, h: nat,
                            limit: nat): (fork: nat)
    requires h < |chain|
    ensures limit < fork && fork <= (if h <= limit then limit else h) + 1
  {
    if h <= limit then limit + 1
    else if StopsAt(failing, cached, chain, h) then h + 1
    else SearchFrom(failing, cached, chain, h - 1, limit)
  }

  /** The walk stops just above the highest stopping height, or at its limit when there is none. */
  lemma {:induction false} SearchFindsHighestStop(failing: set<Call>, cached: map<nat, Hash>, chain: seq<Hash>,
                                                  h: nat, limit: nat)
    requires limit <= h < |chain|
    ensures var f := SearchFrom(failing, cached, chain, h, limit);
            && (f == limit + 1 || StopsAt(failing, cached, chain, f - 1))
            && (forall g | f <= g <= h :: !StopsAt(failing, cached, chain, g))
    decreases h
  {
    if h > limit && !StopsAt(failing, cached, chain, h) {
      SearchFindsHighestStop(failing, cached, chain, h - 1, limit);
    }
  }

  /** From the fork on no call fails, and no height is cached under the hash the node has there. */
  ghost predicate ClearAboveFork(failing: set<Call>, cached: map<nat, Hash>, scanned: seq<Hash>, chain: seq<Hash>) {
    forall h | ForkHeight(scanned, chain) <= h < |scanned| :: !StopsAt(failing, cached, chain, h)
  }

  /**
   On a fixed chain, whatever calls fail: rolling back to the result discards every orphan exactly when the fork lies
   inside the search window and the walk stops nowhere above it; and when moreover the block below the fork is cached
   the result is the fork itself.
   */
  lemma ForkSearchIsSafeExactlyWhen(failing: set<Call>, cached: map<nat, Hash>, scanned: seq<Hash>, chain: seq<Hash>)
    requires Remembers(cached, scanned) && scanned != [] && |scanned| <= |chain|
    requires ForkHeight(scanned, chain) < |scanned|
    ensures var limit, fork := Limit(|scanned|), ForkHeight(scanned, chain);
            var f := SearchFrom(failing, cached, chain, |scanned| - 1, limit);
            && (f <= fork <==> limit < fork && ClearAboveFork(failing, cached, scanned, chain))
            && (f <= fork && limit + 1 < fork && fork - 1 in cached ==> f == fork)
  {
    hide SearchFrom, ForkHeight, Remembers, StopsAt;
    var limit, fork := Limit(|scanned|), ForkHeight(scanned, chain);
    SearchFindsHighestStop(failing, cached, chain, |scanned| - 1, limit);
    if limit + 1 < fork && fork - 1 in cached {
      StopsBelowFork(failing, cached, scanned, chain);
    }
  }

  lemma StopsBelowFork(failing: set<Call>, cached: map<nat, Hash>, scanned: seq<Hash>, chain: seq<Hash>)
    requires Remembers(cached, scanned) && ForkHeight(scanned, chain) > 0
    requires ForkHeight(scanned, chain) - 1 in cached
    ensures StopsAt(failing, cached, chain, ForkHeight(scanned, chain) - 1)
  {
    hide ForkHeight;
    var fork := ForkHeight(scanned, chain);
    assert scanned[fork - 1] == scanned[..fork][fork - 1] == chain[..fork][fork - 1] == chain[fork - 1];
  }

  /** A list of hashes linked by their parents never agrees with the node again above the fork. */
  lemma ChainsNeverAgreeAgain(u: Universe, cached: map<nat, Hash>, scanned: seq<Hash>, chain: seq<Hash>)
    requires IsChain(u, scanned) && IsChain(u, chain) && Remembers(cached, scanned)
    ensures ClearAboveFork({}, cached, scanned, chain)
  {
    hide IsChain, ForkHeight;
    forall h | ForkHeight(scanned, chain) <= h < |scanned| && h < |chain| ensures !StopsAt({}, cached, chain, h) {
      DisagreeFromFork(u, scanned, chain, h);
    }
  }

  /** So for linked lists and without errors the search is safe exactly when the fork lies inside the window. */
  lemma ForkSearchIsSafeExactlyInWindow(u: Universe, cached: map<nat, Hash>, scanned: seq<Hash>, chain: seq<Hash>)
    requires IsChain(u, scanned) && IsChain(u, chain) && Remembers(cached, scanned)
    requires scanned != [] && |scanned| <= |chain| && ForkHeight(scanned, chain) < |scanned|
    ensures SearchFrom({}, cached, chain, |scanned| - 1, Limit(|scanned|)) <= ForkHeight(scanned, chain)
       <==> Limit(|scanned|) < ForkHeight(scanned, chain)
  {
    hide *;
    ChainsNeverAgreeAgain(u, cached, scanned, chain);
    ForkSearchIsSafeExactlyWhen({}, cached, scanned, chain);
  }

  /** The window in numbers: a shared genesis block, and fewer than 1000 scanned blocks to give up. */
  lemma ForkSearchReaches999Blocks(u: Universe, cached: map<nat, Hash>, scanned: seq<Hash>, chain: seq<Hash>)
    requires IsChain(u, scanned) && IsChain(u, chain) && Remembers(cached, scanned)
    requires scanned != [] && |scanned| <= |chain| && ForkHeight(scanned, chain) < |scanned|
    ensures var limit, fork := if |scanned| > 1000 then |scanned| - 1000 else 0, ForkHeight(scanned, chain);
            SearchFrom({}, cached, chain, |scanned| - 1, limit) <= fork <==> 0 < fork && |scanned| < fork + 1000
  {
    hide IsChain, SearchFrom, ForkHeight, Remembers;
    ForkSearchIsSafeExactlyInWindow(u, cached, scanned, chain);
  }

  // ---------------------------------------------------------------------------
  // The outcome of a pass
  // ---------------------------------------------------------------------------

  /** Both detection calls answer. */
  ghost predicate Compared(failing: set<Call>, scanned: seq<Hash>, chain: seq<Hash>)
    requires |scanned| < |chain|
  {
    HashCall(|scanned|) !in failing && BlockCall(chain[|scanned|], 1) !in failing
  }

  ghost predicate Detected(failing: set<Call>, cached: map<nat, Hash>, scanned: seq<Hash>, chain: seq<Hash>)
    requires scanned != [] && |scanned| < |chain|
  {
    var cursor := |scanned| - 1;
    Compared(failing, scanned, chain) && cursor in cached && cached[cursor] != chain[cursor]
  }

  /** The height from which a pass scans. */
  ghost function ScanStart(failing: set<Call>, cached: map<nat, Hash>, scanned: seq<Hash>, chain: seq<Hash>): (f: nat)
    requires scanned != [] && |scanned| < |chain|
    ensures 1 <= f <= |scanned|
  {
    if Detected(failing, cached, scanned, chain) then
      SearchFrom(failing, cached, chain, |scanned| - 1, Limit(|scanned|))
    else
      |scanned|
  }

  /** No call of the forward loop fails when it scans from `from` on. */
  ghost predicate ForwardSucceeds(failing: set<Call>, from: nat) {
    forall c <- failing :: (c.HashCall? && c.height < from) || (c.BlockCall? && c.verbosity != 2)
  }

  /** The hashes scanned when a pass against a longer chain has reached its tip. */
  ghost function Outcome(failing: set<Call>, cached: map<nat, Hash>, scanned: seq<Hash>,
                         chain: seq<Hash>): (r: seq<Hash>)
    requires scanned != [] && |scanned| < |chain|
    ensures |r| == |chain|
  {
    var f := ScanStart(failing, cached, scanned, chain);
    var first := if !Detected(failing, cached, scanned, chain) && f in cached then cached[f] else chain[f];
    scanned[..f] + [first] + chain[f + 1..]
  }

  /**
   What can be checked beforehand: nothing to undo and no stale block cached ahead, or a fork that detection and search
   reach.
   */
  ghost predicate Reachable(failing: set<Call>, cached: map<nat, Hash>, scanned: seq<Hash>, chain: seq<Hash>)
    requires scanned != [] && |scanned| < |chain|
  {
    var fork := ForkHeight(scanned, chain);
    if fork == |scanned| then |scanned| in cached ==> cached[|scanned|] == chain[|scanned|]
    else
      && Compared(failing, scanned, chain) && |scanned| - 1 in cached
      && Limit(|scanned|) < fork && ClearAboveFork(failing, cached, scanned, chain)
  }

  lemma OutcomeIsChain(failing: set<Call>, cached: map<nat, Hash>, scanned: seq<Hash>, chain: seq<Hash>)
    requires scanned != [] && |scanned| < |chain|
    ensures var f, fork := ScanStart(failing, cached, scanned, chain), ForkHeight(scanned, chain);
            (Outcome(failing, cached, scanned, chain) == chain <==>
               f <= fork && (Detected(failing, cached, scanned, chain) || f !in cached || cached[f] == chain[f]))
  {
    hide SearchFrom, ForkHeight, Detected, ScanStart;
    var f := ScanStart(failing, cached, scanned, chain);
    var first := if !Detected(failing, cached, scanned, chain) && f in cached then cached[f] else chain[f];
    SplicedIs(scanned[..f], first, chain);
    AgreeUpTo(scanned, chain, f);
  }

  lemma SplicedIs(front: seq<Hash>, x: Hash, chain: seq<Hash>)
    requires |front| < |chain|
    ensures front + [x] + chain[|front| + 1..] == chain <==> front == chain[..|front|] && x == chain[|front|]
  {
    var f := |front|;
    var r := front + [x] + chain[f + 1..];
    assert r[..f] == front && r[f] == x && r[f + 1..] == chain[f + 1..];
    assert chain == chain[..f] + [chain[f]] + chain[f + 1..];
  }

  lemma AgreeUpTo(a: seq<Hash>, b: seq<Hash>, f: nat)
    requires f <= |a| && f <= |b|
    ensures a[..f] == b[..f] <==> f <= ForkHeight(a, b)
  {
    hide ForkHeight;
    var fork := ForkHeight(a, b);
    if f <= fork {
      assert a[..f] == a[..fork][..f] == b[..fork][..f] == b[..f];
    } else {
      assert a[..f][fork] == a[fork] && b[..f][fork] == b[fork];
    }
  }

  /** A pass that reaches the tip ends with the node's own hashes exactly when its chain was reachable. */
  lemma PassConvergesExactlyWhen(failing: set<Call>, cached: map<nat, Hash>, scanned: seq<Hash>, chain: seq<Hash>)
    requires Remembers(cached, scanned) && scanned != [] && |scanned| < |chain|
    ensures Outcome(failing, cached, scanned, chain) == chain <==> Reachable(failing, cached, scanned, chain)
  {
    hide SearchFrom, ForkHeight, Compared, Outcome;
    OutcomeIsChain(failing, cached, scanned, chain);
    var fork, cursor := ForkHeight(scanned, chain), |scanned| - 1;
    if fork < |scanned| {
      ForkSearchIsSafeExactlyWhen(failing, cached, scanned, chain);
      assert cursor in cached && cached[cursor] == chain[cursor] ==> StopsAt(failing, cached, chain, cursor);
    } else {
      assert scanned[cursor] == scanned[..fork][cursor] == chain[..fork][cursor] == chain[cursor];
    }
  }

  /**
   The node replaces at most 999 linked scanned blocks above a shared genesis block; the cache knows the cursor's hash,
   whatever else, and nothing ahead.
   */
  ghost predicate SmallReorg(u: Universe, cached: map<nat, Hash>, scanned: seq<Hash>, chain: seq<Hash>) {
    && IsChain(u, scanned) && IsChain(u, chain)
    && 0 < ForkHeight(scanned, chain) && |scanned| - ForkHeight(scanned, chain) <= 999
    && |scanned| - 1 in cached && |scanned| !in cached
  }

  /** Without errors it is undone. */
  lemma SmallReorgIsUndone(u: Universe, cached: map<nat, Hash>, scanned: seq<Hash>, chain: seq<Hash>)
    requires SmallReorg(u, cached, scanned, chain) && Remembers(cached, scanned)
    requires scanned != [] && |scanned| < |chain|
    ensures Reachable({}, cached, scanned, chain) && Outcome({}, cached, scanned, chain) == chain
  {
    hide IsChain, ForkHeight, Remembers, Outcome, ClearAboveFork;
    ChainsNeverAgreeAgain(u, cached, scanned, chain);
    PassConvergesExactlyWhen({}, cached, scanned, chain);
  }

  // ---------------------------------------------------------------------------
  // Reorganisations that are lost
  // ---------------------------------------------------------------------------

  /**
   A failed call in the walk makes it redo less, not more: with a failure at a height above the fork, orphans stay
   that the walk would have discarded.
   */
  lemma WalkErrorKeepsOrphans(failing: set<Call>, cached: map<nat, Hash>, scanned: seq<Hash>, chain: seq<Hash>, e: nat)
    requires Remembers(cached, scanned) && scanned != [] && |scanned| < |chain|
    requires ForkHeight(scanned, chain) <= e < |scanned| && HashCall(e) in failing
    ensures Outcome(failing, cached, scanned, chain) != chain
  {
    hide Outcome, ForkHeight;
    PassConvergesExactlyWhen(failing, cached, scanned, chain);
    assert StopsAt(failing, cached, chain, e);
  }

  /** A detection that does not come about, because a call fails or the cursor's hash is not cached, undoes nothing. */
  lemma UndetectedReorgIsLost(failing: set<Call>, cached: map<nat, Hash>, scanned: seq<Hash>, chain: seq<Hash>)
    requires Remembers(cached, scanned) && scanned != [] && |scanned| < |chain|
    requires ForkHeight(scanned, chain) < |scanned|
    requires !Compared(failing, scanned, chain) || |scanned| - 1 !in cached
    ensures scanned <= Outcome(failing, cached, scanned, chain) != chain
  {
    PassConvergesExactlyWhen(failing, cached, scanned, chain);
  }

  /** The bridge stands at the node's tip with other hashes below it. */
  ghost predicate Missed(cached: map<nat, Hash>, held: seq<Hash>, chain: seq<Hash>) {
    && held != [] && |held| == |chain| && held != chain && held[|held| - 1] == chain[|chain| - 1]
    && Remembers(cached, held) && |held| !in cached
  }

  /** From there no pass against a longer chain on top of the node's undoes anything, whatever calls fail. */
  lemma MissedForGood(failing: set<Call>, cached: map<nat, Hash>, held: seq<Hash>, chain: seq<Hash>, next: seq<Hash>)
    requires Missed(cached, held, chain) && chain < next
    ensures Outcome(failing, cached, held, next) == held + next[|held|..] != next
  {
    var n := |held|;
    assert next[n - 1] == chain[n - 1] == held[n - 1];
    assert held[..n] == held && next[n..] == [next[n]] + next[n + 1..];
    assert next[..n] == chain;
    assert (held + next[n..])[..n] == held;
  }

  // ---------------------------------------------------------------------------
  // What the outcome holds
  // ---------------------------------------------------------------------------

  /** Every block that the pass keeps in place of the node's holds the same shield data. */
  ghost predicate KeepsSameShields(u: Universe, failing: set<Call>, cached: map<nat, Hash>, scanned: seq<Hash>,
                                   chain: seq<Hash>)
    requires scanned != [] && |scanned| < |chain|
    requires AtHeights(u, chain) && AtHeights(u, Outcome(failing, cached, scanned, chain))
  {
    forall h | 0 <= h <= ScanStart(failing, cached, scanned, chain) ::
      u[Outcome(failing, cached, scanned, chain)[h]].Shield() == u[chain[h]].Shield()
  }

  /**
   What is recorded after a pass is what a fresh scan records exactly when no kept block carries other shield
   data.
   */
  lemma RecordsAgreeExactlyWhen(u: Universe, failing: set<Call>, cached: map<nat, Hash>, scanned: seq<Hash>,
                                chain: seq<Hash>)
    requires scanned != [] && |scanned| < |chain|
    requires AtHeights(u, chain) && AtHeights(u, Outcome(failing, cached, scanned, chain))
    ensures Shields(u, Outcome(failing, cached, scanned, chain)) == Shields(u, chain)
       <==> KeepsSameShields(u, failing, cached, scanned, chain)
  {
    hide Shields, Block.Shield, ScanStart, AtHeights;
    var r, f := Outcome(failing, cached, scanned, chain), ScanStart(failing, cached, scanned, chain);
    ShieldsEqualExactlyWhen(u, r, chain);
    forall h | f < h < |chain| ensures r[h] == chain[h] {
      OutcomeAbove(failing, cached, scanned, chain, h);
    }
  }

  lemma OutcomeAbove(failing: set<Call>, cached: map<nat, Hash>, scanned: seq<Hash>, chain: seq<Hash>, h: nat)
    requires scanned != [] && |scanned| < |chain| && ScanStart(failing, cached, scanned, chain) < h < |chain|
    ensures Outcome(failing, cached, scanned, chain)[h] == chain[h]
  {
  }
}
