/**
 The node's view of the block chain: every block is known by its hash, and a chain is the list of hashes from
 height 0 to its tip. That equal hashes imply equal histories is a consequence, not an assumption.
 */
module Chain {
  import opened Wrappers
  import opened Bytes
  import opened Stream
  import opened Scanner

  datatype Hash = Hash(hex: string)

  datatype Block = Block(prev: Hash, height: nat, time: nat, txs: seq<seq<Hex.u8>>) {
    ghost predicate Sized() {
      height < U32_LIMIT && time < U32_LIMIT && forall raw <- txs :: |raw| < U32_LIMIT
    }

    function Shield(): Option<ShieldBlock> {
      ShieldOf(AllBytes(txs), height, time)
    }
  }

  /** A `getblock` reply; the last two fields change as the chain grows. */
  datatype BlockJson = BlockJson(height: Option<nat>, previousblockhash: Option<Hash>, time: nat,
                                 tx: Option<seq<TxJson>>,
                                 confirmations: Option<nat>, nextblockhash: Option<Hash>)

  function Json(b: Block, confirmations: Option<nat>, next: Option<Hash>): BlockJson {
    BlockJson(Some(b.height), if b.height > 0 then Some(b.prev) else None, b.time, Some(Rendered(b.txs)),
              confirmations, next)
  }

  function Stripped(json: BlockJson): BlockJson {
    json.(confirmations := None, nextblockhash := None)
  }

  /** A call to the node. */
  datatype Call = CountCall | HashCall(height: nat) | BlockCall(hash: Hash, verbosity: nat)

  type Universe = map<Hash, Block>

  ghost predicate WellFormed(u: Universe) {
    forall h <- u :: u[h].Sized()
  }

  /** `hs` lists, for each height, a block of that height. */
  ghost predicate AtHeights(u: Universe, hs: seq<Hash>) {
    forall i | 0 <= i < |hs| :: hs[i] in u && u[hs[i]].height == i
  }

  ghost predicate IsChain(u: Universe, hs: seq<Hash>) {
    AtHeights(u, hs) && forall i | 0 < i < |hs| :: u[hs[i]].prev == hs[i - 1]
  }

  lemma {:induction false} SameHashSameHistory(u: Universe, a: seq<Hash>, b: seq<Hash>, i: nat)
    requires IsChain(u, a) && IsChain(u, b) && i < |a| && i < |b| && a[i] == b[i]
    ensures a[..i + 1] == b[..i + 1]
  {
    if i > 0 {
      SameHashSameHistory(u, a, b, i - 1);
      assert a[..i + 1] == a[..i] + [a[i]] && b[..i + 1] == b[..i] + [b[i]];
    } else {
      assert a[..1] == [a[0]] && b[..1] == [b[0]];
    }
  }

  /** The first height at which the two lists differ, or the length of the shorter one. */
  ghost function ForkHeight(a: seq<Hash>, b: seq<Hash>): (f: nat)
    ensures f <= |a| && f <= |b| && a[..f] == b[..f]
    ensures f < |a| && f < |b| ==> a[f] != b[f]
  {
    if a == [] || b == [] || a[0] != b[0] then 0
    else
      var f := ForkHeight(a[1..], b[1..]);
      assert a[..f + 1] == [a[0]] + a[1..][..f] && b[..f + 1] == [b[0]] + b[1..][..f];
      f + 1
  }

  lemma SameHistoryAt(u: Universe, a: seq<Hash>, b: seq<Hash>, i: nat, j: nat)
    requires IsChain(u, a) && IsChain(u, b) && i < |a| && i < |b| && a[i] == b[i] && j <= i
    ensures a[j] == b[j]
  {
    SameHashSameHistory(u, a, b, i);
    assert a[j] == a[..i + 1][j] && b[j] == b[..i + 1][j];
  }

  /** Above the fork no height agrees again. */
  lemma DisagreeFromFork(u: Universe, a: seq<Hash>, b: seq<Hash>, h: nat)
    requires IsChain(u, a) && IsChain(u, b) && h < |a| && h < |b|
    ensures a[h] == b[h] <==> h < ForkHeight(a, b)
  {
    var f := ForkHeight(a, b);
    if h < f {
      assert a[h] == a[..f][h] && b[h] == b[..f][h];
    } else if a[h] == b[h] {
      SameHistoryAt(u, a, b, h, f);
    }
  }

  /** The shield blocks found when the listed blocks are scanned in order. */
  ghost function Shields(u: Universe, hs: seq<Hash>): seq<ShieldBlock>
    requires AtHeights(u, hs)
  {
    if hs == [] then []
    else
      var init, last := hs[..|hs| - 1], u[hs[|hs| - 1]].Shield();
      Shields(u, init) + if last.Some? then [last.value] else []
  }

  lemma ShieldsStep(u: Universe, hs: seq<Hash>, h: Hash)
    requires AtHeights(u, hs) && h in u && u[h].height == |hs|
    ensures AtHeights(u, hs + [h])
    ensures Shields(u, hs + [h]) == Shields(u, hs) + if u[h].Shield().Some? then [u[h].Shield().value] else []
  {
    assert (hs + [h])[..|hs|] == hs;
  }

  /** Shield blocks come out scanned, one per height at most, in increasing height order. */
  lemma {:induction false} ShieldsAreOrdered(u: Universe, hs: seq<Hash>)
    requires WellFormed(u) && AtHeights(u, hs)
    ensures AllScanned(Shields(u, hs))
    ensures forall b <- Shields(u, hs) :: b.height < |hs|
    ensures forall i, j | 0 <= i < j < |Shields(u, hs)| :: Shields(u, hs)[i].height < Shields(u, hs)[j].height
  {
    if hs != [] {
      ShieldsAreOrdered(u, hs[..|hs| - 1]);
      var b := u[hs[|hs| - 1]];
      assert b.Sized();
      ScannerEmitsScannedBlocks(AllBytes(b.txs), b.height, b.time);
    }
  }

  /** The shield blocks of a shorter scan come first; the remaining ones lie above it. */
  lemma {:induction false} ShieldsOfPrefix(u: Universe, hs: seq<Hash>, f: nat)
    requires AtHeights(u, hs) && f <= |hs|
    ensures AtHeights(u, hs[..f])
    ensures var kept, all := Shields(u, hs[..f]), Shields(u, hs);
            kept <= all && forall i | |kept| <= i < |all| :: all[i].height >= f
    decreases |hs|
  {
    hide Block.Shield;
    if f < |hs| {
      var init, b := hs[..|hs| - 1], u[hs[|hs| - 1]];
      ShieldsOfPrefix(u, init, f);
      assert init[..f] == hs[..f];
      ScannerHeight(b);
    } else {
      assert hs[..f] == hs;
    }
  }

  /** Whatever shield data a listed block carries is recorded. */
  lemma {:induction false} ShieldsContain(u: Universe, hs: seq<Hash>, i: nat)
    requires AtHeights(u, hs) && i < |hs| && u[hs[i]].Shield().Some?
    ensures u[hs[i]].Shield().value in Shields(u, hs)
    decreases |hs|
  {
    hide Block.Shield;
    if i < |hs| - 1 {
      ShieldsContain(u, hs[..|hs| - 1], i);
    }
  }

  /** Two lists of the same length record the same blocks exactly when they do so height by height. */
  lemma {:induction false} ShieldsEqualExactlyWhen(u: Universe, a: seq<Hash>, b: seq<Hash>)
    requires AtHeights(u, a) && AtHeights(u, b) && |a| == |b|
    ensures Shields(u, a) == Shields(u, b) <==> forall i | 0 <= i < |a| :: u[a[i]].Shield() == u[b[i]].Shield()
    decreases |a|
  {
    hide Block.Shield;
    if a != [] {
      var n := |a| - 1;
      var a', b', x, y := a[..n], b[..n], u[a[n]].Shield(), u[b[n]].Shield();
      ShieldsEqualExactlyWhen(u, a', b');
      assert forall i | 0 <= i < n :: a'[i] == a[i] && b'[i] == b[i];
      ShieldsBelow(u, a');
      ShieldsBelow(u, b');
      ScannerHeight(u[a[n]]);
      ScannerHeight(u[b[n]]);
      LastBlockDecides(Shields(u, a'), x, Shields(u, b'), y, n);
    }
  }

  lemma LastBlockDecides(s: seq<ShieldBlock>, x: Option<ShieldBlock>, t: seq<ShieldBlock>, y: Option<ShieldBlock>,
                         n: nat)
    requires (forall b <- s + t :: b.height < n)
    requires (x.Some? ==> x.value.height == n) && (y.Some? ==> y.value.height == n)
    ensures s + (if x.Some? then [x.value] else []) == t + (if y.Some? then [y.value] else []) <==> s == t && x == y
  {
    match (x, y) {
      case (Some(b), Some(c)) => LastOfBoth(s, b, t, c);
      case (Some(b), None) => NotAppended(s, b, t + [], n);
      case (None, Some(c)) => NotAppended(t, c, s + [], n);
      case (None, None) => assert s + [] == s && t + [] == t;
    }
  }

  lemma LastOfBoth(s: seq<ShieldBlock>, b: ShieldBlock, t: seq<ShieldBlock>, c: ShieldBlock)
    ensures s + [b] == t + [c] <==> s == t && b == c
  {
    var l, r := s + [b], t + [c];
    assert l[..|l| - 1] == s && r[..|r| - 1] == t && l[|l| - 1] == b && r[|r| - 1] == c;
  }

  lemma NotAppended(s: seq<ShieldBlock>, b: ShieldBlock, t: seq<ShieldBlock>, n: nat)
    requires b.height == n && forall c <- t :: c.height < n
    ensures s + [b] != t
  {
    assert (s + [b])[|s|] == b && b !in t;
  }

  lemma {:induction false} ShieldsBelow(u: Universe, hs: seq<Hash>)
    requires AtHeights(u, hs)
    ensures forall b <- Shields(u, hs) :: b.height < |hs|
  {
    hide Block.Shield;
    if hs != [] {
      ShieldsBelow(u, hs[..|hs| - 1]);
      ScannerHeight(u[hs[|hs| - 1]]);
    }
  }

  /** A found block has the height and the time of the node's block, and exactly its shielding transactions. */
  lemma FoundBlockIsTheNodes(b: Block)
    ensures b.Shield().None? <==> Shielding(AllBytes(b.txs)) == []
    ensures b.Shield().Some? ==>
              var found := b.Shield().value;
              && found.height == b.height && found.time == b.time
              && HoldsExactly(found.txs, Shielding(AllBytes(b.txs)))
  {
    hide ShieldOf, Shielding, HoldsExactly;
    FoundBlockHoldsExactlyShielding(AllBytes(b.txs), b.height, b.time);
  }

  /** Every recorded block is the one found in the scanned block of its height, with that block's time. */
  lemma {:induction false} RecordedAreTheNodes(u: Universe, hs: seq<Hash>)
    requires AtHeights(u, hs)
    ensures forall b <- Shields(u, hs) ::
              && b.height < |hs| && u[hs[b.height]].Shield() == Some(b)
              && b.time == u[hs[b.height]].time
              && HoldsExactly(b.txs, Shielding(AllBytes(u[hs[b.height]].txs)))
    decreases |hs|
  {
    hide Block.Shield, HoldsExactly, Shielding, AllBytes;
    if hs != [] {
      RecordedAreTheNodes(u, hs[..|hs| - 1]);
      FoundBlockIsTheNodes(u[hs[|hs| - 1]]);
    }
  }

  lemma ScannerHeight(b: Block)
    ensures b.Shield().Some? ==> b.Shield().value.height == b.height
  {
  }
}
