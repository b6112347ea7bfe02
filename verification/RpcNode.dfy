/** The node behind the RPC client: a fixed universe of blocks and an active chain that may be replaced. */
module RpcNode {
  import opened Wrappers
  import opened Chain

  class Node {
    const universe: Universe
    /** The active chain, from height 0 to the tip. */
    var chain: seq<Hash>
    /** When true, the chain stays put and exactly the calls in `failing` fail; otherwise any answer is possible. */
    var steady: bool
    var failing: set<Call>

    constructor (universe: Universe, chain: seq<Hash>)
      requires WellFormed(universe) && IsChain(universe, chain) && chain != []
      ensures Valid() && steady && failing == {} && this.universe == universe && this.chain == chain
    {
      this.universe, this.chain, this.steady, this.failing := universe, chain, true, {};
    }

    ghost predicate Valid()
      reads this
    {
      WellFormed(universe) && IsChain(universe, chain) && chain != []
    }

    method GetBlockCount() returns (r: Option<nat>)
      requires Valid()
      ensures steady ==> r == if CountCall in failing then None else Some(|chain| - 1)
    {
      if steady {
        r := if CountCall in failing then None else Some(|chain| - 1);
      } else {
        r := *;
      }
    }

    method GetBlockHash(height: nat) returns (r: Option<Hash>)
      requires Valid()
      ensures r.Some? ==> r.value in universe && universe[r.value].height == height
      ensures steady ==> r == if height < |chain| && HashCall(height) !in failing then Some(chain[height]) else None
    {
      if steady {
        r := if height < |chain| && HashCall(height) !in failing then Some(chain[height]) else None;
      } else {
        var answer: Hash := *;
        r := if answer in universe && universe[answer].height == height then Some(answer) else None;
      }
    }

    method GetBlock(hash: Hash, verbosity: nat) returns (r: Option<BlockJson>)
      requires Valid()
      ensures r.Some? ==> hash in universe && Stripped(r.value) == Json(universe[hash], None, None)
      ensures steady && hash in universe ==> (r.None? <==> BlockCall(hash, verbosity) in failing)
    {
      var fails, confirmations, next := *, *, *;
      if hash !in universe || (if steady then BlockCall(hash, verbosity) in failing else fails) { return None; }
      r := Some(Json(universe[hash], confirmations, next));
    }

    /** The node settles on a chain, and on which calls fail. */
    method Adopt(next: seq<Hash>, failing: set<Call>)
      requires WellFormed(universe) && IsChain(universe, next) && next != []
      modifies this
      ensures Valid() && steady && chain == next && this.failing == failing
    {
      chain, steady, this.failing := next, true, failing;
    }

    /** Between passes the node may have adopted any other chain of its universe. */
    method Churn()
      requires Valid()
      modifies this
      ensures Valid()
    {
      steady, failing := *, *;
      var other: seq<Hash> := *;
      if CheckedChain(universe, other) {
        chain := other;
      }
    }
  }

  predicate CheckedChain(u: Universe, hs: seq<Hash>)
    ensures CheckedChain(u, hs) ==> IsChain(u, hs) && hs != []
  {
    && hs != []
    && (forall i | 0 <= i < |hs| :: hs[i] in u && u[hs[i]].height == i)
    && (forall i | 0 < i < |hs| :: u[hs[i]].prev == hs[i - 1])
  }
}
