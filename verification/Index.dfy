/** The height-to-offset index of src/index.rs and what it says about an encoded stream. */
module Index {
  import opened Wrappers
  import opened Stream
  import opened Cache

  datatype IndexEntry = IndexEntry(block: nat, i: nat)

  /** The position of the first entry at or above `height`. */
  function PartitionPoint(entries: seq<IndexEntry>, height: nat): (p: nat)
    ensures p <= |entries|
    ensures forall k | 0 <= k < p :: entries[k].block < height
    ensures p < |entries| ==> entries[p].block >= height
  {
    if entries == [] || entries[0].block >= height then 0 else 1 + PartitionPoint(entries[1..], height)
  }

  function OffsetForHeight(entries: seq<IndexEntry>, height: nat): Option<nat> {
    var p := PartitionPoint(entries, height);
    if p < |entries| then Some(entries[p].i) else None
  }

  function GetOr(o: Option<nat>, default: nat): nat {
    match o case Some(v) => v case None => default
  }

  function ByteLengthBetween(entries: seq<IndexEntry>, start: nat, end: nat, total: nat): nat {
    var startOffset := GetOr(OffsetForHeight(entries, start), total);
    var endOffset := GetOr(OffsetForHeight(entries, end + 1), total);
    if endOffset >= startOffset then endOffset - startOffset else 0
  }

  function RetainBelow(entries: seq<IndexEntry>, height: nat): seq<IndexEntry> {
    if entries == [] then []
    else (if entries[0].block < height then [entries[0]] else []) + RetainBelow(entries[1..], height)
  }

  function RetainHeightsBelow(heights: seq<nat>, height: nat): seq<nat> {
    if heights == [] then []
    else (if heights[0] < height then [heights[0]] else []) + RetainHeightsBelow(heights[1..], height)
  }

  function Heights(entries: seq<IndexEntry>): (hs: seq<nat>)
    ensures |hs| == |entries|
    ensures forall k | 0 <= k < |hs| :: hs[k] == entries[k].block
  {
    if entries == [] then [] else [entries[0].block] + Heights(entries[1..])
  }

  ghost predicate Increasing(entries: seq<IndexEntry>) {
    forall i, j | 0 <= i < j < |entries| :: entries[i].block < entries[j].block
  }

  lemma {:induction false} RetainBelowIsPrefix(entries: seq<IndexEntry>, height: nat)
    requires Increasing(entries)
    ensures RetainBelow(entries, height) == entries[..PartitionPoint(entries, height)]
  {
    if entries != [] {
      RetainBelowIsPrefix(entries[1..], height);
      if entries[0].block >= height {
        assert forall k | 0 <= k < |entries[1..]| :: entries[1..][k].block > entries[0].block;
        assert PartitionPoint(entries[1..], height) == 0;
      } else {
        assert entries[..PartitionPoint(entries, height)]
            == [entries[0]] + entries[1..][..PartitionPoint(entries[1..], height)];
      }
    }
  }

  lemma {:induction false} HeightsOfRetained(entries: seq<IndexEntry>, height: nat)
    ensures RetainHeightsBelow(Heights(entries), height) == Heights(RetainBelow(entries, height))
  {
    if entries != [] {
      HeightsOfRetained(entries[1..], height);
      assert Heights(entries)[1..] == Heights(entries[1..]);
      if entries[0].block < height {
        assert RetainBelow(entries, height)[1..] == RetainBelow(entries[1..], height);
      }
    }
  }

  class ShieldIndex {
    var entries: seq<IndexEntry>
    var shieldHeights: seq<nat>
    /** What the JSON file holds; replaced whole by a rename, or not at all. */
    var saved: seq<IndexEntry>

    ghost predicate Valid()
      reads this
    {
      shieldHeights == Heights(entries) && Increasing(entries)
    }

    constructor ()
      ensures Valid() && entries == [] && saved == []
    {
      entries, shieldHeights, saved := [], [], [];
    }

    /** A known height is left alone; a height above all others keeps the index valid. */
    method Add(height: nat, byteOffset: nat)
      modifies this`entries, this`shieldHeights
      ensures entries
           == if height in old(shieldHeights) then old(entries) else old(entries) + [IndexEntry(height, byteOffset)]
      ensures shieldHeights
           == if height in old(shieldHeights) then old(shieldHeights) else old(shieldHeights) + [height]
      ensures old(Valid()) && (forall h <- old(shieldHeights) :: h < height) ==> Valid()
    {
      if height !in shieldHeights {
        entries := entries + [IndexEntry(height, byteOffset)];
        shieldHeights := shieldHeights + [height];
      }
      if old(Valid()) && forall h <- old(shieldHeights) :: h < height {
        forall k | 0 <= k < |old(entries)| ensures old(entries)[k].block < height {
          assert old(shieldHeights)[k] in old(shieldHeights);
        }
        assert shieldHeights == Heights(entries);
      }
    }

    /** Cuts both lists back to the entries before `height`. */
    method RemoveFrom(height: nat)
      requires Valid()
      modifies this`entries, this`shieldHeights
      ensures Valid() && entries == old(entries)[..PartitionPoint(old(entries), height)]
    {
      entries := RetainBelow(entries, height);
      shieldHeights := RetainHeightsBelow(shieldHeights, height);
      RetainBelowIsPrefix(old(entries), height);
      HeightsOfRetained(old(entries), height);
    }

    method Save(disk: Disk) returns (ok: bool)
      modifies this`saved
      ensures (disk.Working? ==> ok) && (disk.Failing? ==> !ok)
      ensures saved == if ok then entries else old(saved)
    {
      var bad := *;
      ok := !disk.Fails(bad);
      if ok { saved := entries; }
    }
  }

  // ---------------------------------------------------------------------------
  // The index of a list of recorded blocks
  // ---------------------------------------------------------------------------

  ghost predicate IncreasingHeights(bs: seq<ShieldBlock>) {
    forall i, j | 0 <= i < j < |bs| :: bs[i].height < bs[j].height
  }

  /** Each block at the encoded length of all blocks before it. */
  ghost function IndexOf(bs: seq<ShieldBlock>): (es: seq<IndexEntry>)
    ensures |es| == |bs|
    ensures forall k | 0 <= k < |bs| :: es[k] == IndexEntry(bs[k].height, |EncodeStream(bs[..k], PivxCompat)|)
  {
    seq(|bs|, k requires 0 <= k < |bs| => IndexEntry(bs[k].height, |EncodeStream(bs[..k], PivxCompat)|))
  }

  lemma IndexOfAppend(bs: seq<ShieldBlock>, b: ShieldBlock)
    ensures IndexOf(bs + [b]) == IndexOf(bs) + [IndexEntry(b.height, |EncodeStream(bs, PivxCompat)|)]
  {
    hide EncodeStream;
    forall k | 0 <= k < |bs| ensures IndexOf(bs + [b])[k] == IndexOf(bs)[k] {
      assert (bs + [b])[..k] == bs[..k];
    }
    assert (bs + [b])[..|bs|] == bs;
  }

  lemma IndexOfPrefix(bs: seq<ShieldBlock>, n: nat)
    requires n <= |bs|
    ensures IndexOf(bs[..n]) == IndexOf(bs)[..n]
  {
    hide EncodeStream;
    forall k | 0 <= k < n ensures IndexOf(bs[..n])[k] == IndexOf(bs)[k] {
      assert bs[..n][..k] == bs[..k];
    }
  }

  lemma IndexOfIncreasing(bs: seq<ShieldBlock>)
    ensures IncreasingHeights(bs) <==> Increasing(IndexOf(bs))
  {
    hide EncodeStream;
    if Increasing(IndexOf(bs)) {
      forall i, j | 0 <= i < j < |bs| ensures bs[i].height < bs[j].height {
        assert IndexOf(bs)[i].block < IndexOf(bs)[j].block;
      }
    }
  }

  /** The blocks with lo <= height < hi, in order: the reference that slices of the stream are measured against. */
  ghost function BlocksIn(bs: seq<ShieldBlock>, lo: nat, hi: nat): seq<ShieldBlock> {
    if bs == [] then []
    else (if lo <= bs[0].height < hi then [bs[0]] else []) + BlocksIn(bs[1..], lo, hi)
  }

  ghost function BlocksFrom(bs: seq<ShieldBlock>, lo: nat): seq<ShieldBlock> {
    if bs == [] then []
    else (if lo <= bs[0].height then [bs[0]] else []) + BlocksFrom(bs[1..], lo)
  }

  ghost function Cut(bs: seq<ShieldBlock>, height: nat): (p: nat)
    ensures p <= |bs|
  {
    hide EncodeStream;
    PartitionPoint(IndexOf(bs), height)
  }

  lemma CutSeparates(bs: seq<ShieldBlock>, height: nat)
    requires IncreasingHeights(bs)
    ensures forall k | 0 <= k < Cut(bs, height) :: bs[k].height < height
    ensures forall k | Cut(bs, height) <= k < |bs| :: bs[k].height >= height
  {
    hide EncodeStream;
    var es, p := IndexOf(bs), Cut(bs, height);
    forall k | 0 <= k < p ensures bs[k].height < height {
      assert es[k].block == bs[k].height;
    }
    if p < |bs| {
      assert es[p].block == bs[p].height;
    }
  }

  lemma {:induction false} SliceIsFilter(bs: seq<ShieldBlock>, p: nat, q: nat, lo: nat, hi: nat)
    requires p <= q <= |bs|
    requires forall k | 0 <= k < |bs| :: lo <= bs[k].height < hi <==> p <= k < q
    ensures bs[p..q] == BlocksIn(bs, lo, hi)
  {
    if bs != [] {
      var p', q' := if p > 0 then p - 1 else 0, if q > 0 then q - 1 else 0;
      SliceIsFilter(bs[1..], p', q', lo, hi);
      if p == 0 && q > 0 {
        assert bs[p..q] == [bs[0]] + bs[1..][p'..q'];
      } else {
        assert bs[p..q] == bs[1..][p'..q'];
      }
    }
  }

  lemma {:induction false} SuffixIsFilter(bs: seq<ShieldBlock>, p: nat, lo: nat)
    requires p <= |bs|
    requires forall k | 0 <= k < |bs| :: lo <= bs[k].height <==> p <= k
    ensures bs[p..] == BlocksFrom(bs, lo)
  {
    if bs != [] {
      var p' := if p > 0 then p - 1 else 0;
      SuffixIsFilter(bs[1..], p', lo);
      if p == 0 {
        assert bs[p..] == [bs[0]] + bs[1..][p'..];
      } else {
        assert bs[p..] == bs[1..][p'..];
      }
    }
  }

  lemma CutIsMonotone(bs: seq<ShieldBlock>, a: nat, b: nat)
    requires IncreasingHeights(bs) && a <= b
    ensures Cut(bs, a) <= Cut(bs, b)
  {
    CutSeparates(bs, a);
    CutSeparates(bs, b);
  }

  lemma BelowIsPrefix(bs: seq<ShieldBlock>, height: nat)
    requires IncreasingHeights(bs)
    ensures BlocksIn(bs, 0, height) == bs[..Cut(bs, height)]
  {
    hide Cut, BlocksIn;
    CutSeparates(bs, height);
    SliceIsFilter(bs, 0, Cut(bs, height), 0, height);
  }

  /** The blocks between two heights stand together. */
  lemma RangeIsSlice(bs: seq<ShieldBlock>, lo: nat, hi: nat)
    requires IncreasingHeights(bs) && lo <= hi
    ensures Cut(bs, lo) <= Cut(bs, hi) && BlocksIn(bs, lo, hi) == bs[Cut(bs, lo)..Cut(bs, hi)]
  {
    hide Cut, BlocksIn;
    CutIsMonotone(bs, lo, hi);
    CutSeparates(bs, lo);
    CutSeparates(bs, hi);
    SliceIsFilter(bs, Cut(bs, lo), Cut(bs, hi), lo, hi);
  }

  /** Offset lookup finds the boundary between the blocks below `height` and the rest. */
  lemma OffsetIsBoundary(bs: seq<ShieldBlock>, height: nat)
    requires IncreasingHeights(bs)
    ensures var s, p := EncodeStream(bs, PivxCompat), Cut(bs, height);
            && GetOr(OffsetForHeight(IndexOf(bs), height), |s|) == |EncodeStream(bs[..p], PivxCompat)| <= |s|
            && (OffsetForHeight(IndexOf(bs), height).None? <==> p == |bs|)
            && s[..|EncodeStream(bs[..p], PivxCompat)|] == EncodeStream(bs[..p], PivxCompat)
            && s[|EncodeStream(bs[..p], PivxCompat)|..] == EncodeStream(bs[p..], PivxCompat)
            && bs[p..] == BlocksFrom(bs, height)
  {
    hide EncodeStream;
    var p := Cut(bs, height);
    EncodedPrefix(bs, p);
    CutSeparates(bs, height);
    SuffixIsFilter(bs, p, height);
    if p == |bs| {
      assert bs[..p] == bs;
    }
  }

  /** The bytes between the boundaries of two heights encode exactly the blocks between them. */
  lemma BytesBetween(bs: seq<ShieldBlock>, lo: nat, hi: nat)
    requires IncreasingHeights(bs) && lo <= hi
    ensures var s := EncodeStream(bs, PivxCompat);
            var a, b := GetOr(OffsetForHeight(IndexOf(bs), lo), |s|), GetOr(OffsetForHeight(IndexOf(bs), hi), |s|);
            a <= b <= |s| && s[a..b] == EncodeStream(BlocksIn(bs, lo, hi), PivxCompat)
  {
    hide EncodeStream, OffsetForHeight, GetOr, Cut, BlocksIn, BlocksFrom, IndexOf;
    var s, p, q := EncodeStream(bs, PivxCompat), Cut(bs, lo), Cut(bs, hi);
    OffsetIsBoundary(bs, lo);
    OffsetIsBoundary(bs, hi);
    RangeIsSlice(bs, lo, hi);
    EncodedPrefix(bs[..q], p);
    assert bs[..q][..p] == bs[..p] && bs[..q][p..] == bs[p..q];
    var a, b := |EncodeStream(bs[..p], PivxCompat)|, |EncodeStream(bs[..q], PivxCompat)|;
    assert s[a..b] == s[..b][a..];
  }
}
