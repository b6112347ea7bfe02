/** The offset and length logic of the two shield-data endpoints of src/api.rs. */
module Serving {
  import opened Wrappers
  import opened Bytes
  import opened Stream
  import opened Scanner
  import opened Transform
  import opened Cache
  import opened Index

  /** The reply when the index read gave `offset` and the buffer read gave `buffer`. */
  function Reply(offset: Option<nat>, buffer: seq<byte>, format: StreamFormat): seq<byte> {
    match offset
    case None => []
    case Some(o) =>
      if o >= |buffer| then []
      else if format == PivxCompat then buffer[o..]
      else TransformFrom(buffer[o..], 0, [], format)
  }

  method GetShieldData(index: ShieldIndex, buffer: seq<byte>, start: nat, format: StreamFormat)
    returns (reply: seq<byte>)
    ensures reply == Reply(OffsetForHeight(index.entries, start), buffer, format)
  {
    var offset := OffsetForHeight(index.entries, start);
    if offset.None? { return []; }
    if offset.value >= |buffer| { return []; }
    if format == PivxCompat {
      reply := buffer[offset.value..];
    } else {
      reply := PivxCompatToCompact(buffer[offset.value..], format);
    }
  }

  /** None is the panic of a slice whose end lies behind the buffer. */
  function ReplyLength(entries: seq<IndexEntry>, buffer: seq<byte>, start: nat, end: nat,
                       format: StreamFormat): Option<nat>
  {
    if format == PivxCompat then Some(ByteLengthBetween(entries, start, end, |buffer|))
    else
      var startOff := GetOr(OffsetForHeight(entries, start), |buffer|);
      var endOff := GetOr(OffsetForHeight(entries, end + 1), |buffer|);
      if startOff >= |buffer| || startOff >= endOff then Some(0)
      else if endOff > |buffer| then None
      else Some(|TransformFrom(buffer[startOff..endOff], 0, [], format)|)
  }

  /** The slice panics exactly when it starts inside the buffer and its end, looked up in the index, lies behind it. */
  lemma PanicsExactlyWhen(entries: seq<IndexEntry>, buffer: seq<byte>, start: nat, end: nat, format: StreamFormat)
    ensures ReplyLength(entries, buffer, start, end, format).None?
       <==> format != PivxCompat
            && (match OffsetForHeight(entries, start) case None => false case Some(i) => i < |buffer|)
            && (match OffsetForHeight(entries, end + 1) case None => false case Some(i) => i > |buffer|)
  {
    hide TransformFrom;
  }

  method GetShieldDataLength(index: ShieldIndex, buffer: seq<byte>, start: nat, end: nat, format: StreamFormat)
    returns (length: Option<nat>)
    ensures length == ReplyLength(index.entries, buffer, start, end, format)
  {
    if format == PivxCompat {
      length := Some(ByteLengthBetween(index.entries, start, end, |buffer|));
    } else {
      var startOff := GetOr(OffsetForHeight(index.entries, start), |buffer|);
      var endOff := GetOr(OffsetForHeight(index.entries, end + 1), |buffer|);
      if startOff >= |buffer| || startOff >= endOff {
        return Some(0);
      }
      if endOff > |buffer| { return None; }
      var derived := PivxCompatToCompact(buffer[startOff..endOff], format);
      length := Some(|derived|);
    }
  }

  lemma {:induction false} FilterKeepsScanned(bs: seq<ShieldBlock>, lo: nat, hi: nat)
    requires AllScanned(bs)
    ensures AllScanned(BlocksFrom(bs, lo)) && AllScanned(BlocksIn(bs, lo, hi))
  {
    hide Scanned;
    if bs != [] {
      FilterKeepsScanned(bs[1..], lo, hi);
    }
  }

  /** Served bytes are the encoding, in the requested format, of the recorded blocks from `start` on. */
  lemma ServedSliceIsFilteredStream(bs: seq<ShieldBlock>, start: nat, format: StreamFormat)
    requires IncreasingHeights(bs) && AllScanned(bs)
    ensures Reply(OffsetForHeight(IndexOf(bs), start), EncodeStream(bs, PivxCompat), format)
         == EncodeStream(BlocksFrom(bs, start), format)
  {
    hide EncodeStream, BlocksFrom, Reply;
    EncodingOfNone(format);
    StaleOffsetServesWholeBlocks(bs, [], start, format);
    assert bs + [] == bs;
    assert BlocksFrom(bs, start) + [] == BlocksFrom(bs, start);
  }

  /**
   The index read may be older than the buffer read. If only appends happened in between, a non-empty reply is
   the filtered stream followed by whole newer blocks; an empty one means nothing was indexed from `start` on.
   */
  lemma StaleOffsetServesWholeBlocks(bs: seq<ShieldBlock>, newer: seq<ShieldBlock>, start: nat, format: StreamFormat)
    requires IncreasingHeights(bs) && AllScanned(bs) && AllScanned(newer)
    ensures Reply(OffsetForHeight(IndexOf(bs), start), EncodeStream(bs + newer, PivxCompat), format)
         == if BlocksFrom(bs, start) == [] then [] else EncodeStream(BlocksFrom(bs, start) + newer, format)
  {
    hide EncodeStream, OffsetForHeight, Cut, IndexOf, BlocksFrom, TransformFrom;
    var p := Cut(bs, start);
    OffsetIsBoundary(bs, start);
    if p == |bs| {
      assert bs[p..] == [];
    } else {
      var buffer := EncodeStream(bs + newer, PivxCompat);
      EncodedPrefix(bs + newer, p);
      assert (bs + newer)[..p] == bs[..p] && (bs + newer)[p..] == bs[p..] + newer;
      EncodeStreamAppend(bs[p..], newer, PivxCompat);
      NonEmptyStream(bs[p..]);
      FilterKeepsScanned(bs, start, 0);
      if format != PivxCompat {
        TransformCommutes(bs[p..] + newer, format);
      }
    }
  }

  lemma NonEmptyStream(bs: seq<ShieldBlock>)
    requires bs != []
    ensures |EncodeStream(bs, PivxCompat)| >= 13
  {
  }

  /** The count equals the length of encoding the blocks with start <= height <= end, in every format. */
  lemma LengthAgreesWithStream(bs: seq<ShieldBlock>, start: nat, end: nat, format: StreamFormat)
    requires IncreasingHeights(bs) && AllScanned(bs)
    ensures ReplyLength(IndexOf(bs), EncodeStream(bs, PivxCompat), start, end, format)
         == Some(|EncodeStream(BlocksIn(bs, start, end + 1), format)|)
  {
    hide EncodeStream, OffsetForHeight, GetOr, IndexOf, TransformFrom, BlocksIn, AllScanned;
    var between := BlocksIn(bs, start, end + 1);
    FilterKeepsScanned(bs, start, end + 1);
    EncodingOfNone(format);
    EncodingOfNone(PivxCompat);
    if start > end {
      BytesBetween(bs, end + 1, start);
      EmptyRange(bs, start, end + 1);
    } else {
      BytesBetween(bs, start, end + 1);
      if format != PivxCompat {
        TransformCommutes(between, format);
      }
      if between != [] {
        NonEmptyStream(between);
      }
    }
  }

  lemma EncodingOfNone(format: StreamFormat)
    ensures EncodeStream([], format) == []
  {
  }

  lemma {:induction false} EmptyRange(bs: seq<ShieldBlock>, lo: nat, hi: nat)
    requires hi <= lo
    ensures BlocksIn(bs, lo, hi) == []
  {
    if bs != [] {
      EmptyRange(bs[1..], lo, hi);
    }
  }

  lemma RangesConcatenate(bs: seq<ShieldBlock>, lo: nat, mid: nat, hi: nat)
    requires IncreasingHeights(bs) && lo <= mid <= hi
    ensures BlocksIn(bs, lo, hi) == BlocksIn(bs, lo, mid) + BlocksIn(bs, mid, hi)
  {
    hide *;
    RangeIsSlice(bs, lo, hi);
    RangeIsSlice(bs, lo, mid);
    RangeIsSlice(bs, mid, hi);
    var p, m, q := Cut(bs, lo), Cut(bs, mid), Cut(bs, hi);
    assert bs[p..q] == bs[p..m] + bs[m..q];
  }

  /** The blocks that a count covers when the buffer already holds `newer` and the index does not. */
  ghost function Counted(bs: seq<ShieldBlock>, newer: seq<ShieldBlock>, start: nat, end: nat): seq<ShieldBlock> {
    BlocksIn(bs, start, end + 1)
    + if BlocksFrom(bs, start) != [] && BlocksFrom(bs, end + 1) == [] then newer else []
  }

  /**
   Between the buffer append and the index add the count takes the newer blocks in, whatever `end` is, exactly when
   some indexed block lies at or above `start` and none above `end`.
   */
  lemma LengthUnderAppend(bs: seq<ShieldBlock>, newer: seq<ShieldBlock>, start: nat, end: nat, format: StreamFormat)
    requires IncreasingHeights(bs) && AllScanned(bs) && AllScanned(newer)
    ensures ReplyLength(IndexOf(bs), EncodeStream(bs + newer, PivxCompat), start, end, format)
         == Some(|EncodeStream(Counted(bs, newer, start, end), format)|)
  {
    hide EncodeStream, IndexOf, TransformFrom, BlocksIn, BlocksFrom, AllScanned, Cut, OffsetForHeight;
    var p, q := Cut(bs, start), Cut(bs, end + 1);
    var between, buffer := BlocksIn(bs, start, end + 1), EncodeStream(bs + newer, PivxCompat);
    EncodeStreamAppend(bs, newer, PivxCompat);
    OffsetIsBoundary(bs, start);
    OffsetIsBoundary(bs, end + 1);
    EncodingOfNone(format);
    if p == |bs| {
      NothingFrom(bs, start, end + 1);
    } else if q < |bs| {
      InsideLength(bs, newer, start, end, format);
      assert between + [] == between;
    } else {
      RestLength(bs, newer, start, end, format);
    }
  }

  lemma {:induction false} NothingFrom(bs: seq<ShieldBlock>, lo: nat, hi: nat)
    requires BlocksFrom(bs, lo) == []
    ensures BlocksIn(bs, lo, hi) == []
  {
    if bs != [] {
      NothingFrom(bs[1..], lo, hi);
    }
  }

  /** Both offsets are in the index: nothing newer counts. */
  lemma InsideLength(bs: seq<ShieldBlock>, newer: seq<ShieldBlock>, start: nat, end: nat, format: StreamFormat)
    requires IncreasingHeights(bs) && AllScanned(bs) && Cut(bs, start) < |bs| && Cut(bs, end + 1) < |bs|
    ensures ReplyLength(IndexOf(bs), EncodeStream(bs + newer, PivxCompat), start, end, format)
         == Some(|EncodeStream(BlocksIn(bs, start, end + 1), format)|)
  {
    hide EncodeStream, IndexOf, TransformFrom, BlocksIn, BlocksFrom, AllScanned, Cut, OffsetForHeight;
    var s, buffer := EncodeStream(bs, PivxCompat), EncodeStream(bs + newer, PivxCompat);
    EncodeStreamAppend(bs, newer, PivxCompat);
    OffsetIsBoundary(bs, start);
    OffsetIsBoundary(bs, end + 1);
    var a, b := OffsetForHeight(IndexOf(bs), start).value, OffsetForHeight(IndexOf(bs), end + 1).value;
    LengthAgreesWithStream(bs, start, end, format);
    if a < b {
      assert buffer[a..b] == s[a..b];
    }
    OffsetInside(bs, start);
    OffsetInside(bs, end + 1);
  }

  lemma OffsetInside(bs: seq<ShieldBlock>, height: nat)
    requires IncreasingHeights(bs) && Cut(bs, height) < |bs|
    ensures OffsetForHeight(IndexOf(bs), height).Some?
    ensures OffsetForHeight(IndexOf(bs), height).value < |EncodeStream(bs, PivxCompat)|
  {
    hide EncodeStream, IndexOf, BlocksFrom, Cut, OffsetForHeight;
    OffsetIsBoundary(bs, height);
    NonEmptyStream(bs[Cut(bs, height)..]);
  }

  /** Only the start is in the index: everything from there on counts. */
  lemma RestLength(bs: seq<ShieldBlock>, newer: seq<ShieldBlock>, start: nat, end: nat, format: StreamFormat)
    requires IncreasingHeights(bs) && AllScanned(bs) && AllScanned(newer)
    requires Cut(bs, start) < |bs| == Cut(bs, end + 1)
    ensures ReplyLength(IndexOf(bs), EncodeStream(bs + newer, PivxCompat), start, end, format)
         == Some(|EncodeStream(BlocksIn(bs, start, end + 1) + newer, format)|)
  {
    hide EncodeStream, IndexOf, TransformFrom, BlocksIn, BlocksFrom, AllScanned, Cut, OffsetForHeight;
    var p, buffer := Cut(bs, start), EncodeStream(bs + newer, PivxCompat);
    OffsetIsBoundary(bs, start);
    OffsetIsBoundary(bs, end + 1);
    OffsetInside(bs, start);
    if start > end {
      CutIsMonotone(bs, end + 1, start);
    }
    RangeIsSlice(bs, start, end + 1);
    var rest := bs[p..];
    assert bs[p..|bs|] == rest;
    EncodedPrefix(bs + newer, p);
    assert (bs + newer)[..p] == bs[..p] && (bs + newer)[p..] == rest + newer;
    EncodeStreamAppend(bs, newer, PivxCompat);
    SuffixScanned(bs, newer, p);
    if format != PivxCompat {
      TransformCommutes(rest + newer, format);
      var a := |EncodeStream(bs[..p], PivxCompat)|;
      assert buffer[a..|buffer|] == buffer[a..];
    }
  }

  lemma SuffixScanned(bs: seq<ShieldBlock>, newer: seq<ShieldBlock>, p: nat)
    requires AllScanned(bs) && AllScanned(newer) && p <= |bs|
    ensures AllScanned(bs[p..] + newer)
  {
    hide Scanned;
  }

  /** So the count is exact for the indexed blocks exactly when nothing newer is taken in. */
  lemma LengthIsExactExactlyWhen(bs: seq<ShieldBlock>, newer: seq<ShieldBlock>, start: nat, end: nat,
                                 format: StreamFormat)
    requires IncreasingHeights(bs) && AllScanned(bs) && AllScanned(newer)
    ensures ReplyLength(IndexOf(bs), EncodeStream(bs + newer, PivxCompat), start, end, format)
              == Some(|EncodeStream(BlocksIn(bs, start, end + 1), format)|)
       <==> newer == [] || BlocksFrom(bs, start) == [] || BlocksFrom(bs, end + 1) != []
  {
    hide EncodeStream, IndexOf, ReplyLength, BlocksIn, BlocksFrom, AllScanned;
    var between := BlocksIn(bs, start, end + 1);
    LengthUnderAppend(bs, newer, start, end, format);
    EncodeStreamAppend(between, newer, format);
    EncodingOfNone(format);
    assert between + [] == between;
    if newer != [] { SomeBytes(newer, format); }
  }

  lemma SomeBytes(bs: seq<ShieldBlock>, format: StreamFormat)
    requires bs != []
    ensures |EncodeStream(bs, format)| > 0
  {
  }

  /** Progress counts add up over adjacent ranges. */
  lemma LengthsAreAdditive(bs: seq<ShieldBlock>, start: nat, mid: nat, end: nat, format: StreamFormat)
    requires IncreasingHeights(bs) && AllScanned(bs) && start <= mid <= end
    ensures var es, s := IndexOf(bs), EncodeStream(bs, PivxCompat);
            var first, second := ReplyLength(es, s, start, mid, format), ReplyLength(es, s, mid + 1, end, format);
            first.Some? && second.Some? && ReplyLength(es, s, start, end, format) == Some(first.value + second.value)
  {
    hide EncodeStream, IndexOf, ReplyLength;
    LengthAgreesWithStream(bs, start, end, format);
    LengthAgreesWithStream(bs, start, mid, format);
    LengthAgreesWithStream(bs, mid + 1, end, format);
    RangesConcatenate(bs, start, mid + 1, end + 1);
    EncodeStreamAppend(BlocksIn(bs, start, mid + 1), BlocksIn(bs, mid + 1, end + 1), format);
  }
}
