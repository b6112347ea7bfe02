/** What a light client makes of a reply: the readers that the three stream formats are measured against. */
module Client {
  import opened Wrappers
  import opened Bytes
  import opened CompactSize
  import opened SaplingTx
  import opened Stream
  import opened Scanner
  import opened Packets
  import opened Index
  import opened Serving
  import opened CompactPacket

  // ---------------------------------------------------------------------------
  // The stored format: raw transactions, each block closed by its footer
  // ---------------------------------------------------------------------------

  function Received(raw: seq<byte>): ShieldTx {
    ShieldTx(raw, if Parse(raw).Ok? then Parse(raw).value else None)
  }

  /** The whole blocks from `pos` on, with `pending` read since the last footer. */
  function ReadStored(data: seq<byte>, pos: nat, pending: seq<ShieldTx>): seq<ShieldBlock>
    decreases |data| - pos
  {
    if pos + 4 > |data| || pos + 4 + U32At(data, pos) > |data| then []
    else
      var len := U32At(data, pos);
      var end := pos + 4 + len;
      if len == 9 && data[pos + 4] == 0x5d then
        [ShieldBlock(U32At(data, pos + 5), U32At(data, pos + 9), pending)] + ReadStored(data, end, [])
      else
        ReadStored(data, end, pending + [Received(data[pos + 4..end])])
  }

  lemma {:induction false} ReadsRaws(data: seq<byte>, pos: nat, txs: seq<ShieldTx>, rest: seq<byte>,
                                     pending: seq<ShieldTx>)
    requires forall tx <- txs :: ScannedTx(tx)
    requires PrefixAt(data, pos, RawPackets(txs) + rest)
    ensures var end := pos + |RawPackets(txs)|;
            if |data| < end then ReadStored(data, pos, pending) == []
            else && PrefixAt(data, end, rest)
                 && ReadStored(data, pos, pending) == ReadStored(data, end, pending + txs)
    decreases |txs|
  {
    hide Parse, Frame, U32At, PrefixAt;
    if txs == [] {
      assert pending + [] == pending;
      assert [] + rest == rest;
    } else {
      var raw := txs[0].raw;
      assert ScannedTx(txs[0]);
      PrefixAtAssoc(data, pos, Frame(raw), RawPackets(txs[1..]), rest);
      PacketStep(data, pos, raw, RawPackets(txs[1..]) + rest);
      var next := pos + 4 + |raw|;
      if |data| >= next {
        assert data[pos + 4] == data[pos + 4..next][0] == raw[..4][0] == 0x03;
        assert Received(raw) == txs[0];
        ReadsRaws(data, next, txs[1..], rest, pending + [txs[0]]);
        assert pending + [txs[0]] + txs[1..] == pending + txs;
      }
    }
  }

  lemma ReadsStoredBlock(data: seq<byte>, pos: nat, b: ShieldBlock, rest: seq<byte>)
    requires Scanned(b) && PrefixAt(data, pos, EncodeBlock(b, PivxCompat) + rest)
    ensures var end := pos + |EncodeBlock(b, PivxCompat)|;
            if |data| < end then ReadStored(data, pos, []) == []
            else PrefixAt(data, end, rest) && ReadStored(data, pos, []) == [b] + ReadStored(data, end, [])
  {
    hide Frame, U32At, PrefixAt, RawPackets, ScannedTx, FooterPayload;
    var raws, footer := RawPackets(b.txs), Frame(FooterPayload(b.height, b.time));
    PrefixAtAssoc(data, pos, raws, footer, rest);
    ReadsRaws(data, pos, b.txs, footer + rest, []);
    assert [] + b.txs == b.txs;
    if |data| >= pos + |raws| {
      FooterStep(data, pos + |raws|, b.height, b.time, rest);
    }
  }

  lemma {:induction false} ReadsStoredFrom(data: seq<byte>, pos: nat, bs: seq<ShieldBlock>)
    requires AllScanned(bs) && PrefixAt(data, pos, EncodeStream(bs, PivxCompat))
    ensures ReadStored(data, pos, []) == bs[..WholeBlocks(bs, |data| - pos)]
    decreases |bs|
  {
    hide U32At, PrefixAt, EncodeBlock, Scanned;
    PrefixInside(data, pos, EncodeStream(bs, PivxCompat));
    if bs != [] {
      ReadsStoredBlock(data, pos, bs[0], EncodeStream(bs[1..], PivxCompat));
      var end := pos + |EncodeBlock(bs[0], PivxCompat)|;
      if |data| >= end {
        ReadsStoredFrom(data, end, bs[1..]);
        var k := WholeBlocks(bs, |data| - pos);
        assert bs[..k] == [bs[0]] + bs[1..][..k - 1];
      }
    }
  }

  /** From any cut of a stored stream the wholly contained blocks are read back: heights, times, transactions. */
  lemma StoredRoundTrip(bs: seq<ShieldBlock>, n: nat)
    requires AllScanned(bs) && n <= |EncodeStream(bs, PivxCompat)|
    ensures ReadStored(EncodeStream(bs, PivxCompat)[..n], 0, []) == bs[..WholeBlocks(bs, n)]
  {
    hide EncodeStream, AllScanned, WholeBlocks, ReadStored;
    var cut := EncodeStream(bs, PivxCompat)[..n];
    assert cut[0..] == cut;
    ReadsStoredFrom(cut, 0, bs);
  }

  /** So a stored stream determines its blocks. */
  lemma StoredIsInjective(a: seq<ShieldBlock>, b: seq<ShieldBlock>)
    requires AllScanned(a) && AllScanned(b)
    ensures EncodeStream(a, PivxCompat) == EncodeStream(b, PivxCompat) <==> a == b
  {
    hide EncodeStream, AllScanned, ReadStored;
    var s, t := EncodeStream(a, PivxCompat), EncodeStream(b, PivxCompat);
    StoredRoundTrip(a, |s|);
    StoredRoundTrip(b, |t|);
    AllBlocksWhole(a);
    AllBlocksWhole(b);
    assert s[..|s|] == s && t[..|t|] == t && a[..|a|] == a && b[..|b|] == b;
  }

  /** A client that asks for the stored format from `start` on receives exactly those recorded blocks. */
  lemma StoredReplyIsRead(bs: seq<ShieldBlock>, start: nat)
    requires IncreasingHeights(bs) && AllScanned(bs)
    ensures var reply := Reply(OffsetForHeight(IndexOf(bs), start), EncodeStream(bs, PivxCompat), PivxCompat);
            ReadStored(reply, 0, []) == BlocksFrom(bs, start)
  {
    hide EncodeStream, AllScanned, ReadStored, Reply, OffsetForHeight, IndexOf, BlocksFrom;
    var served := BlocksFrom(bs, start);
    var s := EncodeStream(served, PivxCompat);
    ServedSliceIsFilteredStream(bs, start, PivxCompat);
    FilterKeepsScanned(bs, start, 0);
    StoredRoundTrip(served, |s|);
    AllBlocksWhole(served);
    assert s[..|s|] == s && served[..|served|] == served;
  }

  // ---------------------------------------------------------------------------
  // Compaction shrinks
  // ---------------------------------------------------------------------------

  lemma {:induction false} SpendsLength(ts: seq<Spend>)
    requires forall t <- ts :: t.WellFormed()
    ensures |EncodeSpends(ts)| == 384 * |ts|
  {
    if ts != [] {
      SpendsLength(ts[1..]);
    }
  }

  lemma {:induction false} OutputsLength(ts: seq<Output>)
    requires forall t <- ts :: t.WellFormed()
    ensures |EncodeOutputs(ts)| == 948 * |ts|
  {
    if ts != [] {
      OutputsLength(ts[1..]);
    }
  }

  lemma {:induction false} NullifiersLength(nfs: seq<seq<byte>>)
    requires forall nf <- nfs :: |nf| == 32
    ensures |Concat(nfs)| == 32 * |nfs|
  {
    if nfs != [] {
      assert nfs[0] in nfs;
      NullifiersLength(nfs[1..]);
    }
  }

  lemma ShorterThanAny(v: VarInt)
    requires v.Fits()
    ensures |Written(v.value)| <= v.width
  {
  }

  /** A transaction's compact packet is shorter than its raw bytes, so its length always fits the prefix. */
  lemma CompactionShrinks(tx: ShieldTx, format: StreamFormat)
    requires ScannedTx(tx) && format != PivxCompat
    ensures Encodable(tx.compact.value)
    ensures |CompactPayload(tx.compact.value, format)| < |tx.raw| < U32_LIMIT
  {
    hide Parse, Written, EncodeSpends, EncodeOutputs, EncodeIns, EncodeOuts, Concat, NotesBytes, VarInt.Encode;
    var c := tx.compact.value;
    ParsedIsWellFormed(tx.raw, c);
    var t := DissectTx(tx.raw);
    ParserInvertsSerialisation(t);
    var tail := t.tail;
    SpendsCarryFields(tail.spends);
    OutputsCarryFields(tail.outputs);
    SpendsLength(tail.spends);
    OutputsLength(tail.outputs);
    NullifiersLength(c.nullifiers);
    NotesLength(c.outputs, format);
    ShorterThanAny(tail.spendCount);
    ShorterThanAny(tail.outputCount);
    assert |tail.Encode()| == 13 + |EncodeDescs(tail)|;
  }

  // ---------------------------------------------------------------------------
  // The compact formats: a header, then the block's compact packets
  // ---------------------------------------------------------------------------

  datatype CompactBlock = CompactBlock(height: nat, txs: seq<CompactTx>)

  /** The compact packets from `pos` on, up to the first other packet, and its position. */
  function ReadTxs(data: seq<byte>, pos: nat, format: StreamFormat, acc: seq<CompactTx>): (r: (seq<CompactTx>, nat))
    ensures pos <= r.1
    decreases |data| - pos
  {
    match Decode(data, pos)
    case None => (acc, pos)
    case Some((kind, tx, end)) =>
      if kind != format || end <= pos || end > |data| then (acc, pos) else ReadTxs(data, end, format, acc + [tx])
  }

  function ReadCompact(data: seq<byte>, pos: nat, format: StreamFormat): seq<CompactBlock>
    decreases |data| - pos
  {
    if pos + 9 > |data| || U32At(data, pos) != 5 || data[pos + 4] != 0x5d then []
    else
      var (txs, end) := ReadTxs(data, pos + 9, format, []);
      [CompactBlock(U32At(data, pos + 5), txs)] + ReadCompact(data, end, format)
  }

  /** What the format carries of a block's transactions. */
  function SentTxs(txs: seq<ShieldTx>, format: StreamFormat): seq<CompactTx> {
    if txs == [] then []
    else
      (match txs[0].compact
       case None => []
       case Some(c) => [CompactTx(c.nullifiers, ProjectedAll(c.outputs, format))])
      + SentTxs(txs[1..], format)
  }

  function Sent(bs: seq<ShieldBlock>, format: StreamFormat): seq<CompactBlock> {
    if bs == [] then [] else [CompactBlock(bs[0].height, SentTxs(bs[0].txs, format))] + Sent(bs[1..], format)
  }

  /** No compact packet starts at `pos`: the data ends there, or a header follows. */
  predicate NoPacketAt(data: seq<byte>, pos: nat) {
    pos + 5 > |data| || data[pos + 4] == 0x5d
  }

  lemma {:induction false} ReadsPackets(data: seq<byte>, pos: nat, txs: seq<ShieldTx>, format: StreamFormat,
                                        acc: seq<CompactTx>)
    requires format != PivxCompat && (forall tx <- txs :: ScannedTx(tx))
    requires At(data, pos, CompactPackets(txs, format)) && NoPacketAt(data, pos + |CompactPackets(txs, format)|)
    ensures ReadTxs(data, pos, format, acc) == (acc + SentTxs(txs, format), pos + |CompactPackets(txs, format)|)
    decreases |txs|
  {
    hide Decode, Frame, CompactPayload, ProjectedAll, At, Encodable, ReadTxs, ScannedTx;
    if txs == [] {
      NothingRead(data, pos, format, acc);
      assert acc + [] == acc;
    } else {
      assert ScannedTx(txs[0]);
      IsParsed(txs[0]);
      var c := txs[0].compact.value;
      var packet := Frame(CompactPayload(c, format));
      AtSplit(data, pos, packet, CompactPackets(txs[1..], format));
      CompactionShrinks(txs[0], format);
      DecodesPayload(data, pos, c, format);
      AtInside(data, pos, packet);
      var sent := CompactTx(c.nullifiers, ProjectedAll(c.outputs, format));
      var acc' := acc + [sent];
      ReadStep(data, pos, format, acc, sent, pos + |packet|);
      ReadsPackets(data, pos + |packet|, txs[1..], format, acc');
      assert acc' + SentTxs(txs[1..], format) == acc + SentTxs(txs, format);
    }
  }

  lemma NothingRead(data: seq<byte>, pos: nat, format: StreamFormat, acc: seq<CompactTx>)
    requires NoPacketAt(data, pos)
    ensures ReadTxs(data, pos, format, acc) == (acc, pos)
  {
  }

  lemma ReadStep(data: seq<byte>, pos: nat, format: StreamFormat, acc: seq<CompactTx>, tx: CompactTx, end: nat)
    requires Decode(data, pos) == Some((format, tx, end)) && pos < end <= |data|
    ensures ReadTxs(data, pos, format, acc) == ReadTxs(data, end, format, acc + [tx])
  {
    hide Decode;
  }

  lemma IsParsed(tx: ShieldTx)
    requires ScannedTx(tx)
    ensures tx.compact.Some?
  {
  }

  lemma ReadsHeader(data: seq<byte>, pos: nat, height: nat)
    requires height < U32_LIMIT && At(data, pos, Frame(HeaderPayload(height)))
    ensures pos + 9 <= |data| && U32At(data, pos) == 5 && data[pos + 4] == 0x5d
    ensures U32At(data, pos + 5) == height
  {
    var s := Frame(HeaderPayload(height));
    SliceOfSlice(data, pos, pos + 9, 0, 4);
    SliceOfSlice(data, pos, pos + 9, 5, 9);
    assert s[0..4] == LE(5, 4) && s[5..9] == LE(height, 4);
    assert data[pos + 4] == s[4];
    U32RoundTrip(5);
    U32RoundTrip(height);
  }

  lemma {:induction false} ReadsCompactFrom(data: seq<byte>, pos: nat, bs: seq<ShieldBlock>, format: StreamFormat)
    requires format != PivxCompat && AllScanned(bs)
    requires At(data, pos, EncodeStream(bs, format)) && pos + |EncodeStream(bs, format)| == |data|
    ensures NoPacketAt(data, pos)
    ensures ReadCompact(data, pos, format) == Sent(bs, format)
    decreases |bs|
  {
    hide At, U32At, Frame, HeaderPayload, CompactPackets, ReadTxs, ScannedTx, SentTxs;
    if bs != [] {
      var b, rest := bs[0], EncodeStream(bs[1..], format);
      var header, packets := Frame(HeaderPayload(b.height)), CompactPackets(b.txs, format);
      assert Scanned(b);
      AtSplit(data, pos, EncodeBlock(b, format), rest);
      AtSplit(data, pos, header, packets);
      ReadsHeader(data, pos, b.height);
      ReadsCompactFrom(data, pos + 9 + |packets|, bs[1..], format);
      ReadsPackets(data, pos + 9, b.txs, format, []);
      assert [] + SentTxs(b.txs, format) == SentTxs(b.txs, format);
    }
  }

  /** A compact stream reads back as the heights and the projected transactions of its blocks. */
  lemma CompactRoundTrip(bs: seq<ShieldBlock>, format: StreamFormat)
    requires format != PivxCompat && AllScanned(bs)
    ensures ReadCompact(EncodeStream(bs, format), 0, format) == Sent(bs, format)
  {
    hide EncodeStream, ReadCompact, Sent, AllScanned;
    var s := EncodeStream(bs, format);
    assert s[0..|s|] == s;
    ReadsCompactFrom(s, 0, bs, format);
  }

  /**
   A client that asks for a compact format from `start` on receives exactly the recorded blocks from there,
   projected.
   */
  lemma CompactReplyIsRead(bs: seq<ShieldBlock>, start: nat, format: StreamFormat)
    requires format != PivxCompat && IncreasingHeights(bs) && AllScanned(bs)
    ensures var reply := Reply(OffsetForHeight(IndexOf(bs), start), EncodeStream(bs, PivxCompat), format);
            ReadCompact(reply, 0, format) == Sent(BlocksFrom(bs, start), format)
  {
    hide *;
    ServedSliceIsFilteredStream(bs, start, format);
    FilterKeepsScanned(bs, start, 0);
    CompactRoundTrip(BlocksFrom(bs, start), format);
  }
}
