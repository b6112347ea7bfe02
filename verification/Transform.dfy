/** The PivxCompat to Compact/CompactPlus transformation of src/api.rs. */
module Transform {
  import opened Wrappers
  import opened Bytes
  import opened CompactSize
  import opened SaplingTx
  import opened Stream
  import opened Scanner
  import opened Packets

  /** Packets for the pending transactions that still parse. */
  function ReencodeRaws(raws: seq<seq<byte>>, format: StreamFormat): seq<byte> {
    if raws == [] then [] else
    (var parsed := Parse(raws[0]);
     if parsed.Ok? && parsed.value.Some? then Frame(CompactPayload(parsed.value.value, format)) else [])
    + ReencodeRaws(raws[1..], format)
  }

  /** What the walk still emits from `pos` on, with `pending` read since the last footer. */
  function TransformFrom(data: seq<byte>, pos: nat, pending: seq<seq<byte>>, format: StreamFormat): seq<byte>
    decreases |data| - pos
  {
    if pos + 4 > |data| || pos + 4 + U32At(data, pos) > |data| || U32At(data, pos) == 0 then []
    else
      var len := U32At(data, pos);
      var end := pos + 4 + len;
      if data[pos + 4] == 0x5d && len == 9 then
        Frame(HeaderPayload(U32At(data, pos + 5))) + ReencodeRaws(pending, format)
        + TransformFrom(data, end, [], format)
      else
        TransformFrom(data, end, pending + [data[pos + 4..end]], format)
  }

  method EncodeCompactPacket(out: ByteVec, compact: CompactTx, format: StreamFormat)
    requires format != PivxCompat
    modifies out
    ensures out.data == old(out.data) + Frame(CompactPayload(compact, format))
  {
    hide Frame, Written, Concat, NoteBytes;
    var packetType := if format == Compact then 0x04 else 0x05;
    var payload := CompactPreamble(packetType, compact);
    ghost var start := payload.data;
    for i := 0 to |compact.outputs|
      invariant out.data == old(out.data)
      invariant payload.data + NotesBytes(compact.outputs[i..], format) == start + NotesBytes(compact.outputs, format)
    {
      var o := compact.outputs[i];
      ghost var before := payload.data;
      if format == Compact {
        payload.Extend(o.cv);
      }
      payload.Extend(o.cmu);
      payload.Extend(o.epk);
      payload.Extend(o.enc);
      if format == Compact {
        payload.Extend(o.out);
      }
      assert payload.data == before + NoteBytes(o, format) by { NoteParts(before, o); }
      assert compact.outputs[i..][1..] == compact.outputs[i + 1..];
    }
    assert compact.outputs[|compact.outputs|..] == [];
    assert payload.data + [] == payload.data;
    assert payload.data == CompactPayload(compact, format);
    AppendFrame(out, payload.data);
  }

  method ReencodePending(out: ByteVec, pending: seq<seq<byte>>, format: StreamFormat)
    requires format != PivxCompat
    modifies out
    ensures out.data == old(out.data) + ReencodeRaws(pending, format)
  {
    hide Parse, Frame, CompactPayload;
    for i := 0 to |pending|
      invariant out.data + ReencodeRaws(pending[i..], format) == old(out.data) + ReencodeRaws(pending, format)
    {
      var parsed, _, _ := ParseSaplingTx(pending[i]);
      match parsed
      case Ok(Some(compact)) => EncodeCompactPacket(out, compact, format);
      case Ok(None) =>
      case Err(_) =>
      assert pending[i..][1..] == pending[i + 1..];
    }
    assert pending[|pending|..] == [];
    assert out.data + [] == out.data;
  }

  lemma Regroup(a: seq<byte>, b: seq<byte>, c: seq<byte>, d: seq<byte>)
    ensures a + (b + c + d) == a + b + c + d
  {
  }

  method PivxCompatToCompact(data: seq<byte>, format: StreamFormat) returns (result: seq<byte>)
    requires format != PivxCompat
    ensures result == TransformFrom(data, 0, [], format)
  {
    hide ReencodeRaws, Frame, HeaderPayload, U32At;
    var out := new ByteVec();
    var pos: nat := 0;
    var pending: seq<seq<byte>> := [];
    while pos + 4 <= |data|
      invariant pos <= |data|
      invariant out.data + TransformFrom(data, pos, pending, format) == TransformFrom(data, 0, [], format)
      decreases |data| - pos
    {
      var len := U32At(data, pos);
      var end := pos + 4 + len;
      if end > |data| || len == 0 { break; }
      ghost var before, todo := out.data, pending;
      if data[pos + 4] == 0x5d && len == 9 {
        var height := U32At(data, pos + 5);
        EncodeBlockHeader(out, height);
        ReencodePending(out, pending, format);
        pending := [];
        Regroup(before, Frame(HeaderPayload(height)), ReencodeRaws(todo, format), TransformFrom(data, end, [], format));
      } else {
        pending := pending + [data[pos + 4..end]];
      }
      pos := end;
    }
    assert TransformFrom(data, pos, pending, format) == [];
    assert out.data + [] == out.data;
    result := out.data;
  }

  // ---------------------------------------------------------------------------
  // The transformation commutes with encoding
  // ---------------------------------------------------------------------------

  function Raws(txs: seq<ShieldTx>): seq<seq<byte>> {
    if txs == [] then [] else [txs[0].raw] + Raws(txs[1..])
  }

  lemma {:induction false} ReencodingScannedTxs(txs: seq<ShieldTx>, format: StreamFormat)
    requires forall tx <- txs :: ScannedTx(tx)
    ensures ReencodeRaws(Raws(txs), format) == CompactPackets(txs, format)
  {
    hide Parse, Frame, CompactPayload;
    if txs != [] {
      assert ScannedTx(txs[0]);
      ReencodingScannedTxs(txs[1..], format);
    }
  }

  /** The walk over the raw transactions of one block: all collected, or cut short with nothing emitted. */
  lemma {:induction false} CollectsRaws(data: seq<byte>, pos: nat, txs: seq<ShieldTx>, rest: seq<byte>,
                                        pending: seq<seq<byte>>, format: StreamFormat)
    requires forall tx <- txs :: ScannedTx(tx)
    requires PrefixAt(data, pos, RawPackets(txs) + rest)
    ensures var end := pos + |RawPackets(txs)|;
            if |data| < end then TransformFrom(data, pos, pending, format) == []
            else && PrefixAt(data, end, rest)
                 && TransformFrom(data, pos, pending, format) == TransformFrom(data, end, pending + Raws(txs), format)
    decreases |txs|
  {
    hide Parse, Frame, U32At, PrefixAt, ReencodeRaws;
    if txs == [] {
      assert pending + [] == pending;
      assert [] + rest == rest;
    } else {
      var raw := txs[0].raw;
      assert ScannedTx(txs[0]);
      PrefixAtAssoc(data, pos, Frame(raw), RawPackets(txs[1..]), rest);
      PacketStep(data, pos, raw, RawPackets(txs[1..]) + rest);
      var next := pos + 4 + |raw|;
      if |data| >= next {
        assert data[pos + 4] == data[pos + 4..next][0] == raw[..4][0] == 0x03;
        CollectsRaws(data, next, txs[1..], rest, pending + [raw], format);
        assert pending + [raw] + Raws(txs[1..]) == pending + Raws(txs);
      }
    }
  }

  /** One stored block: wholly read and re-encoded, or cut short with nothing emitted. */
  lemma TransformsBlock(data: seq<byte>, pos: nat, b: ShieldBlock, rest: seq<byte>, format: StreamFormat)
    requires format != PivxCompat && Scanned(b)
    requires PrefixAt(data, pos, EncodeBlock(b, PivxCompat) + rest)
    ensures var end := pos + |EncodeBlock(b, PivxCompat)|;
            if |data| < end then TransformFrom(data, pos, [], format) == []
            else && PrefixAt(data, end, rest)
                 && TransformFrom(data, pos, [], format)
                    == EncodeBlock(b, format) + TransformFrom(data, end, [], format)
  {
    hide Frame, U32At, PrefixAt, ReencodeRaws, RawPackets, ScannedTx, FooterPayload, HeaderPayload, CompactPackets;
    var raws, footer := RawPackets(b.txs), Frame(FooterPayload(b.height, b.time));
    PrefixAtAssoc(data, pos, raws, footer, rest);
    CollectsRaws(data, pos, b.txs, footer + rest, [], format);
    assert [] + Raws(b.txs) == Raws(b.txs);
    var end := pos + |raws|;
    if |data| >= end {
      FooterStep(data, end, b.height, b.time, rest);
      ReencodingScannedTxs(b.txs, format);
    }
  }

  /** Transforming any cut of a stored stream yields the compact encoding of the blocks it wholly contains. */
  lemma {:induction false} TransformsCutFrom(data: seq<byte>, pos: nat, bs: seq<ShieldBlock>, format: StreamFormat)
    requires format != PivxCompat && AllScanned(bs)
    requires PrefixAt(data, pos, EncodeStream(bs, PivxCompat))
    ensures TransformFrom(data, pos, [], format) == EncodeStream(bs[..WholeBlocks(bs, |data| - pos)], format)
    decreases |bs|
  {
    hide U32At, PrefixAt, EncodeBlock, Scanned;
    PrefixInside(data, pos, EncodeStream(bs, PivxCompat));
    if bs != [] {
      TransformsBlock(data, pos, bs[0], EncodeStream(bs[1..], PivxCompat), format);
      var end := pos + |EncodeBlock(bs[0], PivxCompat)|;
      if |data| >= end {
        TransformsCutFrom(data, end, bs[1..], format);
        var k := WholeBlocks(bs, |data| - pos);
        assert bs[..k][0] == bs[0] && bs[..k][1..] == bs[1..][..k - 1];
      }
    }
  }

  lemma TransformsCut(bs: seq<ShieldBlock>, n: nat, format: StreamFormat)
    requires format != PivxCompat && AllScanned(bs) && n <= |EncodeStream(bs, PivxCompat)|
    ensures TransformFrom(EncodeStream(bs, PivxCompat)[..n], 0, [], format)
         == EncodeStream(bs[..WholeBlocks(bs, n)], format)
  {
    hide EncodeStream, TransformFrom, AllScanned, WholeBlocks;
    var cut := EncodeStream(bs, PivxCompat)[..n];
    assert cut[0..] == cut;
    TransformsCutFrom(cut, 0, bs, format);
  }

  /** Transforming the stored stream equals encoding the blocks directly. */
  lemma TransformCommutes(bs: seq<ShieldBlock>, format: StreamFormat)
    requires format != PivxCompat && AllScanned(bs)
    ensures TransformFrom(EncodeStream(bs, PivxCompat), 0, [], format) == EncodeStream(bs, format)
  {
    hide EncodeStream, TransformFrom, AllScanned, WholeBlocks;
    var s := EncodeStream(bs, PivxCompat);
    TransformsCut(bs, |s|, format);
    AllBlocksWhole(bs);
    assert s[..|s|] == s && bs[..|bs|] == bs;
  }

  // ---------------------------------------------------------------------------
  // Any packets
  // ---------------------------------------------------------------------------

  /** What pending packets become: the compact packets of those that serialise a transaction with Sapling data. */
  ghost function Compacted(raws: seq<seq<byte>>, format: StreamFormat): seq<byte> {
    if raws == [] then []
    else
      var first :=
        if c: CompactTx :| Carries(raws[0], Some(c)) then Frame(CompactPayload(c, format)) else [];
      first + Compacted(raws[1..], format)
  }

  /**
   What the first `n` bytes of any packets become: each footer its first five bytes and what was pending before it,
   up to an empty packet or one that is cut.
   */
  ghost function Reencoded(ps: seq<seq<byte>>, n: nat, pending: seq<seq<byte>>, format: StreamFormat): seq<byte>
    decreases |ps|
  {
    if ps == [] || ps[0] == [] || n < 4 + |ps[0]| then []
    else if IsFooter(ps[0]) then
      Frame(ps[0][..5]) + Compacted(pending, format) + Reencoded(ps[1..], n - 4 - |ps[0]|, [], format)
    else
      Reencoded(ps[1..], n - 4 - |ps[0]|, pending + [ps[0]], format)
  }

  lemma {:induction false} ReencodesWhatSerialises(raws: seq<seq<byte>>, format: StreamFormat)
    ensures ReencodeRaws(raws, format) == Compacted(raws, format)
  {
    hide Parse, Carries, Frame, CompactPayload;
    if raws != [] {
      forall c ensures Parse(raws[0]) == Ok(Some(c)) <==> Carries(raws[0], Some(c)) {
        ParserAcceptsExactly(raws[0], Some(c));
      }
      ReencodesWhatSerialises(raws[1..], format);
    }
  }

  lemma HeaderOfFooter(data: seq<byte>, pos: nat, p: seq<byte>)
    requires IsFooter(p) && pos + 13 <= |data| && data[pos + 4..pos + 13] == p
    ensures HeaderPayload(U32At(data, pos + 5)) == p[..5] && data[pos + 4] == 0x5d
  {
    SliceOfSlice(data, pos + 4, pos + 13, 1, 5);
    LEInvertsFromLE(p[1..5]);
    assert p[..5] == [p[0]] + p[1..5];
    assert data[pos + 4] == data[pos + 4..pos + 13][0];
  }

  lemma {:induction false} TransformsPacketsFrom(data: seq<byte>, pos: nat, ps: seq<seq<byte>>,
                                                 pending: seq<seq<byte>>, format: StreamFormat)
    requires Framable(ps) && PrefixAt(data, pos, Framed(ps))
    ensures TransformFrom(data, pos, pending, format) == Reencoded(ps, |data| - pos, pending, format)
    decreases |ps|
  {
    hide U32At, PrefixAt, Frame, ReencodeRaws, Compacted, HeaderPayload;
    PrefixInside(data, pos, Framed(ps));
    if ps != [] {
      var p := ps[0];
      PacketStep(data, pos, p, Framed(ps[1..]));
      var end := pos + 4 + |p|;
      if |data| >= end && p != [] {
        assert data[pos + 4] == data[pos + 4..end][0];
        if IsFooter(p) {
          HeaderOfFooter(data, pos, p);
          ReencodesWhatSerialises(pending, format);
          TransformsPacketsFrom(data, end, ps[1..], [], format);
        } else {
          TransformsPacketsFrom(data, end, ps[1..], pending + [p], format);
        }
      }
    }
  }

  /** Whoever wrote the packets, and wherever they are cut. */
  lemma TransformsPackets(ps: seq<seq<byte>>, n: nat, format: StreamFormat)
    requires Framable(ps) && n <= |Framed(ps)|
    ensures TransformFrom(Framed(ps)[..n], 0, [], format) == Reencoded(ps, n, [], format)
  {
    hide TransformFrom, Framed, Reencoded;
    var cut := Framed(ps)[..n];
    assert cut[0..] == cut;
    TransformsPacketsFrom(cut, 0, ps, [], format);
  }
}
