/** The three stream encoders of src/stream.rs. */
module Stream {
  import opened Wrappers
  import opened Bytes
  import opened CompactSize
  import opened SaplingTx

  datatype StreamFormat = PivxCompat | Compact | CompactPlus

  datatype ShieldTx = ShieldTx(raw: seq<byte>, compact: Option<CompactTx>)

  datatype ShieldBlock = ShieldBlock(height: nat, time: nat, txs: seq<ShieldTx>)

  const PACKET_TYPE_BLOCK: byte := 0x5d
  const PACKET_TYPE_COMPACT_TX: byte := 0x04
  const PACKET_TYPE_COMPACT_PLUS_TX: byte := 0x05

  // ---------------------------------------------------------------------------
  // What the streams contain
  // ---------------------------------------------------------------------------

  /** A packet: the payload behind its length, which is truncated to 32 bits. */
  function Frame(payload: seq<byte>): (s: seq<byte>)
    ensures |s| == 4 + |payload|
  {
    LE(|payload|, 4) + payload
  }

  /** A client can skip a packet by its prefix exactly when the payload is under 4 GiB. */
  lemma PrefixIsExact(payload: seq<byte>)
    ensures FromLE(Frame(payload)[..4]) == |payload| <==> |payload| < U32_LIMIT
  {
    assert Frame(payload)[..4] == LE(|payload|, 4);
    PowersOf256();
    LEInvertsFromLE(LE(|payload|, 4));
    if |payload| < U32_LIMIT {
      U32RoundTrip(|payload|);
    }
  }

  function FooterPayload(height: nat, time: nat): (s: seq<byte>)
    ensures |s| == 9
  {
    [PACKET_TYPE_BLOCK] + LE(height, 4) + LE(time, 4)
  }

  function HeaderPayload(height: nat): (s: seq<byte>)
    ensures |s| == 5
  {
    [PACKET_TYPE_BLOCK] + LE(height, 4)
  }

  function RawPackets(txs: seq<ShieldTx>): seq<byte> {
    if txs == [] then [] else Frame(txs[0].raw) + RawPackets(txs[1..])
  }

  function Concat(parts: seq<seq<byte>>): seq<byte> {
    if parts == [] then [] else parts[0] + Concat(parts[1..])
  }

  function NoteBytes(o: CompactOutput, format: StreamFormat): seq<byte> {
    if format == Compact then o.cv + o.cmu + o.epk + o.enc + o.out else o.cmu + o.epk + o.enc
  }

  function NotesBytes(os: seq<CompactOutput>, format: StreamFormat): seq<byte> {
    if os == [] then [] else NoteBytes(os[0], format) + NotesBytes(os[1..], format)
  }

  function CompactPayload(c: CompactTx, format: StreamFormat): seq<byte> {
    [if format == Compact then PACKET_TYPE_COMPACT_TX else PACKET_TYPE_COMPACT_PLUS_TX]
    + Written(|c.nullifiers|) + Written(|c.outputs|)
    + Concat(c.nullifiers) + NotesBytes(c.outputs, format)
  }

  function CompactPackets(txs: seq<ShieldTx>, format: StreamFormat): seq<byte> {
    if txs == [] then []
    else (if txs[0].compact.Some? then Frame(CompactPayload(txs[0].compact.value, format)) else [])
         + CompactPackets(txs[1..], format)
  }

  function EncodeBlock(b: ShieldBlock, format: StreamFormat): (s: seq<byte>)
    ensures format == PivxCompat ==> |s| >= 13
  {
    if format == PivxCompat then RawPackets(b.txs) + Frame(FooterPayload(b.height, b.time))
    else Frame(HeaderPayload(b.height)) + CompactPackets(b.txs, format)
  }

  function EncodeStream(bs: seq<ShieldBlock>, format: StreamFormat): seq<byte> {
    if bs == [] then [] else EncodeBlock(bs[0], format) + EncodeStream(bs[1..], format)
  }

  /** The bytes that tell packets apart, and where the height stands. */
  lemma PacketTypes(c: CompactTx, height: nat, time: nat)
    ensures Frame(CompactPayload(c, Compact))[4] == 0x04
    ensures Frame(CompactPayload(c, CompactPlus))[4] == 0x05
    ensures Frame(HeaderPayload(height))[..5] == [5, 0, 0, 0, 0x5d]
    ensures Frame(FooterPayload(height, time))[..5] == [9, 0, 0, 0, 0x5d]
  {
    SmallLength(5);
    SmallLength(9);
  }

  lemma SmallLength(n: nat)
    requires n < 256
    ensures LE(n, 4) == [n, 0, 0, 0]
  {
    assert LE(n, 4) == [n] + LE(0, 3) && LE(0, 3) == [0] + LE(0, 2) && LE(0, 2) == [0] + LE(0, 1);
  }

  lemma {:induction false} EncodeStreamAppend(a: seq<ShieldBlock>, b: seq<ShieldBlock>, format: StreamFormat)
    ensures EncodeStream(a + b, format) == EncodeStream(a, format) + EncodeStream(b, format)
  {
    hide EncodeBlock;
    if a == [] {
      assert a + b == b && [] + EncodeStream(b, format) == EncodeStream(b, format);
    } else {
      EncodeStreamAppend(a[1..], b, format);
      assert (a + b)[1..] == a[1..] + b && (a + b)[0] == a[0];
      Associative(EncodeBlock(a[0], format), EncodeStream(a[1..], format), EncodeStream(b, format));
    }
  }

  lemma Associative(a: seq<byte>, b: seq<byte>, c: seq<byte>)
    ensures (a + b) + c == a + (b + c)
  {
  }

  lemma EncodeStreamOne(b: ShieldBlock, format: StreamFormat)
    ensures EncodeStream([b], format) == EncodeBlock(b, format)
  {
    hide EncodeBlock;
    assert [b][1..] == [];
  }

  // ---------------------------------------------------------------------------
  // The encoders as the source runs them
  // ---------------------------------------------------------------------------

  method EncodeShieldStream(blocks: seq<ShieldBlock>, format: StreamFormat) returns (stream: seq<byte>)
    ensures stream == EncodeStream(blocks, format)
  {
    hide EncodeBlock;
    var out := new ByteVec();
    for i := 0 to |blocks|
      invariant out.data + EncodeStream(blocks[i..], format) == EncodeStream(blocks, format)
    {
      match format
      case PivxCompat => EncodePivxCompat(out, blocks[i]);
      case Compact => EncodeCompact(out, blocks[i]);
      case CompactPlus => EncodeCompactPlus(out, blocks[i]);
      assert blocks[i..][1..] == blocks[i + 1..];
    }
    assert blocks[|blocks|..] == [];
    stream := out.data;
  }

  method EncodePivxCompat(stream: ByteVec, block: ShieldBlock)
    modifies stream
    ensures stream.data == old(stream.data) + EncodeBlock(block, PivxCompat)
  {
    hide Frame, FooterPayload;
    for i := 0 to |block.txs|
      invariant stream.data + RawPackets(block.txs[i..]) == old(stream.data) + RawPackets(block.txs)
    {
      AppendFrame(stream, block.txs[i].raw);
      assert block.txs[i..][1..] == block.txs[i + 1..];
    }
    assert block.txs[|block.txs|..] == [];
    ghost var txBytes := stream.data;
    stream.Extend(LE(9, 4));
    stream.Push(PACKET_TYPE_BLOCK);
    stream.Extend(LE(block.height, 4));
    stream.Extend(LE(block.time, 4));
    FooterBytes(txBytes, block.height, block.time);
    assert txBytes + [] == txBytes;
    assert old(stream.data) + RawPackets(block.txs) + Frame(FooterPayload(block.height, block.time))
        == old(stream.data) + EncodeBlock(block, PivxCompat);
  }

  lemma FooterBytes(s: seq<byte>, height: nat, time: nat)
    ensures s + LE(9, 4) + [PACKET_TYPE_BLOCK] + LE(height, 4) + LE(time, 4) == s + Frame(FooterPayload(height, time))
  {
  }

  /** The length prefix and the payload that every packet encoder ends with. */
  method AppendFrame(stream: ByteVec, payload: seq<byte>)
    modifies stream
    ensures stream.data == old(stream.data) + Frame(payload)
  {
    stream.Extend(LE(|payload|, 4));
    stream.Extend(payload);
    assert old(stream.data) + LE(|payload|, 4) + payload == old(stream.data) + Frame(payload);
  }

  method EncodeBlockHeader(stream: ByteVec, height: nat)
    modifies stream
    ensures stream.data == old(stream.data) + Frame(HeaderPayload(height))
  {
    stream.Extend(LE(5, 4));
    stream.Push(PACKET_TYPE_BLOCK);
    stream.Extend(LE(height, 4));
    assert stream.data == old(stream.data) + Frame(HeaderPayload(height));
  }

  method EncodeCompact(stream: ByteVec, block: ShieldBlock)
    modifies stream
    ensures stream.data == old(stream.data) + EncodeBlock(block, Compact)
  {
    hide Frame, HeaderPayload, CompactPayload;
    EncodeBlockHeader(stream, block.height);
    ghost var start := stream.data;
    for i := 0 to |block.txs|
      invariant stream.data + CompactPackets(block.txs[i..], Compact) == start + CompactPackets(block.txs, Compact)
    {
      match block.txs[i].compact
      case Some(compact) => EncodeCompactTx(stream, compact);
      case None =>
      assert block.txs[i..][1..] == block.txs[i + 1..];
    }
    assert block.txs[|block.txs|..] == [];
    assert stream.data + [] == stream.data;
    assert start + CompactPackets(block.txs, Compact) == old(stream.data) + EncodeBlock(block, Compact);
  }

  method EncodeCompactPlus(stream: ByteVec, block: ShieldBlock)
    modifies stream
    ensures stream.data == old(stream.data) + EncodeBlock(block, CompactPlus)
  {
    hide Frame, HeaderPayload, CompactPayload;
    EncodeBlockHeader(stream, block.height);
    ghost var start := stream.data;
    for i := 0 to |block.txs|
      invariant stream.data + CompactPackets(block.txs[i..], CompactPlus)
             == start + CompactPackets(block.txs, CompactPlus)
    {
      match block.txs[i].compact
      case Some(compact) => EncodeCompactPlusTx(stream, compact);
      case None =>
      assert block.txs[i..][1..] == block.txs[i + 1..];
    }
    assert block.txs[|block.txs|..] == [];
    assert stream.data + [] == stream.data;
    assert start + CompactPackets(block.txs, CompactPlus) == old(stream.data) + EncodeBlock(block, CompactPlus);
  }

  /** The part of a compact payload before the outputs; all three packet encoders start with it. */
  method CompactPreamble(packetType: byte, compact: CompactTx) returns (payload: ByteVec)
    ensures fresh(payload)
    ensures payload.data
         == [packetType] + Written(|compact.nullifiers|) + Written(|compact.outputs|) + Concat(compact.nullifiers)
  {
    hide Written;
    payload := new ByteVec();
    payload.Push(packetType);
    WriteCompactSize(payload, |compact.nullifiers|);
    WriteCompactSize(payload, |compact.outputs|);
    ghost var start := payload.data;
    assert start == [packetType] + Written(|compact.nullifiers|) + Written(|compact.outputs|);
    for i := 0 to |compact.nullifiers|
      invariant payload.data + Concat(compact.nullifiers[i..]) == start + Concat(compact.nullifiers)
    {
      payload.Extend(compact.nullifiers[i]);
      assert compact.nullifiers[i..][1..] == compact.nullifiers[i + 1..];
    }
    assert compact.nullifiers[|compact.nullifiers|..] == [];
  }

  lemma NoteParts(s: seq<byte>, o: CompactOutput)
    ensures s + o.cv + o.cmu + o.epk + o.enc + o.out == s + NoteBytes(o, Compact)
    ensures s + o.cmu + o.epk + o.enc == s + NoteBytes(o, CompactPlus)
  {
  }

  method EncodeCompactTx(stream: ByteVec, compact: CompactTx)
    modifies stream
    ensures stream.data == old(stream.data) + Frame(CompactPayload(compact, Compact))
  {
    hide Frame, Written, Concat, NoteBytes;
    var payload := CompactPreamble(PACKET_TYPE_COMPACT_TX, compact);
    ghost var start := payload.data;
    for i := 0 to |compact.outputs|
      invariant stream.data == old(stream.data)
      invariant payload.data + NotesBytes(compact.outputs[i..], Compact) == start + NotesBytes(compact.outputs, Compact)
    {
      var o := compact.outputs[i];
      ghost var before := payload.data;
      payload.Extend(o.cv);
      payload.Extend(o.cmu);
      payload.Extend(o.epk);
      payload.Extend(o.enc);
      payload.Extend(o.out);
      assert payload.data == before + NoteBytes(o, Compact) by { NoteParts(before, o); }
      assert compact.outputs[i..][1..] == compact.outputs[i + 1..];
    }
    assert compact.outputs[|compact.outputs|..] == [];
    assert payload.data + [] == payload.data;
    assert payload.data == CompactPayload(compact, Compact);
    AppendFrame(stream, payload.data);
  }

  method EncodeCompactPlusTx(stream: ByteVec, compact: CompactTx)
    modifies stream
    ensures stream.data == old(stream.data) + Frame(CompactPayload(compact, CompactPlus))
  {
    hide Frame, Written, Concat, NoteBytes;
    var payload := CompactPreamble(PACKET_TYPE_COMPACT_PLUS_TX, compact);
    ghost var start := payload.data;
    for i := 0 to |compact.outputs|
      invariant stream.data == old(stream.data)
      invariant payload.data + NotesBytes(compact.outputs[i..], CompactPlus)
             == start + NotesBytes(compact.outputs, CompactPlus)
    {
      var o := compact.outputs[i];
      ghost var before := payload.data;
      payload.Extend(o.cmu);
      payload.Extend(o.epk);
      payload.Extend(o.enc);
      assert payload.data == before + NoteBytes(o, CompactPlus) by { NoteParts(before, o); }
      assert compact.outputs[i..][1..] == compact.outputs[i + 1..];
    }
    assert compact.outputs[|compact.outputs|..] == [];
    assert payload.data + [] == payload.data;
    assert payload.data == CompactPayload(compact, CompactPlus);
    AppendFrame(stream, payload.data);
  }
}
