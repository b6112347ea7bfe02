/** Concrete shield data for the runs that show what can go wrong. */
module Samples {
  import opened Wrappers
  import opened Bytes
  import opened CompactSize
  import opened SaplingTx
  import opened Stream
  import opened Scanner

  function Zeros(n: nat): (s: seq<byte>)
    ensures |s| == n
  {
    seq(n, _ => 0)
  }

  /** A v3 transaction with one spend and no output, padded to any size. */
  function SampleRaw(padding: nat): (raw: seq<byte>)
    ensures |raw| == 405 + padding
  {
    SAPLING_HEADER + ([0] + ([0] + (Zeros(4) + ([1] + (Zeros(8) + ([1] + (Zeros(384) + ([0] + Zeros(padding)))))))))
  }

  /** The same bytes as the node holds them. */
  function SampleBits(padding: nat): (bits: seq<Hex.u8>)
    ensures |bits| == 405 + padding
  {
    seq(405 + padding, i => if i == 0 then 3 else if i == 10 || i == 19 then 1 else 0)
  }

  lemma SampleBitsAreRaw(padding: nat)
    ensures FromBits(SampleBits(padding)) == SampleRaw(padding)
  {
  }

  function SampleTx(padding: nat): Tx {
    var z := Zeros(32);
    var spend := Spend(z, z, z, z, Zeros(192), Zeros(64));
    Tx(SAPLING_HEADER, VarInt(0, 1), [], VarInt(0, 1), [],
       Present(Zeros(4), 1, Zeros(8), VarInt(1, 1), [spend], VarInt(0, 1), [], Zeros(padding)))
  }

  function SampleCompact(): CompactTx {
    CompactTx([Zeros(32)], [])
  }

  lemma SampleIsSerialised(padding: nat)
    ensures SampleTx(padding).WellFormed() && SampleTx(padding).Encode() == SampleRaw(padding)
    ensures SampleTx(padding).tail.Project() == Some(SampleCompact())
  {
    var t := SampleTx(padding);
    var spend := t.tail.spends[0];
    OneSpend(spend);
    assert t.tail.spends == [spend];
    assert spend.Encode() == Zeros(384);
    assert EncodeDescs(t.tail) == [1] + (Zeros(384) + ([0] + ([] + Zeros(padding))));
    assert [] + Zeros(padding) == Zeros(padding);
    var tail := t.tail.Encode();
    assert tail == Zeros(4) + ([1] + (Zeros(8) + EncodeDescs(t.tail)));
    assert t.Encode() == SAPLING_HEADER + ([0] + ([] + ([0] + ([] + tail))));
    assert [] + tail == tail && [] + ([0] + tail) == [0] + tail;
    assert t.tail.spends[1..] == [];
    ProjectsSample(t.tail.spends, t.tail.outputs);
  }

  lemma ProjectsSample(spends: seq<Spend>, outputs: seq<Output>)
    requires |spends| == 1 && spends[0].nullifier == Zeros(32) && outputs == []
    ensures Nullifiers(spends) == [Zeros(32)] && Notes(outputs) == []
  {
    assert spends[1..] == [];
  }

  lemma OneSpend(spend: Spend)
    requires spend.WellFormed()
    ensures EncodeSpends([spend]) == spend.Encode()
  {
    assert [spend][1..] == [];
  }

  lemma SampleIsKept(padding: nat)
    ensures Keep(SampleRaw(padding)) == Some(ShieldTx(SampleRaw(padding), Some(SampleCompact())))
  {
    hide Parse;
    SampleIsSerialised(padding);
    ParserInvertsSerialisation(SampleTx(padding));
    assert SampleRaw(padding)[..4] == SAPLING_HEADER;
  }

  function SampleBlock(height: nat, padding: nat): ShieldBlock {
    ShieldBlock(height, 0, [ShieldTx(SampleRaw(padding), Some(SampleCompact()))])
  }

  lemma SampleIsFound(height: nat, padding: nat)
    ensures ShieldOf(AllBytes([SampleBits(padding)]), height, 0) == Some(SampleBlock(height, padding))
  {
    hide Keep, SampleRaw, SampleBits, FromBits;
    SampleIsKept(padding);
    SampleBitsAreRaw(padding);
    var txs, raws := [SampleBits(padding)], [SampleRaw(padding)];
    assert txs[1..] == [] && AllBytes([]) == [];
    assert AllBytes(txs) == [FromBits(txs[0])] + [] == raws;
    assert raws[1..] == [] && KeepAll([]) == [];
    assert KeepAll(raws) == [Keep(raws[0]).value] + [] == SampleBlock(height, padding).txs;
  }

  lemma SampleIsScanned(height: nat, padding: nat)
    requires height < U32_LIMIT && padding < 1000
    ensures Scanned(SampleBlock(height, padding))
    ensures |EncodeStream([SampleBlock(height, padding)], PivxCompat)| == 422 + padding
  {
    hide Parse, SampleRaw;
    SampleIsFound(height, padding);
    ScannerEmitsScannedBlocks(AllBytes([SampleBits(padding)]), height, 0);
    var b := SampleBlock(height, padding);
    EncodeStreamOne(b, PivxCompat);
    assert b.txs[1..] == [] && RawPackets([]) == [];
    assert RawPackets(b.txs) == Frame(b.txs[0].raw) + RawPackets(b.txs[1..]);
  }
}
