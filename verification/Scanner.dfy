/** The filter of src/scanner.rs that turns a `getblock` reply into a shield block. */
module Scanner {
  import opened Wrappers
  import opened Bytes
  import opened SaplingTx
  import opened Stream
  import Hex

  const SAPLING_HEADER: seq<byte> := [0x03, 0x00, 0x00, 0x00]

  /** Starts like a v3 transaction, and is the serialisation of one with Sapling data. */
  ghost predicate IsShielding(raw: seq<byte>) {
    |raw| >= 4 && raw[..4] == [0x03, 0x00, 0x00, 0x00] && exists c :: Carries(raw, Some(c))
  }

  /** The shielding transactions among `raws`, in order. */
  ghost function Shielding(raws: seq<seq<byte>>): seq<seq<byte>> {
    if raws == [] then [] else (if IsShielding(raws[0]) then [raws[0]] else []) + Shielding(raws[1..])
  }

  /** A transaction as the filter keeps it, or None when it is skipped. */
  function Keep(raw: seq<byte>): Option<ShieldTx> {
    if |raw| >= 4 && raw[..4] == SAPLING_HEADER && Parse(raw).Ok? && Parse(raw).value.Some? then
      Some(ShieldTx(raw, Parse(raw).value))
    else
      None
  }

  function KeepAll(raws: seq<seq<byte>>): seq<ShieldTx> {
    if raws == [] then []
    else (if Keep(raws[0]).Some? then [Keep(raws[0]).value] else []) + KeepAll(raws[1..])
  }

  function ShieldOf(raws: seq<seq<byte>>, height: nat, time: nat): Option<ShieldBlock> {
    var txs := KeepAll(raws);
    if txs == [] then None else Some(ShieldBlock(height, time, txs))
  }

  datatype ScanError = Rpc | MissingTxArray

  /** An element of the `tx` array: with its hex, or an identifier with the node's answer for it, or neither. */
  datatype TxJson = Inline(hex: seq<Hex.u8>) | ById(answer: Option<seq<Hex.u8>>) | Neither

  function HexOf(tx: TxJson): Option<seq<Hex.u8>> {
    match tx
    case Inline(hex) => Some(hex)
    case ById(answer) => answer
    case Neither => None
  }

  function FromBits(bs: seq<Hex.u8>): (r: seq<byte>)
    ensures |r| == |bs| && forall i | 0 <= i < |bs| :: r[i] == bs[i] as int
  {
    seq(|bs|, i requires 0 <= i < |bs| => bs[i] as int)
  }

  /** The bytes the scanner goes on with; None when the element is skipped. */
  function RawOf(target: Hex.Target, tx: TxJson): Option<seq<byte>> {
    match HexOf(tx)
    case None => None
    case Some(h) => if |h| % 2 != 0 then None else Some(FromBits(Hex.Mixed(h, Hex.Vectored(target, |h| / 2))))
  }

  function RawsOf(target: Hex.Target, txs: seq<TxJson>): seq<seq<byte>> {
    if txs == [] then []
    else (if RawOf(target, txs[0]).Some? then [RawOf(target, txs[0]).value] else []) + RawsOf(target, txs[1..])
  }

  /** One element of the array, up to its bytes. */
  method ReadTx(target: Hex.Target, tx: TxJson) returns (raw: Option<seq<byte>>)
    ensures raw == RawOf(target, tx)
  {
    hide FromBits, Hex.Mixed;
    var rawHex: seq<Hex.u8>;
    match tx {
      case Inline(hex) => rawHex := hex;
      case ById(answer) =>
        if answer.None? { return None; }
        rawHex := answer.value;
      case Neither => return None;
    }
    var decoded := Hex.HexDecode(target, rawHex);
    raw := if decoded.None? then None else Some(FromBits(decoded.value));
  }

  /** Keeps what starts like a v3 transaction and parses to shield data. */
  method Filter(bytes: seq<byte>) returns (kept: Option<ShieldTx>)
    ensures kept == Keep(bytes)
  {
    hide Parse;
    kept := None;
    if |bytes| >= 4 && bytes[..4] == SAPLING_HEADER {
      var parsed, _, _ := ParseSaplingTx(bytes);
      match parsed
      case Ok(Some(compact)) => kept := Some(ShieldTx(bytes, Some(compact)));
      case Ok(None) =>
      case Err(_) =>
    }
  }

  /** What one element of the array contributes. */
  function Contribution(target: Hex.Target, tx: TxJson): seq<ShieldTx> {
    var raw := RawOf(target, tx);
    if raw.Some? && Keep(raw.value).Some? then [Keep(raw.value).value] else []
  }

  method ScanTx(target: Hex.Target, tx: TxJson) returns (kept: seq<ShieldTx>)
    ensures kept == Contribution(target, tx)
  {
    hide Keep, RawOf;
    kept := [];
    var raw := ReadTx(target, tx);
    if raw.Some? {
      var found := Filter(raw.value);
      if found.Some? {
        kept := [found.value];
      }
    }
  }

  /** `tx` is the reply's array; None when there is none. Whatever cannot be read or parsed is skipped. */
  method ScanBlockInner(target: Hex.Target, tx: Option<seq<TxJson>>, height: nat, time: nat)
    returns (r: Result<Option<ShieldBlock>, ScanError>)
    ensures r == if tx.None? then Err(MissingTxArray) else Ok(ShieldOf(RawsOf(target, tx.value), height, time))
  {
    hide KeepAll, RawsOf, Contribution;
    if tx.None? {
      return Err(MissingTxArray);
    }
    var txs: seq<ShieldTx> := [];
    assert tx.value[0..] == tx.value;
    for i := 0 to |tx.value|
      invariant txs + KeepAll(RawsOf(target, tx.value[i..])) == KeepAll(RawsOf(target, tx.value))
    {
      assert tx.value[i..][1..] == tx.value[i + 1..];
      KeepsFirst(target, tx.value[i..]);
      var kept := ScanTx(target, tx.value[i]);
      txs := txs + kept;
    }
    NothingLeft(target);
    assert tx.value[|tx.value|..] == [];
    assert txs + [] == txs;
    r := Ok(if txs == [] then None else Some(ShieldBlock(height, time, txs)));
  }

  lemma NothingLeft(target: Hex.Target)
    ensures KeepAll(RawsOf(target, [])) == []
  {
  }

  lemma KeepsFirst(target: Hex.Target, txs: seq<TxJson>)
    requires txs != []
    ensures KeepAll(RawsOf(target, txs)) == Contribution(target, txs[0]) + KeepAll(RawsOf(target, txs[1..]))
  {
    hide Keep, RawOf;
    var first, rest := RawOf(target, txs[0]), RawsOf(target, txs[1..]);
    if first.Some? {
      assert ([first.value] + rest)[1..] == rest;
    } else {
      assert [] + rest == rest;
    }
  }

  // ---------------------------------------------------------------------------
  // The node's hex is read back
  // ---------------------------------------------------------------------------

  /** How a node writes bytes. */
  function ToHex(bs: seq<Hex.u8>): (h: seq<Hex.u8>)
    ensures |h| == 2 * |bs|
  {
    seq(2 * |bs|, i requires 0 <= i < 2 * |bs| => HexDigit(bs[i / 2], i % 2 == 0))
  }

  function HexDigit(b: Hex.u8, high: bool): Hex.u8 {
    Hex.Digit(if high then b >> 4 else b & 0x0F, false)
  }

  lemma DigitsDenote(b: Hex.u8)
    ensures Hex.Denotes(HexDigit(b, true), b >> 4) && Hex.Denotes(HexDigit(b, false), b & 0x0F)
  {
  }

  lemma HexIsBase16(bs: seq<Hex.u8>)
    ensures Hex.IsBase16(ToHex(bs), bs)
  {
    hide HexDigit, Hex.Denotes;
    var h := ToHex(bs);
    forall i | 0 <= i < |bs| ensures h[2 * i] == HexDigit(bs[i], true) && h[2 * i + 1] == HexDigit(bs[i], false) {
      assert (2 * i) / 2 == i && (2 * i) % 2 == 0 && (2 * i + 1) / 2 == i && (2 * i + 1) % 2 == 1;
    }
    forall i | 0 <= i < |bs| ensures Hex.Denotes(h[2 * i], bs[i] >> 4) && Hex.Denotes(h[2 * i + 1], bs[i] & 0x0F) {
      DigitsDenote(bs[i]);
    }
  }

  lemma NodeHexIsReadBack(target: Hex.Target, bs: seq<Hex.u8>)
    ensures RawOf(target, Inline(ToHex(bs))) == Some(FromBits(bs))
  {
    hide ToHex, FromBits, Hex.Mixed, Hex.IsBase16, Hex.IsDigit, Hex.Decoded;
    var h := ToHex(bs);
    HexIsBase16(bs);
    Hex.DecodingInvertsBase16(h, bs);
    Hex.VectorRefinesTableOnDigits(h, Hex.Vectored(target, |h| / 2));
  }

  /** Inline or fetched, hex is read as the bytes it denotes; what has none, or an odd number of digits, is skipped. */
  lemma HexIsRead(target: Hex.Target, h: seq<Hex.u8>, bs: seq<Hex.u8>)
    ensures Hex.IsBase16(h, bs) ==>
              RawOf(target, Inline(h)) == RawOf(target, ById(Some(h))) == Some(FromBits(bs))
    ensures RawOf(target, Inline(h)).None? <==> |h| % 2 != 0
    ensures RawOf(target, ById(Some(h))).None? <==> |h| % 2 != 0
    ensures RawOf(target, ById(None)).None? && RawOf(target, Neither).None?
  {
    hide FromBits, Hex.Mixed, Hex.IsBase16, Hex.IsDigit, Hex.Decoded;
    if Hex.IsBase16(h, bs) {
      Hex.DecodingInvertsBase16(h, bs);
      Hex.VectorRefinesTableOnDigits(h, Hex.Vectored(target, |h| / 2));
    }
  }

  /** A reply's array for the given transactions. */
  function Rendered(txs: seq<seq<Hex.u8>>): seq<TxJson> {
    if txs == [] then [] else [Inline(ToHex(txs[0]))] + Rendered(txs[1..])
  }

  function AllBytes(txs: seq<seq<Hex.u8>>): (raws: seq<seq<byte>>)
    ensures |raws| == |txs| && forall i | 0 <= i < |txs| :: |raws[i]| == |txs[i]|
  {
    if txs == [] then [] else [FromBits(txs[0])] + AllBytes(txs[1..])
  }

  /** On every build the scanner gets exactly the bytes of the node's transactions. */
  lemma {:induction false} RenderedIsReadBack(target: Hex.Target, txs: seq<seq<Hex.u8>>)
    ensures RawsOf(target, Rendered(txs)) == AllBytes(txs)
  {
    hide RawOf, ToHex, FromBits;
    if txs != [] {
      NodeHexIsReadBack(target, txs[0]);
      RenderedIsReadBack(target, txs[1..]);
      assert Rendered(txs)[1..] == Rendered(txs[1..]);
    }
  }

  // ---------------------------------------------------------------------------
  // Nothing shielding is dropped, and nothing else is kept
  // ---------------------------------------------------------------------------

  lemma KeptIsShielding(raw: seq<byte>)
    ensures Keep(raw).Some? <==> IsShielding(raw)
    ensures Keep(raw).Some? ==>
              Keep(raw).value.raw == raw && Keep(raw).value.compact.Some? && Carries(raw, Keep(raw).value.compact)
  {
    hide Parse, Carries;
    forall c ensures Parse(raw) == Ok(Some(c)) <==> Carries(raw, Some(c)) {
      ParserAcceptsExactly(raw, Some(c));
    }
    if Keep(raw).Some? {
      assert Carries(raw, Some(Parse(raw).value.value));
    }
  }

  /** The transactions of a block are `raws`, each with what it carries. */
  ghost predicate HoldsExactly(txs: seq<ShieldTx>, raws: seq<seq<byte>>) {
    |txs| == |raws| && forall i | 0 <= i < |txs| ::
      txs[i].raw == raws[i] && txs[i].compact.Some? && Carries(raws[i], txs[i].compact)
  }

  lemma {:induction false} KeptAreExactlyShielding(raws: seq<seq<byte>>)
    ensures HoldsExactly(KeepAll(raws), Shielding(raws))
  {
    hide Keep, IsShielding, Carries;
    if raws != [] {
      KeptIsShielding(raws[0]);
      KeptAreExactlyShielding(raws[1..]);
    }
  }

  /** A shield block is found exactly when some transaction shields, and holds exactly those, in order. */
  lemma FoundBlockHoldsExactlyShielding(raws: seq<seq<byte>>, height: nat, time: nat)
    ensures var found := ShieldOf(raws, height, time);
            && (found.None? <==> Shielding(raws) == [])
            && (found.Some? ==>
                  && found.value.height == height && found.value.time == time
                  && HoldsExactly(found.value.txs, Shielding(raws)))
  {
    hide KeepAll, Shielding, Carries;
    KeptAreExactlyShielding(raws);
  }

  lemma {:induction false} ShieldingIsThere(raws: seq<seq<byte>>, i: nat)
    requires i < |raws| && IsShielding(raws[i])
    ensures raws[i] in Shielding(raws)
    decreases |raws|
  {
    hide IsShielding;
    if i > 0 {
      ShieldingIsThere(raws[1..], i - 1);
    }
  }

  /** No v3 transaction that carries spends or outputs is dropped, wherever it stands in the block. */
  lemma NothingShieldingIsDropped(t: Tx, c: CompactTx, raws: seq<seq<byte>>, i: nat, height: nat, time: nat)
    requires t.WellFormed() && t.header == [0x03, 0x00, 0x00, 0x00] && t.tail.Project() == Some(c)
    requires i < |raws| && raws[i] == t.Encode()
    ensures ShieldOf(raws, height, time).Some?
    ensures ShieldTx(t.Encode(), Some(c)) in ShieldOf(raws, height, time).value.txs
  {
    hide KeepAll, Shielding, Parse;
    var raw := t.Encode();
    assert raw[..4] == t.header;
    assert Carries(raw, Some(c));
    ShieldingIsThere(raws, i);
    FoundBlockHoldsExactlyShielding(raws, height, time);
    var txs := ShieldOf(raws, height, time).value.txs;
    var k :| 0 <= k < |Shielding(raws)| && Shielding(raws)[k] == raw;
    ParserAcceptsExactly(raw, Some(c));
    ParserAcceptsExactly(raw, txs[k].compact);
    assert txs[k] == ShieldTx(raw, Some(c));
  }

  /** What the walkers over a stored stream rely on. */
  predicate ScannedTx(tx: ShieldTx) {
    && 4 <= |tx.raw| < U32_LIMIT && tx.raw[..4] == SAPLING_HEADER
    && tx.compact.Some? && Parse(tx.raw) == Ok(tx.compact)
  }

  predicate Scanned(b: ShieldBlock) {
    b.height < U32_LIMIT && b.time < U32_LIMIT && forall tx <- b.txs :: ScannedTx(tx)
  }

  predicate AllScanned(bs: seq<ShieldBlock>) {
    forall b <- bs :: Scanned(b)
  }

  lemma {:induction false} KeptAreScanned(raws: seq<seq<byte>>)
    requires forall raw <- raws :: |raw| < U32_LIMIT
    ensures forall tx <- KeepAll(raws) :: ScannedTx(tx)
  {
    if raws != [] {
      KeptAreScanned(raws[1..]);
      assert raws[0] in raws;
    }
  }

  /** Everything the scanner emits is fit for the stream, and is never an empty block. */
  lemma ScannerEmitsScannedBlocks(raws: seq<seq<byte>>, height: nat, time: nat)
    requires height < U32_LIMIT && time < U32_LIMIT
    requires forall raw <- raws :: |raw| < U32_LIMIT
    ensures ShieldOf(raws, height, time).Some? ==>
              var b := ShieldOf(raws, height, time).value;
              Scanned(b) && b.height == height && b.txs != []
  {
    KeptAreScanned(raws);
  }
}
