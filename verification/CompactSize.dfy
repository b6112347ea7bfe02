/** The CompactSize writer of src/stream.rs and the reader of src/scanner.rs. */
module CompactSize {
  import opened Wrappers
  import opened Bytes

  datatype ParseError =
    | ReadPastEnd
    | TruncatedVarInt
    | TruncatedVin
    | TruncatedVout
    | TruncatedSpend
    | TruncatedOutput

  /** An encoding of `value` on `width` bytes; the reader accepts more than the shortest one. */
  datatype VarInt = VarInt(value: nat, width: nat) {
    predicate Fits() {
      || (width == 1 && value < 253)
      || (width == 3 && value < U16_LIMIT)
      || (width == 5 && value < U32_LIMIT)
      || (width == 9 && value < U64_LIMIT)
    }

    function Encode(): (s: seq<byte>)
      requires Fits()
      ensures |s| == width
    {
      match width
      case 1 => [value]
      case 3 => [253] + LE(value, 2)
      case 5 => [254] + LE(value, 4)
      case _ => [255] + LE(value, 8)
    }
  }

  /** The width the writer chooses. */
  function Canonical(n: nat): (v: VarInt)
    requires n < U64_LIMIT
    ensures v.Fits() && v.value == n
  {
    VarInt(n, if n < 253 then 1 else if n < U16_LIMIT then 3 else if n < U32_LIMIT then 5 else 9)
  }

  /** What the writer appends. */
  function Written(n: nat): seq<byte> {
    if n < 253 then [n]
    else if n < U16_LIMIT then [253] + LE(n, 2)
    else if n < U32_LIMIT then [254] + LE(n, 4)
    else [255] + LE(n, 8)
  }

  /** The markers and their thresholds. */
  lemma WrittenMarkers(n: nat)
    requires n <= 0xFFFF_FFFF_FFFF_FFFF
    ensures n <= 0xFC <==> Written(n) == [n]
    ensures 0xFD <= n <= 0xFFFF <==> |Written(n)| == 3 && Written(n)[0] == 0xFD
    ensures 0x1_0000 <= n <= 0xFFFF_FFFF <==> |Written(n)| == 5 && Written(n)[0] == 0xFE
    ensures 0x1_0000_0000 <= n <==> |Written(n)| == 9 && Written(n)[0] == 0xFF
    ensures forall k | 1 <= k < |Written(n)| :: Written(n)[k] == n / Pow256(k - 1) % 256
  {
    hide LE, Pow256;
    var w := |Written(n)| - 1;
    forall k | 1 <= k < |Written(n)| ensures Written(n)[k] == n / Pow256(k - 1) % 256 {
      LittleEndian(n, w, k - 1);
    }
  }

  lemma WrittenIsCanonical(n: nat)
    requires n < U64_LIMIT
    ensures Written(n) == Canonical(n).Encode()
  {
  }

  method WriteCompactSize(buf: ByteVec, n: nat)
    modifies buf
    ensures buf.data == old(buf.data) + Written(n)
  {
    hide LE;
    if n < 253 {
      buf.Push(n);
    } else if n <= 0xFFFF {
      buf.Push(253);
      buf.Extend(LE(n, 2));
    } else if n <= 0xFFFF_FFFF {
      buf.Push(254);
      buf.Extend(LE(n, 4));
    } else {
      buf.Push(255);
      buf.Extend(LE(n, 8));
    }
    assert buf.data == old(buf.data) + Written(n);
  }

  /** The value at `pos` and the number of bytes it occupies; a successful read stays inside the data. */
  function ReadCompactSize(data: seq<byte>, pos: nat): (r: Result<(nat, nat), ParseError>)
    ensures r.Ok? ==> 1 <= r.value.1 && pos + r.value.1 <= |data|
  {
    if pos >= |data| then
      Err(ReadPastEnd)
    else if data[pos] < 253 then
      Ok((data[pos], 1))
    else if data[pos] == 253 then
      if pos + 3 > |data| then Err(TruncatedVarInt) else Ok((FromLE(data[pos + 1..pos + 3]), 3))
    else if data[pos] == 254 then
      if pos + 5 > |data| then Err(TruncatedVarInt) else Ok((FromLE(data[pos + 1..pos + 5]), 5))
    else
      if pos + 9 > |data| then Err(TruncatedVarInt) else Ok((FromLE(data[pos + 1..pos + 9]), 9))
  }

  /** Every encoding that fits is read back wherever it stands. */
  lemma ReadsEncodedAt(data: seq<byte>, pos: nat, v: VarInt)
    requires v.Fits() && At(data, pos, v.Encode())
    ensures ReadCompactSize(data, pos) == Ok((v.value, v.width))
  {
    var s := v.Encode();
    assert data[pos] == s[0];
    if v.width > 1 {
      assert data[pos + 1..pos + v.width] == s[1..] == LE(v.value, v.width - 1);
      PowersOf256();
      FromLEInvertsLE(v.value, v.width - 1);
    }
  }

  /** Whatever is read is an encoding that stands in the data: the reader accepts nothing else. */
  lemma ReadsOnlyEncodings(data: seq<byte>, pos: nat)
    requires ReadCompactSize(data, pos).Ok?
    ensures var (n, w) := ReadCompactSize(data, pos).value;
            VarInt(n, w).Fits() && At(data, pos, VarInt(n, w).Encode())
  {
    var (n, w) := ReadCompactSize(data, pos).value;
    if w > 1 {
      PowersOf256();
      LEInvertsFromLE(data[pos + 1..pos + w]);
      assert data[pos..pos + w] == [data[pos]] + data[pos + 1..pos + w];
    }
  }

  /** Writer then reader, between any prefix and any suffix. */
  lemma RoundTripInContext(prefix: seq<byte>, n: nat, suffix: seq<byte>)
    requires n < U64_LIMIT
    ensures var written := Written(n);
            ReadCompactSize(prefix + written + suffix, |prefix|) == Ok((n, |written|))
  {
    var written := Written(n);
    assert written == Canonical(n).Encode();
    var data := prefix + written + suffix;
    assert data[|prefix|..|prefix| + |written|] == written;
    ReadsEncodedAt(data, |prefix|, Canonical(n));
  }

  /** No bytes that the reader turns into `n` are fewer than the bytes the writer produces for `n`. */
  lemma WrittenFormIsShortest(data: seq<byte>, pos: nat, n: nat, w: nat)
    requires ReadCompactSize(data, pos) == Ok((n, w))
    ensures n < U64_LIMIT && |Written(n)| <= w
  {
    ReadsOnlyEncodings(data, pos);
  }
}
