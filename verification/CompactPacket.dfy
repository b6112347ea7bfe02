/**
 A client's decoder for the compact packets of src/stream.rs and src/api.rs, as the reference they are measured
 against.
 */
module CompactPacket {
  import opened Wrappers
  import opened Bytes
  import opened CompactSize
  import opened SaplingTx
  import opened Stream
  import opened Packets

  /** What a format carries of an output. */
  function Projected(o: CompactOutput, format: StreamFormat): CompactOutput {
    if format == Compact then o else CompactOutput([], o.cmu, o.epk, o.enc, [])
  }

  function ProjectedAll(os: seq<CompactOutput>, format: StreamFormat): seq<CompactOutput> {
    if os == [] then [] else [Projected(os[0], format)] + ProjectedAll(os[1..], format)
  }

  function NoteSize(format: StreamFormat): nat {
    if format == Compact then 756 else 644
  }

  function ReadNullifiers(data: seq<byte>, pos: nat, n: nat, acc: seq<seq<byte>>): Option<(seq<seq<byte>>, nat)>
    decreases n
  {
    if n == 0 then Some((acc, pos))
    else if pos + 32 > |data| then None
    else ReadNullifiers(data, pos + 32, n - 1, acc + [data[pos..pos + 32]])
  }

  function ReadNote(data: seq<byte>, pos: nat, format: StreamFormat): CompactOutput
    requires pos + NoteSize(format) <= |data|
  {
    if format == Compact then
      CompactOutput(data[pos..pos + 32], data[pos + 32..pos + 64], data[pos + 64..pos + 96],
                    data[pos + 96..pos + 676], data[pos + 676..pos + 756])
    else
      CompactOutput([], data[pos..pos + 32], data[pos + 32..pos + 64], data[pos + 64..pos + 644], [])
  }

  function ReadNotes(data: seq<byte>, pos: nat, n: nat, format: StreamFormat, acc: seq<CompactOutput>)
    : Option<(seq<CompactOutput>, nat)>
    decreases n
  {
    if n == 0 then Some((acc, pos))
    else if pos + NoteSize(format) > |data| then None
    else ReadNotes(data, pos + NoteSize(format), n - 1, format, acc + [ReadNote(data, pos, format)])
  }

  /** The payload behind the type byte, which must end at `end`. */
  function DecodeTx(data: seq<byte>, pos: nat, end: nat, format: StreamFormat): Option<CompactTx> {
    var m := ReadCompactSize(data, pos);
    if m.Err? then None
    else
      var n := ReadCompactSize(data, pos + m.value.1);
      if n.Err? then None
      else
        var nullifiers := ReadNullifiers(data, pos + m.value.1 + n.value.1, m.value.0, []);
        if nullifiers.None? then None
        else
          var notes := ReadNotes(data, nullifiers.value.1, n.value.0, format, []);
          if notes.None? || notes.value.1 != end then None
          else Some(CompactTx(nullifiers.value.0, notes.value.0))
  }

  /** The packet at `pos`: its format, its transaction, and the position behind it. */
  function Decode(data: seq<byte>, pos: nat): Option<(StreamFormat, CompactTx, nat)> {
    if pos + 5 > |data| || data[pos + 4] !in {0x04, 0x05} then None
    else
      var end := pos + 4 + U32At(data, pos);
      var format := if data[pos + 4] == 0x04 then Compact else CompactPlus;
      var tx := DecodeTx(data, pos + 5, end, format);
      if tx.None? then None else Some((format, tx.value, end))
  }

  lemma {:induction false} ReadsNullifiers(data: seq<byte>, pos: nat, nfs: seq<seq<byte>>, acc: seq<seq<byte>>)
    requires (forall nf <- nfs :: |nf| == 32) && At(data, pos, Concat(nfs))
    ensures |Concat(nfs)| == 32 * |nfs|
    ensures ReadNullifiers(data, pos, |nfs|, acc) == Some((acc + nfs, pos + 32 * |nfs|))
    decreases |nfs|
  {
    if nfs == [] {
      assert acc + [] == acc;
    } else {
      AtSplit(data, pos, nfs[0], Concat(nfs[1..]));
      assert nfs[0] in nfs;
      ReadsNullifiers(data, pos + 32, nfs[1..], acc + [nfs[0]]);
      assert acc + [nfs[0]] + nfs[1..] == acc + nfs;
    }
  }

  lemma ReadsNote(data: seq<byte>, pos: nat, o: CompactOutput, format: StreamFormat)
    requires o.WellFormed() && format != PivxCompat && At(data, pos, NoteBytes(o, format))
    ensures |NoteBytes(o, format)| == NoteSize(format)
    ensures ReadNote(data, pos, format) == Projected(o, format)
  {
    var s := NoteBytes(o, format);
    if format == Compact {
      SliceOfSlice(data, pos, pos + 756, 0, 32);
      SliceOfSlice(data, pos, pos + 756, 32, 64);
      SliceOfSlice(data, pos, pos + 756, 64, 96);
      SliceOfSlice(data, pos, pos + 756, 96, 676);
      SliceOfSlice(data, pos, pos + 756, 676, 756);
      assert s[0..32] == o.cv && s[32..64] == o.cmu && s[64..96] == o.epk;
      assert s[96..676] == o.enc && s[676..756] == o.out;
    } else {
      SliceOfSlice(data, pos, pos + 644, 0, 32);
      SliceOfSlice(data, pos, pos + 644, 32, 64);
      SliceOfSlice(data, pos, pos + 644, 64, 644);
      assert s[0..32] == o.cmu && s[32..64] == o.epk && s[64..644] == o.enc;
    }
  }

  lemma {:induction false} ReadsNotes(data: seq<byte>, pos: nat, os: seq<CompactOutput>, format: StreamFormat,
                                      acc: seq<CompactOutput>)
    requires (forall o <- os :: o.WellFormed()) && format != PivxCompat && At(data, pos, NotesBytes(os, format))
    ensures |NotesBytes(os, format)| == NoteSize(format) * |os|
    ensures ReadNotes(data, pos, |os|, format, acc)
         == Some((acc + ProjectedAll(os, format), pos + |NotesBytes(os, format)|))
    decreases |os|
  {
    hide At, ReadNote, NoteBytes;
    if os == [] {
      assert acc + [] == acc;
    } else {
      var size := NoteSize(format);
      AtSplit(data, pos, NoteBytes(os[0], format), NotesBytes(os[1..], format));
      assert os[0] in os;
      AtInside(data, pos, NoteBytes(os[0], format));
      ReadsNote(data, pos, os[0], format);
      var acc' := acc + [Projected(os[0], format)];
      ReadsNotes(data, pos + size, os[1..], format, acc');
      assert acc' + ProjectedAll(os[1..], format) == acc + ProjectedAll(os, format);
      assert size * |os| == size + size * |os[1..]|;
    }
  }

  lemma AtInside(data: seq<byte>, pos: nat, s: seq<byte>)
    requires At(data, pos, s)
    ensures pos + |s| <= |data|
  {
  }

  ghost predicate Encodable(c: CompactTx) {
    c.WellFormed() && |c.nullifiers| < U64_LIMIT && |c.outputs| < U64_LIMIT
  }

  lemma {:induction false} NotesLength(os: seq<CompactOutput>, format: StreamFormat)
    requires (forall o <- os :: o.WellFormed()) && format != PivxCompat
    ensures |NotesBytes(os, format)| == NoteSize(format) * |os|
  {
    if os != [] {
      NotesLength(os[1..], format);
      assert os[0] in os;
      assert NoteSize(format) * |os| == NoteSize(format) + NoteSize(format) * |os[1..]|;
    }
  }

  /** Dropping cv and out_ciphertext saves 112 bytes an output. */
  lemma PlusSaves112BytesPerOutput(c: CompactTx)
    requires c.WellFormed()
    ensures |CompactPayload(c, Compact)| == |CompactPayload(c, CompactPlus)| + 112 * |c.outputs|
  {
    hide Concat, NotesBytes, Written;
    NotesLength(c.outputs, Compact);
    NotesLength(c.outputs, CompactPlus);
  }

  function Kind(format: StreamFormat): byte {
    if format == Compact then 0x04 else 0x05
  }

  lemma PayloadShape(c: CompactTx, format: StreamFormat)
    requires Encodable(c)
    ensures CompactPayload(c, format)
         == [Kind(format)] + (Canonical(|c.nullifiers|).Encode() + (Canonical(|c.outputs|).Encode()
            + (Concat(c.nullifiers) + NotesBytes(c.outputs, format))))
  {
    hide Concat, NotesBytes, Written, VarInt.Encode;
    WrittenIsCanonical(|c.nullifiers|);
    WrittenIsCanonical(|c.outputs|);
  }

  lemma DecodesTx(data: seq<byte>, pos: nat, c: CompactTx, format: StreamFormat)
    requires Encodable(c) && format != PivxCompat
    requires var start := pos + Canonical(|c.nullifiers|).width;
             && At(data, pos, Canonical(|c.nullifiers|).Encode()) && At(data, start, Canonical(|c.outputs|).Encode())
             && At(data, start + Canonical(|c.outputs|).width, Concat(c.nullifiers))
             && At(data, start + Canonical(|c.outputs|).width + |Concat(c.nullifiers)|, NotesBytes(c.outputs, format))
    ensures var end := pos + Canonical(|c.nullifiers|).width + Canonical(|c.outputs|).width
                       + |Concat(c.nullifiers)| + |NotesBytes(c.outputs, format)|;
            DecodeTx(data, pos, end, format) == Some(CompactTx(c.nullifiers, ProjectedAll(c.outputs, format)))
  {
    hide At, ReadCompactSize, ReadNullifiers, ReadNotes, Concat, NotesBytes, VarInt.Encode, ProjectedAll;
    var m, n := Canonical(|c.nullifiers|), Canonical(|c.outputs|);
    ReadsEncodedAt(data, pos, m);
    ReadsEncodedAt(data, pos + m.width, n);
    var start := pos + m.width + n.width;
    ReadsNullifiers(data, start, c.nullifiers, []);
    assert [] + c.nullifiers == c.nullifiers;
    ReadsNotes(data, start + |Concat(c.nullifiers)|, c.outputs, format, []);
    assert [] + ProjectedAll(c.outputs, format) == ProjectedAll(c.outputs, format);
  }

  lemma DecodesPayload(data: seq<byte>, pos: nat, c: CompactTx, format: StreamFormat)
    requires Encodable(c) && format != PivxCompat
    requires |CompactPayload(c, format)| < U32_LIMIT && At(data, pos, Frame(CompactPayload(c, format)))
    ensures Decode(data, pos)
         == Some((format, CompactTx(c.nullifiers, ProjectedAll(c.outputs, format)),
                  pos + |Frame(CompactPayload(c, format))|))
  {
    hide At, CompactPayload, DecodeTx, Concat, NotesBytes, VarInt.Encode, LE, ProjectedAll;
    var payload := CompactPayload(c, format);
    var m, n := Canonical(|c.nullifiers|), Canonical(|c.outputs|);
    PayloadShape(c, format);
    U32RoundTrip(|payload|);
    SplitPacket(data, pos, LE(|payload|, 4), Kind(format), m.Encode(), n.Encode(), Concat(c.nullifiers),
                NotesBytes(c.outputs, format));
    DecodesTx(data, pos + 5, c, format);
    assert Frame(payload) == LE(|payload|, 4) + payload;
  }

  lemma SplitPacket(data: seq<byte>, pos: nat, len: seq<byte>, kind: byte, m: seq<byte>, n: seq<byte>,
                    nfs: seq<byte>, notes: seq<byte>)
    requires |len| == 4 && At(data, pos, len + ([kind] + (m + (n + (nfs + notes)))))
    ensures pos + 5 <= |data| && data[pos..pos + 4] == len && data[pos + 4] == kind
    ensures At(data, pos + 5, m) && At(data, pos + 5 + |m|, n) && At(data, pos + 5 + |m| + |n|, nfs)
    ensures At(data, pos + 5 + |m| + |n| + |nfs|, notes)
  {
    AtSplit(data, pos, len, [kind] + (m + (n + (nfs + notes))));
    AtSplit(data, pos + 4, [kind], m + (n + (nfs + notes)));
    AtSplit(data, pos + 5, m, n + (nfs + notes));
    AtSplit(data, pos + 5 + |m|, n, nfs + notes);
    AtSplit(data, pos + 5 + |m| + |n|, nfs, notes);
    assert data[pos + 4] == data[pos + 4..pos + 5][0];
  }

  /**
   Whatever the counts, a 0x04 packet decodes to the transaction and a 0x05 packet to its projection, in any
   surroundings, and the decoder ends exactly behind the packet.
   */
  lemma CompactPacketRoundTrip(prefix: seq<byte>, c: CompactTx, format: StreamFormat, suffix: seq<byte>)
    requires Encodable(c) && format != PivxCompat && |CompactPayload(c, format)| < U32_LIMIT
    ensures var packet := Frame(CompactPayload(c, format));
            Decode(prefix + packet + suffix, |prefix|)
            == Some((format, CompactTx(c.nullifiers, ProjectedAll(c.outputs, format)), |prefix| + |packet|))
  {
    hide Decode, CompactPayload, Encodable;
    var packet := Frame(CompactPayload(c, format));
    var data := prefix + packet + suffix;
    assert data[|prefix|..|prefix| + |packet|] == packet;
    DecodesPayload(data, |prefix|, c, format);
  }

  lemma {:induction false} CompactKeepsEverything(os: seq<CompactOutput>)
    ensures ProjectedAll(os, Compact) == os
  {
    if os != [] {
      CompactKeepsEverything(os[1..]);
    }
  }
}
