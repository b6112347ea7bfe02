/**
 The PIVX v3 transaction layout and the parser of src/scanner.rs that skips its transparent part
 and collects nullifiers and outputs.
 */
module SaplingTx {
  import opened Wrappers
  import opened Bytes
  import opened CompactSize

  const SPEND_DESC_SIZE: nat := 384
  const OUTPUT_DESC_SIZE: nat := 948

  // ---------------------------------------------------------------------------
  // Layout
  // ---------------------------------------------------------------------------

  datatype TxIn = TxIn(prevout: seq<byte>, scriptLen: VarInt, script: seq<byte>, sequence: seq<byte>) {
    predicate WellFormed() {
      |prevout| == 36 && scriptLen.Fits() && scriptLen.value == |script| && |sequence| == 4
    }

    function Encode(): (s: seq<byte>)
      requires WellFormed()
      ensures |s| == 40 + scriptLen.width + |script|
    {
      prevout + (scriptLen.Encode() + (script + sequence))
    }
  }

  datatype TxOut = TxOut(value: seq<byte>, scriptLen: VarInt, script: seq<byte>) {
    predicate WellFormed() {
      |value| == 8 && scriptLen.Fits() && scriptLen.value == |script|
    }

    function Encode(): (s: seq<byte>)
      requires WellFormed()
      ensures |s| == 8 + scriptLen.width + |script|
    {
      value + (scriptLen.Encode() + script)
    }
  }

  datatype Spend = Spend(cv: seq<byte>, anchor: seq<byte>, nullifier: seq<byte>, rk: seq<byte>,
                         proof: seq<byte>, sig: seq<byte>) {
    predicate WellFormed() {
      |cv| == |anchor| == |nullifier| == |rk| == 32 && |proof| == 192 && |sig| == 64
    }

    function Encode(): (s: seq<byte>)
      requires WellFormed()
      ensures |s| == SPEND_DESC_SIZE
    {
      cv + anchor + nullifier + rk + proof + sig
    }
  }

  datatype Output = Output(note: CompactOutput, proof: seq<byte>) {
    predicate WellFormed() {
      note.WellFormed() && |proof| == 192
    }

    function Encode(): (s: seq<byte>)
      requires WellFormed()
      ensures |s| == OUTPUT_DESC_SIZE
    {
      note.cv + note.cmu + note.epk + note.enc + note.out + proof
    }
  }

  datatype CompactOutput = CompactOutput(cv: seq<byte>, cmu: seq<byte>, epk: seq<byte>,
                                         enc: seq<byte>, out: seq<byte>) {
    predicate WellFormed() {
      |cv| == |cmu| == |epk| == 32 && |enc| == 580 && |out| == 80
    }
  }

  datatype CompactTx = CompactTx(nullifiers: seq<seq<byte>>, outputs: seq<CompactOutput>) {
    ghost predicate WellFormed() {
      && (forall nf <- nullifiers :: |nf| == 32)
      && (forall o <- outputs :: o.WellFormed())
    }
  }

  /** What follows the outputs. The parser does not insist on a complete nLockTime or binding signature. */
  datatype Tail =
    | NoSapling(lockTime: seq<byte>)
    | Absent(lockTime: seq<byte>, rest: seq<byte>)
    | CutShort(lockTime: seq<byte>, flag: byte, rest: seq<byte>)
    | Present(lockTime: seq<byte>, flag: byte, valueBalance: seq<byte>,
              spendCount: VarInt, spends: seq<Spend>, outputCount: VarInt, outputs: seq<Output>, rest: seq<byte>)
  {
    ghost predicate WellFormed() {
      match this
      case NoSapling(lock) => |lock| <= 4
      case Absent(lock, _) => |lock| == 4
      case CutShort(lock, flag, rest) => |lock| == 4 && flag != 0 && |rest| < 8
      case Present(lock, flag, balance, m, spends, n, outputs, _) =>
        && |lock| == 4 && flag != 0 && |balance| == 8
        && m.Fits() && m.value == |spends| && (forall s <- spends :: s.WellFormed())
        && n.Fits() && n.value == |outputs| && (forall o <- outputs :: o.WellFormed())
    }

    ghost function Encode(): seq<byte>
      requires WellFormed()
    {
      match this
      case NoSapling(lock) => lock
      case Absent(lock, rest) => lock + ([0] + rest)
      case CutShort(lock, flag, rest) => lock + ([flag] + rest)
      case Present(lock, flag, balance, m, spends, n, outputs, rest) =>
        lock + ([flag] + (balance + EncodeDescs(this)))
    }

    function Project(): Option<CompactTx> {
      if Present? && (spends != [] || outputs != []) then
        Some(CompactTx(Nullifiers(spends), Notes(outputs)))
      else
        None
    }
  }

  datatype Tx = Tx(header: seq<byte>, inCount: VarInt, vin: seq<TxIn>, outCount: VarInt, vout: seq<TxOut>, tail: Tail) {
    ghost predicate WellFormed() {
      && |header| == 4
      && inCount.Fits() && inCount.value == |vin| && (forall i <- vin :: i.WellFormed())
      && outCount.Fits() && outCount.value == |vout| && (forall o <- vout :: o.WellFormed())
      && tail.WellFormed()
    }

    ghost function Encode(): seq<byte>
      requires WellFormed()
    {
      header + (inCount.Encode() + (EncodeIns(vin) + (outCount.Encode() + (EncodeOuts(vout) + tail.Encode()))))
    }
  }

  ghost function EncodeIns(ts: seq<TxIn>): seq<byte>
    requires forall t <- ts :: t.WellFormed()
  {
    if ts == [] then [] else ts[0].Encode() + EncodeIns(ts[1..])
  }

  ghost function EncodeOuts(ts: seq<TxOut>): seq<byte>
    requires forall t <- ts :: t.WellFormed()
  {
    if ts == [] then [] else ts[0].Encode() + EncodeOuts(ts[1..])
  }

  ghost function EncodeSpends(ts: seq<Spend>): seq<byte>
    requires forall t <- ts :: t.WellFormed()
  {
    if ts == [] then [] else ts[0].Encode() + EncodeSpends(ts[1..])
  }

  ghost function EncodeOutputs(ts: seq<Output>): seq<byte>
    requires forall t <- ts :: t.WellFormed()
  {
    if ts == [] then [] else ts[0].Encode() + EncodeOutputs(ts[1..])
  }

  function Nullifiers(ts: seq<Spend>): seq<seq<byte>> {
    if ts == [] then [] else [ts[0].nullifier] + Nullifiers(ts[1..])
  }

  function Notes(ts: seq<Output>): seq<CompactOutput> {
    if ts == [] then [] else [ts[0].note] + Notes(ts[1..])
  }

  // ---------------------------------------------------------------------------
  // The parser as a function of the bytes
  // ---------------------------------------------------------------------------

  type Parsed<T> = Result<T, ParseError>

  function SkipIn(data: seq<byte>, pos: nat): Parsed<nat> {
    var (len, br) :- ReadCompactSize(data, pos + 36);
    var next := pos + 36 + br + len + 4;
    if next > |data| then Err(TruncatedVin) else Ok(next)
  }

  function SkipIns(data: seq<byte>, pos: nat, n: nat): Parsed<nat>
    decreases n
  {
    if n == 0 then Ok(pos) else
    var next :- SkipIn(data, pos);
    SkipIns(data, next, n - 1)
  }

  function SkipOut(data: seq<byte>, pos: nat): Parsed<nat> {
    var (len, br) :- ReadCompactSize(data, pos + 8);
    var next := pos + 8 + br + len;
    if next > |data| then Err(TruncatedVout) else Ok(next)
  }

  function SkipOuts(data: seq<byte>, pos: nat, n: nat): Parsed<nat>
    decreases n
  {
    if n == 0 then Ok(pos) else
    var next :- SkipOut(data, pos);
    SkipOuts(data, next, n - 1)
  }

  function ReadSpends(data: seq<byte>, pos: nat, n: nat, acc: seq<seq<byte>>): Parsed<(seq<seq<byte>>, nat)>
    decreases n
  {
    if n == 0 then Ok((acc, pos))
    else if pos + SPEND_DESC_SIZE > |data| then Err(TruncatedSpend)
    else ReadSpends(data, pos + SPEND_DESC_SIZE, n - 1, acc + [data[pos + 64..pos + 96]])
  }

  function NoteAt(data: seq<byte>, pos: nat): (o: CompactOutput)
    requires pos + OUTPUT_DESC_SIZE <= |data|
    ensures o.WellFormed()
  {
    CompactOutput(data[pos..pos + 32], data[pos + 32..pos + 64], data[pos + 64..pos + 96],
                  data[pos + 96..pos + 676], data[pos + 676..pos + 756])
  }

  function ReadOutputs(data: seq<byte>, pos: nat, n: nat, acc: seq<CompactOutput>): Parsed<(seq<CompactOutput>, nat)>
    decreases n
  {
    if n == 0 then Ok((acc, pos))
    else if pos + OUTPUT_DESC_SIZE > |data| then Err(TruncatedOutput)
    else ReadOutputs(data, pos + OUTPUT_DESC_SIZE, n - 1, acc + [NoteAt(data, pos)])
  }

  function ParseDescs(data: seq<byte>, start: nat): Parsed<Option<CompactTx>> {
    var (m, br) :- ReadCompactSize(data, start);
    var (nullifiers, pos) :- ReadSpends(data, start + br, m, []);
    var (n, br') :- ReadCompactSize(data, pos);
    var (outputs, _) :- ReadOutputs(data, pos + br', n, []);
    Ok(if nullifiers == [] && outputs == [] then None else Some(CompactTx(nullifiers, outputs)))
  }

  function ParseTail(data: seq<byte>, pos: nat): Parsed<Option<CompactTx>> {
    if pos + 4 >= |data| || data[pos + 4] == 0 || pos + 13 > |data| then Ok(None)
    else ParseDescs(data, pos + 13)
  }

  function Parse(data: seq<byte>): Parsed<Option<CompactTx>> {
    var (m, br) :- ReadCompactSize(data, 4);
    var pos :- SkipIns(data, 4 + br, m);
    var (n, br') :- ReadCompactSize(data, pos);
    var pos' :- SkipOuts(data, pos + br', n);
    ParseTail(data, pos')
  }

  // ---------------------------------------------------------------------------
  // The parser as the source runs it
  // ---------------------------------------------------------------------------

  /** `steps` counts loop bodies entered, the failing one included. */
  method ParseSaplingDescs(data: seq<byte>, start: nat) returns (r: Parsed<Option<CompactTx>>, ghost steps: nat)
    requires start <= |data|
    ensures r == ParseDescs(data, start)
    ensures 384 * steps <= |data| - start + 384
  {
    hide ReadCompactSize, NoteAt;
    steps := 0;
    var pos := start;
    var count := ReadCompactSize(data, pos);
    if count.Err? { return Err(count.error), 0; }
    var numSpends := count.value.0;
    pos := pos + count.value.1;

    var nullifiers: seq<seq<byte>> := [];
    var i := 0;
    while i < numSpends
      invariant 0 <= i <= numSpends && start <= pos <= |data|
      invariant ReadSpends(data, pos, numSpends - i, nullifiers)
             == ReadSpends(data, start + count.value.1, numSpends, [])
      invariant steps == i && 384 * steps <= pos - start
    {
      steps := steps + 1;
      if pos + SPEND_DESC_SIZE > |data| { return Err(TruncatedSpend), steps; }
      nullifiers := nullifiers + [data[pos + 64..pos + 96]];
      pos := pos + SPEND_DESC_SIZE;
      i := i + 1;
    }

    var count' := ReadCompactSize(data, pos);
    if count'.Err? { return Err(count'.error), steps; }
    var numOutputs := count'.value.0;
    pos := pos + count'.value.1;
    ghost var outStart := pos;

    var outputs: seq<CompactOutput> := [];
    i := 0;
    while i < numOutputs
      invariant 0 <= i <= numOutputs && start <= pos <= |data|
      invariant ReadOutputs(data, pos, numOutputs - i, outputs) == ReadOutputs(data, outStart, numOutputs, [])
      invariant 384 * steps <= pos - start
    {
      steps := steps + 1;
      if pos + OUTPUT_DESC_SIZE > |data| { return Err(TruncatedOutput), steps; }
      outputs := outputs + [NoteAt(data, pos)];
      pos := pos + OUTPUT_DESC_SIZE;
      i := i + 1;
    }

    if nullifiers == [] && outputs == [] {
      r := Ok(None);
    } else {
      r := Ok(Some(CompactTx(nullifiers, outputs)));
    }
  }

  /**
   However large the counts that the bytes claim, the loop over inputs is entered at most |data|/41 + 1
   times and all four loops together at most |data|/9 + 1 times.
   */
  method ParseSaplingTx(data: seq<byte>)
    returns (r: Parsed<Option<CompactTx>>, ghost vinSteps: nat, ghost steps: nat)
    ensures r == Parse(data)
    ensures vinSteps <= |data| / 41 + 1
    ensures steps <= |data| / 9 + 1
  {
    hide ReadCompactSize, ParseDescs;
    vinSteps, steps := 0, 0;
    var pos: nat := 4;
    var count := ReadCompactSize(data, pos);
    if count.Err? { return Err(count.error), 0, 0; }
    var vinCount := count.value.0;
    pos := pos + count.value.1;

    var i := 0;
    while i < vinCount
      invariant 0 <= i <= vinCount && pos <= |data|
      invariant SkipIns(data, pos, vinCount - i) == SkipIns(data, 4 + count.value.1, vinCount)
      invariant vinSteps == steps == i && 41 * vinSteps <= pos
    {
      vinSteps, steps := vinSteps + 1, steps + 1;
      var script := ReadCompactSize(data, pos + 32 + 4);
      if script.Err? { return Err(script.error), vinSteps, steps; }
      pos := pos + 32 + 4 + script.value.1 + script.value.0 + 4;
      if pos > |data| { return Err(TruncatedVin), vinSteps, steps; }
      i := i + 1;
    }

    var count' := ReadCompactSize(data, pos);
    if count'.Err? { return Err(count'.error), vinSteps, steps; }
    var voutCount := count'.value.0;
    pos := pos + count'.value.1;
    ghost var outStart := pos;

    i := 0;
    while i < voutCount
      invariant 0 <= i <= voutCount && pos <= |data|
      invariant SkipOuts(data, pos, voutCount - i) == SkipOuts(data, outStart, voutCount)
      invariant 9 * steps <= pos
    {
      steps := steps + 1;
      var script := ReadCompactSize(data, pos + 8);
      if script.Err? { return Err(script.error), vinSteps, steps; }
      pos := pos + 8 + script.value.1 + script.value.0;
      if pos > |data| { return Err(TruncatedVout), vinSteps, steps; }
      i := i + 1;
    }

    pos := pos + 4;
    if pos >= |data| { return Ok(None), vinSteps, steps; }
    var discriminant := data[pos];
    pos := pos + 1;
    if discriminant == 0x00 { return Ok(None), vinSteps, steps; }
    if pos + 8 > |data| { return Ok(None), vinSteps, steps; }
    pos := pos + 8;
    ghost var descSteps;
    r, descSteps := ParseSaplingDescs(data, pos);
    steps := steps + descSteps;
  }

  // ---------------------------------------------------------------------------
  // Serialised transactions are parsed back
  // ---------------------------------------------------------------------------

  /** Prepends to a known suffix the bytes found in front of it. */
  lemma SuffixStep(data: seq<byte>, pos: nat, a: seq<byte>)
    requires At(data, pos, a)
    ensures pos + |a| <= |data| && data[pos..] == a + data[pos + |a|..]
  {
  }

  lemma SuffixJoin(data: seq<byte>, pos: nat, a: seq<byte>, rest: seq<byte>)
    requires At(data, pos, a) && data[pos + |a|..] == rest
    ensures pos <= |data| && data[pos..] == a + rest
  {
    SuffixStep(data, pos, a);
  }

  lemma SkipsEncodedIn(data: seq<byte>, pos: nat, t: TxIn)
    requires t.WellFormed() && At(data, pos, t.Encode())
    ensures SkipIn(data, pos) == Ok(pos + |t.Encode()|)
  {
    hide ReadCompactSize, VarInt.Encode, At;
    SuffixStep(data, pos, t.Encode());
    AtSplit(data, pos, t.prevout, t.scriptLen.Encode() + (t.script + t.sequence));
    AtSplit(data, pos + 36, t.scriptLen.Encode(), t.script + t.sequence);
    ReadsEncodedAt(data, pos + 36, t.scriptLen);
  }

  lemma {:induction false} SkipsEncodedIns(data: seq<byte>, pos: nat, ts: seq<TxIn>)
    requires (forall t <- ts :: t.WellFormed()) && At(data, pos, EncodeIns(ts))
    ensures SkipIns(data, pos, |ts|) == Ok(pos + |EncodeIns(ts)|)
    decreases |ts|
  {
    hide At, SkipIn, TxIn.Encode;
    if ts != [] {
      AtSplit(data, pos, ts[0].Encode(), EncodeIns(ts[1..]));
      SkipsEncodedIn(data, pos, ts[0]);
      SkipsEncodedIns(data, pos + |ts[0].Encode()|, ts[1..]);
    }
  }

  lemma SkipsEncodedOut(data: seq<byte>, pos: nat, t: TxOut)
    requires t.WellFormed() && At(data, pos, t.Encode())
    ensures SkipOut(data, pos) == Ok(pos + |t.Encode()|)
  {
    hide ReadCompactSize, VarInt.Encode, At;
    SuffixStep(data, pos, t.Encode());
    AtSplit(data, pos, t.value, t.scriptLen.Encode() + t.script);
    AtSplit(data, pos + 8, t.scriptLen.Encode(), t.script);
    ReadsEncodedAt(data, pos + 8, t.scriptLen);
  }

  lemma {:induction false} SkipsEncodedOuts(data: seq<byte>, pos: nat, ts: seq<TxOut>)
    requires (forall t <- ts :: t.WellFormed()) && At(data, pos, EncodeOuts(ts))
    ensures SkipOuts(data, pos, |ts|) == Ok(pos + |EncodeOuts(ts)|)
    decreases |ts|
  {
    hide At, SkipOut, TxOut.Encode;
    if ts != [] {
      AtSplit(data, pos, ts[0].Encode(), EncodeOuts(ts[1..]));
      SkipsEncodedOut(data, pos, ts[0]);
      SkipsEncodedOuts(data, pos + |ts[0].Encode()|, ts[1..]);
    }
  }

  lemma NullifierInSpend(data: seq<byte>, pos: nat, t: Spend)
    requires t.WellFormed() && At(data, pos, t.Encode())
    ensures data[pos + 64..pos + 96] == t.nullifier
  {
    assert data[pos + 64..pos + 96] == data[pos..pos + SPEND_DESC_SIZE][64..96] == t.Encode()[64..96] == t.nullifier;
  }

  lemma {:induction false} ReadsEncodedSpends(data: seq<byte>, pos: nat, ts: seq<Spend>, acc: seq<seq<byte>>)
    requires (forall t <- ts :: t.WellFormed()) && At(data, pos, EncodeSpends(ts))
    ensures ReadSpends(data, pos, |ts|, acc) == Ok((acc + Nullifiers(ts), pos + |EncodeSpends(ts)|))
    decreases |ts|
  {
    hide Spend.Encode;
    if ts == [] {
      assert acc + [] == acc;
    } else {
      AtSplit(data, pos, ts[0].Encode(), EncodeSpends(ts[1..]));
      NullifierInSpend(data, pos, ts[0]);
      var acc' := acc + [ts[0].nullifier];
      ReadsEncodedSpends(data, pos + SPEND_DESC_SIZE, ts[1..], acc');
      assert acc' + Nullifiers(ts[1..]) == acc + Nullifiers(ts);
    }
  }

  lemma NoteInOutput(data: seq<byte>, pos: nat, t: Output)
    requires t.WellFormed() && At(data, pos, t.Encode())
    ensures NoteAt(data, pos) == t.note
  {
    var s := data[pos..pos + OUTPUT_DESC_SIZE];
    assert s == t.Encode();
    assert data[pos..pos + 32] == s[..32] == t.note.cv;
    assert data[pos + 32..pos + 64] == s[32..64] == t.note.cmu;
    assert data[pos + 64..pos + 96] == s[64..96] == t.note.epk;
    assert data[pos + 96..pos + 676] == s[96..676] == t.note.enc;
    assert data[pos + 676..pos + 756] == s[676..756] == t.note.out;
  }

  lemma {:induction false} ReadsEncodedOutputs(data: seq<byte>, pos: nat, ts: seq<Output>, acc: seq<CompactOutput>)
    requires (forall t <- ts :: t.WellFormed()) && At(data, pos, EncodeOutputs(ts))
    ensures ReadOutputs(data, pos, |ts|, acc) == Ok((acc + Notes(ts), pos + |EncodeOutputs(ts)|))
    decreases |ts|
  {
    hide NoteAt, Output.Encode, Output.WellFormed;
    if ts == [] {
      assert acc + [] == acc;
    } else {
      AtSplit(data, pos, ts[0].Encode(), EncodeOutputs(ts[1..]));
      NoteInOutput(data, pos, ts[0]);
      var acc' := acc + [ts[0].note];
      ReadsEncodedOutputs(data, pos + OUTPUT_DESC_SIZE, ts[1..], acc');
      assert acc' + Notes(ts[1..]) == acc + Notes(ts);
    }
  }

  lemma ProjectionsOfNone(spends: seq<Spend>, outputs: seq<Output>)
    ensures Nullifiers(spends) == [] <==> spends == []
    ensures Notes(outputs) == [] <==> outputs == []
  {
  }

  ghost function EncodeDescs(t: Tail): seq<byte>
    requires t.WellFormed() && t.Present?
  {
    t.spendCount.Encode() + (EncodeSpends(t.spends) + (t.outputCount.Encode() + (EncodeOutputs(t.outputs) + t.rest)))
  }

  lemma ParsesEncodedDescs(data: seq<byte>, pos: nat, t: Tail)
    requires t.WellFormed() && t.Present? && pos <= |data| && data[pos..] == EncodeDescs(t)
    ensures ParseDescs(data, pos) == Ok(t.Project())
  {
    hide ReadCompactSize, ReadSpends, ReadOutputs, EncodeSpends, EncodeOutputs, VarInt.Encode, At;
    var spends, outputs := EncodeSpends(t.spends), EncodeOutputs(t.outputs);
    var afterSpends := t.outputCount.Encode() + (outputs + t.rest);
    AtEnd(data, pos, EncodeDescs(t));
    AtSplit(data, pos, t.spendCount.Encode(), spends + afterSpends);
    var pos1 := pos + t.spendCount.width;
    AtSplit(data, pos1, spends, afterSpends);
    ReadsEncodedAt(data, pos, t.spendCount);
    ReadsEncodedSpends(data, pos1, t.spends, []);
    assert [] + Nullifiers(t.spends) == Nullifiers(t.spends);
    var pos2 := pos1 + |spends|;
    AtSplit(data, pos2, t.outputCount.Encode(), outputs + t.rest);
    var pos3 := pos2 + t.outputCount.width;
    AtSplit(data, pos3, outputs, t.rest);
    ReadsEncodedAt(data, pos2, t.outputCount);
    ReadsEncodedOutputs(data, pos3, t.outputs, []);
    assert [] + Notes(t.outputs) == Notes(t.outputs);
    ProjectionsOfNone(t.spends, t.outputs);
  }

  lemma ParsesEncodedTail(data: seq<byte>, pos: nat, t: Tail)
    requires t.WellFormed() && pos <= |data| && data[pos..] == t.Encode()
    ensures ParseTail(data, pos) == Ok(t.Project())
  {
    AtEnd(data, pos, t.Encode());
    match t
    case NoSapling(_) =>
    case Absent(lock, rest) =>
      assert data[pos + 4] == t.Encode()[4];
    case CutShort(lock, flag, rest) =>
      assert data[pos + 4] == t.Encode()[4];
    case Present(lock, flag, balance, m, spends, n, outputs, rest) =>
      var descs := EncodeDescs(t);
      assert data[pos + 4] == t.Encode()[4] == flag;
      assert data[pos + 13..] == t.Encode()[13..] == descs;
      ParsesEncodedDescs(data, pos + 13, t);
  }

  /** The parser inverts serialisation, whatever widths the counts were written with. */
  lemma ParserInvertsSerialisation(t: Tx)
    requires t.WellFormed()
    ensures Parse(t.Encode()) == Ok(t.tail.Project())
  {
    hide ReadCompactSize, SkipIns, SkipOuts, ParseTail, EncodeIns, EncodeOuts, Tail.Encode, VarInt.Encode, At;
    var data := t.Encode();
    var afterOuts := t.tail.Encode();
    var afterOutCount := EncodeOuts(t.vout) + afterOuts;
    var afterIns := t.outCount.Encode() + afterOutCount;
    var afterInCount := EncodeIns(t.vin) + afterIns;
    AtEnd(data, 0, data);
    AtSplit(data, 0, t.header, t.inCount.Encode() + afterInCount);
    AtSplit(data, 4, t.inCount.Encode(), afterInCount);
    AtSplit(data, 4 + t.inCount.width, EncodeIns(t.vin), afterIns);
    ReadsEncodedAt(data, 4, t.inCount);
    SkipsEncodedIns(data, 4 + t.inCount.width, t.vin);
    var pos := 4 + t.inCount.width + |EncodeIns(t.vin)|;
    AtSplit(data, pos, t.outCount.Encode(), afterOutCount);
    AtSplit(data, pos + t.outCount.width, EncodeOuts(t.vout), afterOuts);
    ReadsEncodedAt(data, pos, t.outCount);
    SkipsEncodedOuts(data, pos + t.outCount.width, t.vout);
    var pos' := pos + t.outCount.width + |EncodeOuts(t.vout)|;
    AtEnd(data, pos', afterOuts);
    ParsesEncodedTail(data, pos', t.tail);
  }

  // ---------------------------------------------------------------------------
  // Whatever is accepted is a serialised transaction
  // ---------------------------------------------------------------------------

  lemma AtJoin(data: seq<byte>, pos: nat, a: seq<byte>, b: seq<byte>)
    requires At(data, pos, a) && At(data, pos + |a|, b)
    ensures At(data, pos, a + b)
  {
    AtSplit(data, pos, a, b);
  }

  lemma AtNothing(data: seq<byte>, pos: nat)
    requires pos <= |data|
    ensures At(data, pos, [])
  {
  }

  lemma DissectIn(data: seq<byte>, pos: nat) returns (t: TxIn)
    requires SkipIn(data, pos).Ok?
    ensures t.WellFormed() && At(data, pos, t.Encode()) && SkipIn(data, pos).value == pos + |t.Encode()|
  {
    ReadsOnlyEncodings(data, pos + 36);
    var (len, br) := ReadCompactSize(data, pos + 36).value;
    var p := pos + 36 + br;
    t := TxIn(data[pos..pos + 36], VarInt(len, br), data[p..p + len], data[p + len..p + len + 4]);
    AtJoin(data, p, t.script, t.sequence);
    AtJoin(data, pos + 36, t.scriptLen.Encode(), t.script + t.sequence);
    AtJoin(data, pos, t.prevout, t.scriptLen.Encode() + (t.script + t.sequence));
  }

  lemma {:induction false} DissectIns(data: seq<byte>, pos: nat, n: nat) returns (ts: seq<TxIn>)
    requires pos <= |data| && SkipIns(data, pos, n).Ok?
    ensures |ts| == n && (forall t <- ts :: t.WellFormed())
    ensures At(data, pos, EncodeIns(ts)) && SkipIns(data, pos, n).value == pos + |EncodeIns(ts)|
    decreases n
  {
    hide At, SkipIn, TxIn.Encode, TxIn.WellFormed;
    ts := [];
    if n == 0 {
      AtNothing(data, pos);
    } else {
      var t := DissectIn(data, pos);
      SuffixStep(data, pos, t.Encode());
      var rest := DissectIns(data, pos + |t.Encode()|, n - 1);
      ts := [t] + rest;
      assert ts[1..] == rest;
      AtJoin(data, pos, t.Encode(), EncodeIns(rest));
    }
  }

  lemma DissectOut(data: seq<byte>, pos: nat) returns (t: TxOut)
    requires SkipOut(data, pos).Ok?
    ensures t.WellFormed() && At(data, pos, t.Encode()) && SkipOut(data, pos).value == pos + |t.Encode()|
  {
    ReadsOnlyEncodings(data, pos + 8);
    var (len, br) := ReadCompactSize(data, pos + 8).value;
    var p := pos + 8 + br;
    t := TxOut(data[pos..pos + 8], VarInt(len, br), data[p..p + len]);
    AtJoin(data, pos + 8, t.scriptLen.Encode(), t.script);
    AtJoin(data, pos, t.value, t.scriptLen.Encode() + t.script);
  }

  lemma {:induction false} DissectOuts(data: seq<byte>, pos: nat, n: nat) returns (ts: seq<TxOut>)
    requires pos <= |data| && SkipOuts(data, pos, n).Ok?
    ensures |ts| == n && (forall t <- ts :: t.WellFormed())
    ensures At(data, pos, EncodeOuts(ts)) && SkipOuts(data, pos, n).value == pos + |EncodeOuts(ts)|
    decreases n
  {
    hide At, SkipOut, TxOut.Encode, TxOut.WellFormed;
    ts := [];
    if n == 0 {
      AtNothing(data, pos);
    } else {
      var t := DissectOut(data, pos);
      SuffixStep(data, pos, t.Encode());
      var rest := DissectOuts(data, pos + |t.Encode()|, n - 1);
      ts := [t] + rest;
      assert ts[1..] == rest;
      AtJoin(data, pos, t.Encode(), EncodeOuts(rest));
    }
  }

  lemma {:induction false} DissectSpends(data: seq<byte>, pos: nat, n: nat, acc: seq<seq<byte>>)
    returns (ts: seq<Spend>)
    requires pos <= |data| && ReadSpends(data, pos, n, acc).Ok?
    ensures |ts| == n && (forall t <- ts :: t.WellFormed())
    ensures At(data, pos, EncodeSpends(ts))
    ensures ReadSpends(data, pos, n, acc).value == (acc + Nullifiers(ts), pos + |EncodeSpends(ts)|)
    decreases n
  {
    ts := [];
    if n > 0 {
      var s := data[pos..pos + SPEND_DESC_SIZE];
      var t := Spend(s[..32], s[32..64], s[64..96], s[96..128], s[128..320], s[320..]);
      assert t.Encode() == s;
      NullifierInSpend(data, pos, t);
      var rest := DissectSpends(data, pos + SPEND_DESC_SIZE, n - 1, acc + [t.nullifier]);
      ts := [t] + rest;
      assert ts[1..] == rest;
      AtJoin(data, pos, t.Encode(), EncodeSpends(rest));
    }
    ReadsEncodedSpends(data, pos, ts, acc);
  }

  lemma {:induction false} DissectOutputs(data: seq<byte>, pos: nat, n: nat, acc: seq<CompactOutput>)
    returns (ts: seq<Output>)
    requires pos <= |data| && ReadOutputs(data, pos, n, acc).Ok?
    ensures |ts| == n && (forall t <- ts :: t.WellFormed())
    ensures At(data, pos, EncodeOutputs(ts))
    ensures ReadOutputs(data, pos, n, acc).value == (acc + Notes(ts), pos + |EncodeOutputs(ts)|)
    decreases n
  {
    ts := [];
    if n > 0 {
      var s := data[pos..pos + OUTPUT_DESC_SIZE];
      var t := Output(CompactOutput(s[..32], s[32..64], s[64..96], s[96..676], s[676..756]), s[756..]);
      assert t.Encode() == s;
      NoteInOutput(data, pos, t);
      var rest := DissectOutputs(data, pos + OUTPUT_DESC_SIZE, n - 1, acc + [t.note]);
      ts := [t] + rest;
      assert ts[1..] == rest;
      AtJoin(data, pos, t.Encode(), EncodeOutputs(rest));
    }
    ReadsEncodedOutputs(data, pos, ts, acc);
  }

  lemma DissectDescs(data: seq<byte>, pos: nat, lock: seq<byte>, flag: byte, balance: seq<byte>) returns (t: Tail)
    requires pos <= |data| && ParseDescs(data, pos).Ok? && |lock| == 4 && flag != 0 && |balance| == 8
    ensures t.Present? && t.lockTime == lock && t.flag == flag && t.valueBalance == balance && t.WellFormed()
    ensures EncodeDescs(t) == data[pos..]
  {
    hide ReadCompactSize, ReadSpends, ReadOutputs, EncodeSpends, EncodeOutputs, VarInt.Encode, At;
    ReadsOnlyEncodings(data, pos);
    var (m, br) := ReadCompactSize(data, pos).value;
    var p := pos + br;
    var spends := DissectSpends(data, p, m, []);
    var q := p + |EncodeSpends(spends)|;
    ReadsOnlyEncodings(data, q);
    var (n, br') := ReadCompactSize(data, q).value;
    var outputs := DissectOutputs(data, q + br', n, []);
    SuffixStep(data, q + br', EncodeOutputs(outputs));
    var rest := data[q + br' + |EncodeOutputs(outputs)|..];
    t := Present(lock, flag, balance, VarInt(m, br), spends, VarInt(n, br'), outputs, rest);
    var s3 := EncodeOutputs(outputs) + rest;
    var s2 := t.outputCount.Encode() + s3;
    var s1 := EncodeSpends(spends) + s2;
    SuffixJoin(data, q + br', EncodeOutputs(outputs), rest);
    SuffixJoin(data, q, t.outputCount.Encode(), s3);
    SuffixJoin(data, p, EncodeSpends(spends), s2);
    SuffixJoin(data, pos, t.spendCount.Encode(), s1);
  }

  lemma DissectTail(data: seq<byte>, pos: nat) returns (t: Tail)
    requires pos <= |data| && ParseTail(data, pos).Ok?
    ensures t.WellFormed() && t.Encode() == data[pos..]
  {
    hide ParseDescs, EncodeDescs;
    if pos + 4 >= |data| {
      t := NoSapling(data[pos..]);
    } else if data[pos + 4] == 0 {
      t := Absent(data[pos..pos + 4], data[pos + 5..]);
      assert data[pos..] == data[pos..pos + 4] + ([data[pos + 4]] + data[pos + 5..]);
    } else if pos + 13 > |data| {
      t := CutShort(data[pos..pos + 4], data[pos + 4], data[pos + 5..]);
      assert data[pos..] == data[pos..pos + 4] + ([data[pos + 4]] + data[pos + 5..]);
    } else {
      t := DissectDescs(data, pos + 13, data[pos..pos + 4], data[pos + 4], data[pos + 5..pos + 13]);
      assert data[pos + 5..] == data[pos + 5..pos + 13] + data[pos + 13..];
      assert data[pos..] == data[pos..pos + 4] + ([data[pos + 4]] + data[pos + 5..]);
    }
  }

  lemma DissectTx(data: seq<byte>) returns (t: Tx)
    requires Parse(data).Ok?
    ensures t.WellFormed() && t.Encode() == data
  {
    hide ReadCompactSize, SkipIns, SkipOuts, ParseTail, EncodeIns, EncodeOuts, Tail.Encode, VarInt.Encode, At;
    ReadsOnlyEncodings(data, 4);
    var (m, br) := ReadCompactSize(data, 4).value;
    var vin := DissectIns(data, 4 + br, m);
    SuffixStep(data, 4 + br, EncodeIns(vin));
    var p := 4 + br + |EncodeIns(vin)|;
    ReadsOnlyEncodings(data, p);
    var (n, br') := ReadCompactSize(data, p).value;
    var vout := DissectOuts(data, p + br', n);
    SuffixStep(data, p + br', EncodeOuts(vout));
    var q := p + br' + |EncodeOuts(vout)|;
    var tail := DissectTail(data, q);
    t := Tx(data[..4], VarInt(m, br), vin, VarInt(n, br'), vout, tail);
    var s4 := tail.Encode();
    var s3 := EncodeOuts(vout) + s4;
    var s2 := t.outCount.Encode() + s3;
    var s1 := EncodeIns(vin) + s2;
    SuffixJoin(data, p + br', EncodeOuts(vout), s4);
    SuffixJoin(data, p, t.outCount.Encode(), s3);
    SuffixJoin(data, 4 + br, EncodeIns(vin), s2);
    SuffixJoin(data, 4, t.inCount.Encode(), s1);
    assert data == data[..4] + data[4..];
  }

  /** `c` is what some transaction with exactly these bytes carries. */
  ghost predicate Carries(data: seq<byte>, c: Option<CompactTx>) {
    exists t: Tx :: t.WellFormed() && t.Encode() == data && t.tail.Project() == c
  }

  /** The parser accepts exactly the serialised transactions, and returns exactly what they carry. */
  lemma ParserAcceptsExactly(data: seq<byte>, c: Option<CompactTx>)
    ensures Parse(data) == Ok(c) <==> Carries(data, c)
  {
    hide Parse, Tx.Encode, Tx.WellFormed;
    if Parse(data) == Ok(c) {
      var t := DissectTx(data);
      ParserInvertsSerialisation(t);
    }
    if Carries(data, c) {
      var t: Tx :| t.WellFormed() && t.Encode() == data && t.tail.Project() == c;
      ParserInvertsSerialisation(t);
    }
  }

  lemma {:induction false} SpendsCarryFields(ts: seq<Spend>)
    requires forall t <- ts :: t.WellFormed()
    ensures |Nullifiers(ts)| == |ts|
    ensures forall i | 0 <= i < |ts| :: Nullifiers(ts)[i] == ts[i].nullifier
  {
    if ts != [] {
      SpendsCarryFields(ts[1..]);
    }
  }

  lemma {:induction false} OutputsCarryFields(ts: seq<Output>)
    requires forall t <- ts :: t.WellFormed()
    ensures |Notes(ts)| == |ts|
    ensures forall i | 0 <= i < |ts| :: Notes(ts)[i] == ts[i].note
  {
    if ts != [] {
      OutputsCarryFields(ts[1..]);
    }
  }

  /** Sapling data that is there and not empty is carried whole and in order. */
  lemma CarriedWhole(t: Tail)
    requires t.WellFormed()
    ensures t.Project().Some? <==> t.Present? && |t.spends| + |t.outputs| > 0
    ensures t.Project().Some? ==>
              var c := t.Project().value;
              && |c.nullifiers| == |t.spends| && |c.outputs| == |t.outputs|
              && (forall i | 0 <= i < |t.spends| :: c.nullifiers[i] == t.spends[i].nullifier)
              && (forall i | 0 <= i < |t.outputs| :: c.outputs[i] == t.outputs[i].note)
  {
    if t.Present? {
      SpendsCarryFields(t.spends);
      OutputsCarryFields(t.outputs);
    }
  }

  /** Where the fields of a description lie. */
  lemma DescriptionOffsets(s: Spend, o: Output)
    requires s.WellFormed() && o.WellFormed()
    ensures |s.Encode()| == 384 && s.Encode()[64..96] == s.nullifier
    ensures |o.Encode()| == 948
    ensures o.Encode()[..32] == o.note.cv && o.Encode()[32..64] == o.note.cmu && o.Encode()[64..96] == o.note.epk
    ensures o.Encode()[96..676] == o.note.enc && o.Encode()[676..756] == o.note.out
  {
    var (a, b, c, d) := (o.note.cv, o.note.cmu, o.note.epk, o.note.enc);
    assert o.Encode() == a + (b + (c + (d + (o.note.out + o.proof))));
    assert s.Encode() == (s.cv + s.anchor) + (s.nullifier + (s.rk + s.proof + s.sig));
  }

  /** Parsed fields have their fixed sizes and are not both empty. */
  lemma ParsedIsWellFormed(data: seq<byte>, c: CompactTx)
    requires Parse(data) == Ok(Some(c))
    ensures c.WellFormed() && (c.nullifiers != [] || c.outputs != [])
    ensures |c.nullifiers| < U64_LIMIT && |c.outputs| < U64_LIMIT
  {
    hide Parse, Tx.Encode;
    var t := DissectTx(data);
    ParserInvertsSerialisation(t);
    assert Carries(data, Some(c));
    assert t.tail.Present? && t.tail.WellFormed();
    SpendsCarryFields(t.tail.spends);
    OutputsCarryFields(t.tail.outputs);
    assert c == CompactTx(Nullifiers(t.tail.spends), Notes(t.tail.outputs));
    forall i | 0 <= i < |c.nullifiers| ensures |c.nullifiers[i]| == 32 {
      assert t.tail.spends[i].WellFormed();
    }
    forall i | 0 <= i < |c.outputs| ensures c.outputs[i].WellFormed() {
      assert t.tail.outputs[i].WellFormed();
    }
  }
}
