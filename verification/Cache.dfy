/** The cache file of src/cache.rs: appending, truncating, and recovery after a torn write. */
module Cache {
  import opened Wrappers
  import opened Bytes
  import opened SaplingTx
  import opened Stream
  import opened Scanner
  import opened Packets

  /** The end of the last complete footer packet at or after `pos`, or `last` when there is none. */
  function LastFooterFrom(data: seq<byte>, pos: nat, last: Option<nat>): (r: Option<nat>)
    ensures r == last || (r.Some? && pos + 13 <= r.value <= |data|)
    decreases |data| - pos
  {
    if pos + 4 > |data| || pos + 4 + U32At(data, pos) > |data| then last
    else
      var len := U32At(data, pos);
      var end := pos + 4 + len;
      LastFooterFrom(data, end, if len == 9 && data[pos + 4] == 0x5d then Some(end) else last)
  }

  function LastFooter(data: seq<byte>): (r: Option<nat>)
    ensures r.Some? ==> 13 <= r.value <= |data|
  {
    LastFooterFrom(data, 0, None)
  }

  method FindLastFooter(data: seq<byte>) returns (lastFooterEnd: Option<nat>)
    ensures lastFooterEnd == LastFooter(data)
  {
    hide U32At;
    var pos: nat := 0;
    lastFooterEnd := None;
    while pos + 4 <= |data|
      invariant pos <= |data|
      invariant LastFooterFrom(data, pos, lastFooterEnd) == LastFooter(data)
      decreases |data| - pos
    {
      var len := U32At(data, pos);
      var end := pos + 4 + len;
      if end > |data| { break; }
      if len == 9 && data[pos + 4] == 0x5d {
        lastFooterEnd := Some(end);
      }
      pos := end;
    }
  }

  /** What recovery leaves in a readable, writable file: nothing is cut off when there is no footer at all. */
  function RecoveredBytes(data: seq<byte>): seq<byte> {
    match LastFooter(data)
    case None => data
    case Some(end) => data[..end]
  }

  function RecoveredHeight(data: seq<byte>): Option<nat> {
    match LastFooter(data)
    case None => None
    case Some(end) => Some(U32At(data, end - 8))
  }

  function IndexTriples(bs: seq<ShieldBlock>, offset: nat): seq<(nat, nat, nat)> {
    if bs == [] then []
    else
      var len := |EncodeBlock(bs[0], PivxCompat)|;
      [(bs[0].height, offset, len)] + IndexTriples(bs[1..], offset + len)
  }

  /** `set_len`: cuts the tail off, or pads with zeros. */
  function SetLen(data: seq<byte>, n: nat): (s: seq<byte>)
    ensures |s| == n
    ensures forall i | 0 <= i < n :: s[i] == if i < |data| then data[i] else 0
  {
    if n <= |data| then data[..n] else data + seq(n - |data|, _ => 0)
  }

  /** Whether system calls succeed, may fail, or all fail. */
  datatype Disk = Working | Flaky | Failing
  {
    /** One system call, `bad` being what chance makes of it. */
    predicate Fails(bad: bool) {
      Failing? || (Flaky? && bad)
    }
  }

  class CacheFile {
    var present: bool
    var bytes: seq<byte>
    /** A failed write may leave any prefix behind. */
    var disk: Disk
    /** History: how many appends failed, and how many failed cuts shortened the file all the same. */
    ghost var failedAppends: nat
    ghost var tornCuts: nat

    constructor ()
      ensures present && bytes == [] && disk == Working && failedAppends == tornCuts == 0
    {
      present, bytes, disk := true, [], Working;
      failedAppends, tornCuts := 0, 0;
    }

    ghost function Faults(): nat
      reads this
    {
      failedAppends + tornCuts
    }

    /** `write_all`. */
    method WriteAll(data: seq<byte>) returns (ok: bool)
      modifies this`bytes
      ensures (disk.Working? ==> ok) && (disk.Failing? ==> !ok)
      ensures Torn(old(bytes), data, bytes)
      ensures (ok ==> bytes == old(bytes) + data) && (disk.Failing? ==> bytes == old(bytes))
    {
      var bad, written := *, *;
      ok := !disk.Fails(bad);
      var n := if ok then |data| else if disk.Flaky? && 0 <= written <= |data| then written else 0;
      TornAt(bytes, data, bytes + data[..n], n);
      assert data[..|data|] == data && bytes + data[..0] == bytes;
      bytes := bytes + data[..n];
    }

    method AppendBlocks(blocks: seq<ShieldBlock>) returns (entries: Option<seq<(nat, nat, nat)>>)
      modifies this`bytes, this`failedAppends
      ensures failedAppends == old(failedAppends) + if entries.None? then 1 else 0
      ensures disk.Working? ==> entries.Some?
      ensures disk.Failing? ==> entries.None? && bytes == old(bytes)
      ensures entries.Some? ==>
                && bytes == old(bytes) + EncodeStream(blocks, PivxCompat)
                && entries.value == IndexTriples(blocks, |old(bytes)|)
      ensures entries.None? ==> Torn(old(bytes), EncodeStream(blocks, PivxCompat), bytes)
    {
      hide EncodeStream, IndexTriples, Torn;
      ghost var all := EncodeStream(blocks, PivxCompat);
      var seekBad, syncBad := *, *;
      if disk.Fails(seekBad) {
        failedAppends := failedAppends + 1;
        TornAt(bytes, all, bytes, 0);
        return None;
      }
      var currentOffset := |bytes|;
      var acc: seq<(nat, nat, nat)> := [];
      assert blocks[0..] == blocks;
      for i := 0 to |blocks|
        invariant failedAppends == old(failedAppends)
        invariant bytes + EncodeStream(blocks[i..], PivxCompat) == old(bytes) + all
        invariant currentOffset == |bytes| && |old(bytes)| <= |bytes|
        invariant acc + IndexTriples(blocks[i..], currentOffset) == IndexTriples(blocks, |old(bytes)|)
      {
        var encoded := EncodeShieldStream([blocks[i]], PivxCompat);
        FirstOfMany(blocks, i, currentOffset);
        ghost var before, rest := bytes, EncodeStream(blocks[i + 1..], PivxCompat);
        var ok := WriteAll(encoded);
        PartialWrite(old(bytes), all, before, encoded, rest, bytes);
        if !ok {
          failedAppends := failedAppends + 1;
          return None;
        }
        assert bytes + rest == before + (encoded + rest);
        acc := acc + [(blocks[i].height, currentOffset, |encoded|)];
        currentOffset := currentOffset + |encoded|;
      }
      NoneLeft(blocks, currentOffset);
      assert bytes + [] == bytes && acc + [] == acc;
      if disk.Fails(syncBad) {
        failedAppends := failedAppends + 1;
        assert all[..|all|] == all;
        TornAt(old(bytes), all, bytes, |all|);
        return None;
      }
      entries := Some(acc);
    }

    /** A failure of `set_len` leaves the file alone; a failure after it leaves the file truncated. */
    method TruncateTo(offset: nat) returns (ok: bool)
      modifies this`bytes, this`tornCuts
      ensures (disk.Working? ==> ok) && (disk.Failing? ==> !ok && bytes == old(bytes))
      ensures ok ==> bytes == SetLen(old(bytes), offset)
      ensures !ok ==> bytes == old(bytes) || bytes == SetLen(old(bytes), offset)
      ensures tornCuts == old(tornCuts) + if !ok && bytes != old(bytes) then 1 else 0
    {
      var setLenBad, syncBad := *, *;
      if disk.Fails(setLenBad) { return false; }
      bytes := SetLen(bytes, offset);
      ok := !disk.Fails(syncBad);
      if !ok && bytes != old(bytes) {
        tornCuts := tornCuts + 1;
      }
    }

    method RecoverCache() returns (height: Option<nat>)
      modifies this`bytes
      ensures present && disk.Working? ==> bytes == RecoveredBytes(old(bytes)) && height == RecoveredHeight(old(bytes))
      ensures !present ==> height.None?
      ensures !present || !disk.Working? ==> bytes == old(bytes) || bytes == RecoveredBytes(old(bytes))
      ensures height.Some? ==> bytes == RecoveredBytes(old(bytes)) && height == RecoveredHeight(old(bytes))
    {
      var readBad, setLenBad := *, *;
      if !present || |bytes| == 0 { return None; }
      if disk.Fails(readBad) { return None; }
      var data := bytes;
      var end := FindLastFooter(data);
      if end.None? { return None; }
      if end.value < 9 { return None; }
      if end.value < |data| {
        if disk.Fails(setLenBad) { return None; }
        bytes := SetLen(bytes, end.value);
      }
      assert bytes == data[..end.value];
      var footerStart := end.value - 9;
      height := Some(FromLE(data[footerStart + 1..footerStart + 5]));
    }
  }

  lemma FirstOfMany(bs: seq<ShieldBlock>, i: nat, offset: nat)
    requires i < |bs|
    ensures EncodeStream(bs[i..], PivxCompat)
         == EncodeStream([bs[i]], PivxCompat) + EncodeStream(bs[i + 1..], PivxCompat)
    ensures var len := |EncodeStream([bs[i]], PivxCompat)|;
            IndexTriples(bs[i..], offset) == [(bs[i].height, offset, len)] + IndexTriples(bs[i + 1..], offset + len)
  {
    hide EncodeBlock;
    EncodeStreamOne(bs[i], PivxCompat);
    assert bs[i..][1..] == bs[i + 1..];
  }

  lemma NoneLeft(bs: seq<ShieldBlock>, offset: nat)
    ensures EncodeStream(bs[|bs|..], PivxCompat) == [] && IndexTriples(bs[|bs|..], offset) == []
  {
  }

  /** Some part of `all` was appended to `before`. */
  ghost predicate Torn(before: seq<byte>, all: seq<byte>, after: seq<byte>) {
    exists n :: 0 <= n <= |all| && after == before + all[..n]
  }

  lemma TornAt(before: seq<byte>, all: seq<byte>, after: seq<byte>, n: nat)
    requires n <= |all| && after == before + all[..n]
    ensures Torn(before, all, after)
  {
  }

  /** Some part of one block is some part of the whole append. */
  lemma PartialWrite(start: seq<byte>, all: seq<byte>, done: seq<byte>, part: seq<byte>, rest: seq<byte>,
                     after: seq<byte>)
    requires done + (part + rest) == start + all && |start| <= |done| && Torn(done, part, after)
    ensures Torn(start, all, after)
  {
    var n :| 0 <= n <= |part| && after == done + part[..n];
    var m := |done| + n - |start|;
    assert (done + (part + rest))[..|done| + n] == done + part[..n];
    assert (start + all)[..|start| + m] == start + all[..m];
  }

  /** Each triple names a block's height, where it starts, and how many bytes it takes. */
  lemma {:induction false} TripleAt(bs: seq<ShieldBlock>, offset: nat, k: nat)
    requires k < |bs|
    ensures |IndexTriples(bs, offset)| == |bs|
    ensures IndexTriples(bs, offset)[k]
         == (bs[k].height, offset + |EncodeStream(bs[..k], PivxCompat)|, |EncodeStream([bs[k]], PivxCompat)|)
  {
    hide EncodeBlock;
    if |bs| > 1 {
      TripleAt(bs[1..], offset + |EncodeBlock(bs[0], PivxCompat)|, if k == 0 then 0 else k - 1);
    }
    if k == 0 {
      EncodeStreamOne(bs[0], PivxCompat);
    } else {
      assert bs[..k][1..] == bs[1..][..k - 1];
    }
  }

  // ---------------------------------------------------------------------------
  // Any packets, cut at any byte
  // ---------------------------------------------------------------------------

  /** Where packet `k` ends. */
  ghost function EndOf(ps: seq<seq<byte>>, k: nat): nat
    requires k < |ps|
  {
    |Framed(ps[..k + 1])|
  }

  /** `end` is where the last footer ends that lies wholly in the first `n` bytes of `ps`; none if there is none. */
  ghost predicate EndsLastFooter(ps: seq<seq<byte>>, n: nat, end: Option<nat>) {
    && (forall k | 0 <= k < |ps| && IsFooter(ps[k]) && EndOf(ps, k) <= n :: end.Some? && EndOf(ps, k) <= end.value)
    && (end.Some? ==> exists k | 0 <= k < |ps| && IsFooter(ps[k]) :: end.value == EndOf(ps, k) <= n)
  }

  lemma {:induction false} FooterWalk(data: seq<byte>, pos: nat, ps: seq<seq<byte>>, last: Option<nat>)
    returns (found: Option<nat>)
    requires Framable(ps) && PrefixAt(data, pos, Framed(ps))
    ensures LastFooterFrom(data, pos, last) == if found.Some? then Some(pos + found.value) else last
    ensures EndsLastFooter(ps, |data| - pos, found)
    decreases |ps|
  {
    hide U32At, PrefixAt, Frame, EndsLastFooter;
    found := None;
    PrefixInside(data, pos, Framed(ps));
    if ps == [] {
      NoPackets(|data| - pos);
    } else {
      var n := |data| - pos;
      PacketStep(data, pos, ps[0], Framed(ps[1..]));
      var end := pos + 4 + |ps[0]|;
      if |data| >= end {
        var footer := IsFooter(ps[0]);
        assert footer <==> |ps[0]| == 9 && data[pos + 4] == 0x5d by {
          assert |ps[0]| > 0 ==> data[pos + 4] == data[pos + 4..end][0];
        }
        var rest := FooterWalk(data, end, ps[1..], if footer then Some(end) else last);
        found := if rest.Some? then Some(4 + |ps[0]| + rest.value) else if footer then Some(4 + |ps[0]|) else None;
        LaterFooters(ps, n, rest);
      } else {
        NoFooterFits(ps, n);
      }
    }
  }

  lemma NoPackets(n: nat)
    ensures EndsLastFooter([], n, None)
  {
  }

  lemma {:induction false} NoFooterFits(ps: seq<seq<byte>>, n: nat)
    requires ps != [] && n < 4 + |ps[0]|
    ensures EndsLastFooter(ps, n, None)
  {
    hide Frame;
    forall k | 0 <= k < |ps| ensures EndOf(ps, k) > n {
      assert ps[..k + 1][0] == ps[0];
    }
  }

  lemma EndOfLater(ps: seq<seq<byte>>, k: nat)
    requires k < |ps|
    ensures EndOf(ps, k) == 4 + |ps[0]| + if k == 0 then 0 else EndOf(ps[1..], k - 1)
  {
    hide Frame;
    assert ps[..k + 1][0] == ps[0] && ps[..k + 1][1..] == ps[1..][..k];
    assert Framed(ps[..k + 1]) == Frame(ps[0]) + Framed(ps[1..][..k]);
    if k == 0 {
      assert ps[1..][..0] == [];
    } else {
      assert ps[1..][..k] == ps[1..][..k - 1 + 1];
    }
  }

  lemma {:induction false} LaterFooters(ps: seq<seq<byte>>, n: nat, rest: Option<nat>)
    requires ps != [] && n >= 4 + |ps[0]| && EndsLastFooter(ps[1..], n - 4 - |ps[0]|, rest)
    ensures EndsLastFooter(ps, n, if rest.Some? then Some(4 + |ps[0]| + rest.value)
                                  else if IsFooter(ps[0]) then Some(4 + |ps[0]|) else None)
  {
    hide Frame, IsFooter, EndOf;
    forall k | 0 <= k < |ps|
      ensures EndOf(ps, k) == 4 + |ps[0]| + if k == 0 then 0 else EndOf(ps[1..], k - 1)
    {
      EndOfLater(ps, k);
    }
    forall k | 1 <= k < |ps| && IsFooter(ps[k]) && EndOf(ps, k) <= n
      ensures rest.Some? && EndOf(ps[1..], k - 1) <= rest.value
    {
      assert IsFooter(ps[1..][k - 1]);
    }
    if rest.Some? {
      var k :| 0 <= k < |ps[1..]| && IsFooter(ps[1..][k]) && rest.value == EndOf(ps[1..], k) <= n - 4 - |ps[0]|;
      assert IsFooter(ps[k + 1]);
      assert EndOf(ps, k + 1) == 4 + |ps[0]| + rest.value;
    }
  }

  /** On any packets, whoever wrote them, and any cut: the walk finds where the last whole footer ends. */
  lemma LastFooterOfPackets(ps: seq<seq<byte>>, n: nat)
    requires Framable(ps) && n <= |Framed(ps)|
    ensures EndsLastFooter(ps, n, LastFooter(Framed(ps)[..n]))
  {
    hide LastFooterFrom, EndsLastFooter, Framed;
    var cut := Framed(ps)[..n];
    assert cut[0..] == cut;
    var found := FooterWalk(cut, 0, ps, None);
  }

  // ---------------------------------------------------------------------------
  // Recovery after a write torn at any byte
  // ---------------------------------------------------------------------------

  /** Raw transactions start with 0x03 and are never taken for footers, whatever their length. */
  lemma {:induction false} PassesRaws(data: seq<byte>, pos: nat, txs: seq<ShieldTx>, rest: seq<byte>, last: Option<nat>)
    requires forall tx <- txs :: ScannedTx(tx)
    requires PrefixAt(data, pos, RawPackets(txs) + rest)
    ensures var end := pos + |RawPackets(txs)|;
            if |data| < end then LastFooterFrom(data, pos, last) == last
            else PrefixAt(data, end, rest) && LastFooterFrom(data, pos, last) == LastFooterFrom(data, end, last)
    decreases |txs|
  {
    hide Parse, Frame, U32At, PrefixAt;
    if txs == [] {
      assert [] + rest == rest;
    } else {
      var raw := txs[0].raw;
      assert ScannedTx(txs[0]);
      PrefixAtAssoc(data, pos, Frame(raw), RawPackets(txs[1..]), rest);
      PacketStep(data, pos, raw, RawPackets(txs[1..]) + rest);
      var next := pos + 4 + |raw|;
      if |data| >= next {
        assert data[pos + 4] == data[pos + 4..next][0] == raw[..4][0] == 0x03;
        PassesRaws(data, next, txs[1..], rest, last);
      }
    }
  }

  lemma PassesBlock(data: seq<byte>, pos: nat, b: ShieldBlock, rest: seq<byte>, last: Option<nat>)
    requires Scanned(b) && PrefixAt(data, pos, EncodeBlock(b, PivxCompat) + rest)
    ensures var end := pos + |EncodeBlock(b, PivxCompat)|;
            if |data| < end then LastFooterFrom(data, pos, last) == last
            else PrefixAt(data, end, rest) && LastFooterFrom(data, pos, last) == LastFooterFrom(data, end, Some(end))
  {
    hide Frame, U32At, PrefixAt, RawPackets, ScannedTx, FooterPayload;
    var raws, footer := RawPackets(b.txs), Frame(FooterPayload(b.height, b.time));
    PrefixAtAssoc(data, pos, raws, footer, rest);
    PassesRaws(data, pos, b.txs, footer + rest, last);
    if |data| >= pos + |raws| {
      FooterStep(data, pos + |raws|, b.height, b.time, rest);
    }
  }

  lemma {:induction false} LastFooterOfCutFrom(data: seq<byte>, pos: nat, bs: seq<ShieldBlock>, last: Option<nat>)
    requires AllScanned(bs) && PrefixAt(data, pos, EncodeStream(bs, PivxCompat))
    ensures var k := WholeBlocks(bs, |data| - pos);
            LastFooterFrom(data, pos, last) == if k == 0 then last else Some(pos + |EncodeStream(bs[..k], PivxCompat)|)
    decreases |bs|
  {
    hide U32At, PrefixAt, EncodeBlock, Scanned;
    PrefixInside(data, pos, EncodeStream(bs, PivxCompat));
    if bs != [] {
      PassesBlock(data, pos, bs[0], EncodeStream(bs[1..], PivxCompat), last);
      var end := pos + |EncodeBlock(bs[0], PivxCompat)|;
      if |data| >= end {
        LastFooterOfCutFrom(data, end, bs[1..], Some(end));
        var k := WholeBlocks(bs, |data| - pos);
        assert bs[..k][0] == bs[0] && bs[..k][1..] == bs[1..][..k - 1];
        if k == 1 {
          assert bs[1..][..0] == [];
        }
      }
    }
  }

  /** For every block list and every cut, the walker finds the end of the last wholly contained block. */
  lemma LastFooterOfCut(bs: seq<ShieldBlock>, n: nat)
    requires AllScanned(bs) && n <= |EncodeStream(bs, PivxCompat)|
    ensures var k := WholeBlocks(bs, n);
            LastFooter(EncodeStream(bs, PivxCompat)[..n])
            == if k == 0 then None else Some(|EncodeStream(bs[..k], PivxCompat)|)
  {
    hide EncodeStream, AllScanned, WholeBlocks;
    var cut := EncodeStream(bs, PivxCompat)[..n];
    assert cut[0..] == cut;
    LastFooterOfCutFrom(cut, 0, bs, None);
  }

  lemma LastFooterHeight(bs: seq<ShieldBlock>)
    requires AllScanned(bs) && bs != []
    ensures var s := EncodeStream(bs, PivxCompat);
            |s| >= 13 && U32At(s, |s| - 8) == bs[|bs| - 1].height
  {
    hide EncodeStream, RawPackets, U32At, Frame, FooterPayload;
    var b := bs[|bs| - 1];
    assert bs == bs[..|bs| - 1] + [b];
    assert Scanned(b);
    EncodeStreamAppend(bs[..|bs| - 1], [b], PivxCompat);
    EncodeStreamOne(b, PivxCompat);
    HeightInFooter(EncodeStream(bs[..|bs| - 1], PivxCompat) + RawPackets(b.txs), b.height, b.time);
    assert EncodeStream(bs, PivxCompat)
        == EncodeStream(bs[..|bs| - 1], PivxCompat) + RawPackets(b.txs) + Frame(FooterPayload(b.height, b.time));
  }

  lemma HeightInFooter(front: seq<byte>, height: nat, time: nat)
    requires height < U32_LIMIT
    ensures U32At(front + Frame(FooterPayload(height, time)), |front| + 5) == height
  {
    var s := front + Frame(FooterPayload(height, time));
    assert s[|front| + 5..|front| + 9] == Frame(FooterPayload(height, time))[5..9] == LE(height, 4);
    U32RoundTrip(height);
  }

  lemma EncodedPrefix(bs: seq<ShieldBlock>, k: nat)
    requires k <= |bs|
    ensures var s, p := EncodeStream(bs, PivxCompat), EncodeStream(bs[..k], PivxCompat);
            |p| <= |s| && s[..|p|] == p && s[|p|..] == EncodeStream(bs[k..], PivxCompat)
  {
    hide EncodeStream;
    EncodeStreamAppend(bs[..k], bs[k..], PivxCompat);
    assert bs[..k] + bs[k..] == bs;
  }

  /** Recovery of any cut leaves exactly the wholly contained blocks and reports the last one's height. */
  lemma TornWriteRecovery(bs: seq<ShieldBlock>, n: nat)
    requires AllScanned(bs) && n <= |EncodeStream(bs, PivxCompat)|
    ensures var cut, k := EncodeStream(bs, PivxCompat)[..n], WholeBlocks(bs, n);
            && RecoveredHeight(cut) == (if k == 0 then None else Some(bs[k - 1].height))
            && RecoveredBytes(cut) == if k == 0 then cut else EncodeStream(bs[..k], PivxCompat)
  {
    hide EncodeStream, LastFooter, U32At, WholeBlocks, Scanned;
    var s, k := EncodeStream(bs, PivxCompat), WholeBlocks(bs, n);
    var cut := s[..n];
    LastFooterOfCut(bs, n);
    if k > 0 {
      var kept := EncodeStream(bs[..k], PivxCompat);
      EncodedPrefix(bs, k);
      WholeBlocksIsMaximal(bs, n);
      assert cut[..|kept|] == s[..|kept|] == kept;
      assert AllScanned(bs[..k]);
      LastFooterHeight(bs[..k]);
      SameU32(cut, kept, |kept| - 8);
    }
  }

  lemma SameU32(data: seq<byte>, prefix: seq<byte>, pos: nat)
    requires prefix <= data && pos + 4 <= |prefix|
    ensures U32At(data, pos) == U32At(prefix, pos)
  {
    assert data[pos..pos + 4] == prefix[pos..pos + 4];
  }

  /** The torn block is removed exactly when a whole block precedes it, or nothing of it was written. */
  lemma RecoveryRemovesTornBlockExactlyWhen(bs: seq<ShieldBlock>, n: nat)
    requires AllScanned(bs) && n <= |EncodeStream(bs, PivxCompat)|
    ensures RecoveredBytes(EncodeStream(bs, PivxCompat)[..n]) == EncodeStream(bs[..WholeBlocks(bs, n)], PivxCompat)
       <==> WholeBlocks(bs, n) > 0 || n == 0
  {
    TornWriteRecovery(bs, n);
  }

  /** A cut inside the very first block: there is no footer to cut back to, so its torn bytes stay. */
  lemma FirstTornBlockStays(bs: seq<ShieldBlock>, n: nat)
    requires AllScanned(bs) && bs != [] && 0 < n < |EncodeBlock(bs[0], PivxCompat)|
    ensures n < |EncodeStream(bs, PivxCompat)|
    ensures var cut := EncodeStream(bs, PivxCompat)[..n];
            RecoveredBytes(cut) == cut != [] && RecoveredHeight(cut) == None
  {
    hide EncodeBlock;
    assert WholeBlocks(bs, n) == 0;
    TornWriteRecovery(bs, n);
  }

  lemma {:induction false} LastFooterOfKept(data: seq<byte>, pos: nat, last: Option<nat>, end: nat)
    requires LastFooterFrom(data, pos, last) == Some(end) && pos <= end <= |data|
    ensures LastFooterFrom(data[..end], pos, last) == Some(end)
    decreases |data| - pos
  {
    hide U32At;
    if pos + 4 <= end {
      SameU32(data, data[..end], pos);
      var len := U32At(data, pos);
      var next := pos + 4 + len;
      if next <= end {
        LastFooterOfKept(data, next, if len == 9 && data[pos + 4] == 0x5d then Some(next) else last, end);
      }
    }
  }

  /** Recovering twice is recovering once, for every byte string. */
  lemma RecoveryIsIdempotent(data: seq<byte>)
    ensures RecoveredBytes(RecoveredBytes(data)) == RecoveredBytes(data)
    ensures RecoveredHeight(RecoveredBytes(data)) == RecoveredHeight(data)
  {
    hide U32At;
    var r := LastFooter(data);
    if r.Some? {
      LastFooterOfKept(data, 0, None, r.value);
      SameU32(data, data[..r.value], r.value - 8);
    }
  }
}
