/** One step of a walk over length-prefixed packets, on a stream that may be cut at any byte. */
module Packets {
  import opened Bytes
  import opened Stream

  function U32At(data: seq<byte>, pos: nat): nat
    requires pos + 4 <= |data|
  {
    FromLE(data[pos..pos + 4])
  }

  /** The walk stops at `pos`: too few bytes for a length, or for the packet it announces. */
  ghost predicate Incomplete(data: seq<byte>, pos: nat) {
    pos + 4 > |data| || pos + 4 + U32At(data, pos) > |data|
  }

  ghost predicate PrefixAt(data: seq<byte>, pos: nat, s: seq<byte>) {
    pos <= |data| && data[pos..] <= s
  }

  /** A cut inside a packet stops the walk; otherwise the packet is read whole and the walk goes on behind it. */
  lemma PacketStep(data: seq<byte>, pos: nat, payload: seq<byte>, rest: seq<byte>)
    requires |payload| < U32_LIMIT
    requires PrefixAt(data, pos, Frame(payload) + rest)
    ensures |data| < pos + 4 + |payload| ==> Incomplete(data, pos)
    ensures |data| >= pos + 4 + |payload| ==>
              && !Incomplete(data, pos) && U32At(data, pos) == |payload|
              && data[pos + 4..pos + 4 + |payload|] == payload
              && PrefixAt(data, pos + 4 + |payload|, rest)
  {
    var cut := data[pos..];
    var n := 4 + |payload|;
    if pos + 4 <= |data| {
      assert data[pos..pos + 4] == cut[..4] == (Frame(payload) + rest)[..4] == LE(|payload|, 4);
      U32RoundTrip(|payload|);
    }
    if |data| >= pos + n {
      assert cut[..n] == (Frame(payload) + rest)[..n] == Frame(payload);
      assert data[pos + 4..pos + n] == cut[..n][4..] == payload;
      assert data[pos + n..] == cut[n..];
      assert (Frame(payload) + rest)[n..] == rest;
    }
  }

  lemma PrefixAtAssoc(data: seq<byte>, pos: nat, a: seq<byte>, b: seq<byte>, c: seq<byte>)
    ensures PrefixAt(data, pos, (a + b) + c) <==> PrefixAt(data, pos, a + (b + c))
  {
    assert (a + b) + c == a + (b + c);
  }

  lemma PrefixInside(data: seq<byte>, pos: nat, s: seq<byte>)
    requires PrefixAt(data, pos, s)
    ensures pos <= |data| <= pos + |s|
  {
  }

  lemma FooterStep(data: seq<byte>, pos: nat, height: nat, time: nat, rest: seq<byte>)
    requires height < U32_LIMIT && time < U32_LIMIT && PrefixAt(data, pos, Frame(FooterPayload(height, time)) + rest)
    ensures |data| < pos + 13 ==> Incomplete(data, pos)
    ensures |data| >= pos + 13 ==>
              && U32At(data, pos) == 9 && data[pos + 4] == 0x5d
              && U32At(data, pos + 5) == height && U32At(data, pos + 9) == time
              && PrefixAt(data, pos + 13, rest)
  {
    hide Frame, PrefixAt;
    var payload := FooterPayload(height, time);
    PacketStep(data, pos, payload, rest);
    if |data| >= pos + 13 {
      assert data[pos + 4..pos + 13] == payload;
      assert data[pos + 4] == payload[0];
      assert payload[1..5] == LE(height, 4);
      SliceOfSlice(data, pos + 4, pos + 13, 1, 5);
      U32RoundTrip(height);
      assert payload[5..9] == LE(time, 4);
      SliceOfSlice(data, pos + 4, pos + 13, 5, 9);
      U32RoundTrip(time);
    }
  }

  /** Any packets one behind the other. */
  ghost function Framed(ps: seq<seq<byte>>): seq<byte> {
    if ps == [] then [] else Frame(ps[0]) + Framed(ps[1..])
  }

  ghost predicate Framable(ps: seq<seq<byte>>) {
    forall p <- ps :: |p| < U32_LIMIT
  }

  ghost predicate IsFooter(p: seq<byte>) {
    |p| == 9 && p[0] == 0x5d
  }

  /** How many of `bs` lie wholly inside the first `n` bytes of their encoding. */
  ghost function WholeBlocks(bs: seq<ShieldBlock>, n: nat): (k: nat)
    ensures k <= |bs|
  {
    if bs == [] || |EncodeBlock(bs[0], PivxCompat)| > n then 0
    else 1 + WholeBlocks(bs[1..], n - |EncodeBlock(bs[0], PivxCompat)|)
  }

  lemma {:induction false} WholeBlocksIsMaximal(bs: seq<ShieldBlock>, n: nat)
    ensures var k := WholeBlocks(bs, n);
            && |EncodeStream(bs[..k], PivxCompat)| <= n
            && (k < |bs| ==> n < |EncodeStream(bs[..k + 1], PivxCompat)|)
  {
    hide EncodeBlock;
    var k := WholeBlocks(bs, n);
    if bs == [] {
    } else if |EncodeBlock(bs[0], PivxCompat)| > n {
      assert bs[..1] == [bs[0]];
      EncodeStreamOne(bs[0], PivxCompat);
    } else {
      WholeBlocksIsMaximal(bs[1..], n - |EncodeBlock(bs[0], PivxCompat)|);
      assert bs[..k][1..] == bs[1..][..k - 1];
      if k < |bs| {
        assert bs[..k + 1][1..] == bs[1..][..k];
      }
    }
  }

  lemma {:induction false} WholeBlocksIs(bs: seq<ShieldBlock>, n: nat, k: nat)
    requires k <= |bs| && |EncodeStream(bs[..k], PivxCompat)| <= n
    requires k < |bs| ==> n < |EncodeStream(bs[..k + 1], PivxCompat)|
    ensures WholeBlocks(bs, n) == k
  {
    hide EncodeBlock;
    if bs != [] {
      if k == 0 {
        assert bs[..1] == [bs[0]];
        EncodeStreamOne(bs[0], PivxCompat);
      } else {
        assert bs[..k][1..] == bs[1..][..k - 1];
        if k < |bs| {
          assert bs[..k + 1][1..] == bs[1..][..k];
        }
        WholeBlocksIs(bs[1..], n - |EncodeBlock(bs[0], PivxCompat)|, k - 1);
      }
    }
  }

  lemma {:induction false} AllBlocksWhole(bs: seq<ShieldBlock>)
    ensures WholeBlocks(bs, |EncodeStream(bs, PivxCompat)|) == |bs|
  {
    hide EncodeBlock;
    if bs != [] {
      AllBlocksWhole(bs[1..]);
    }
  }
}
