/** Every field of the packets that `packets` of the capture fixture makes, in terms of the NALs. */
module CaptureFields {
  import opened Bytes
  import opened RtpDump
  import opened RtpHeader
  import opened RtpDumpFields
  import opened CapturePackets

  /** How many of the NALs from `a` up to `b` are pictures. */
  function Pictures(nals: seq<bytes>, a: nat, b: nat): nat
    requires NonEmpty(nals) && b <= |nals|
  {
    |set k: nat | a <= k < b && Kind(nals[k][0]) in {1, 5}|
  }

  lemma PicturesFrom(nals: seq<bytes>, a: nat, b: nat)
    requires NonEmpty(nals) && a < b <= |nals|
    ensures Pictures(nals, a, b) == FrameOf(nals[a]) + Pictures(nals, a + 1, b)
  {
    var all := set k: nat | a <= k < b && Kind(nals[k][0]) in {1, 5};
    var rest := set k: nat | a + 1 <= k < b && Kind(nals[k][0]) in {1, 5};
    if Kind(nals[a][0]) in {1, 5} {
      assert all == rest + {a};
    } else {
      assert all == rest;
    }
  }

  /** A packet names its NAL and shows its part of it, its number, and a time that each picture before moves on. */
  predicate PacketOk(p: Packet, nals: seq<bytes>, number: nat, frame: nat, s: Sent)
    requires NonEmpty(nals)
  {
    && s.nal < |nals| && p.ordinal == s.nal
    && Headed(p.raw, number, 90000 + 3600 * frame, Kind(nals[s.nal][0]) in {1, 5} && s.part != FirstHalf)
    && Holds(p.raw[12..], nals[s.nal], s.part)
  }

  lemma PacketShows(p: Payload, nals: seq<bytes>, tail: seq<bytes>, k: nat, number: nat, frame: nat, s: Sent)
    requires NonEmpty(nals) && NonEmpty(tail) && k < |nals| && tail == nals[k..] && Matches(p, tail, k, s)
    requires number < 0x1_0000 && frame < 0x1_0000
    ensures PacketOk(Packet(s.nal, Header(p.marker, number, frame) + p.body), nals, number, frame, s)
  {
    HeaderReads(if p.marker then 224 else 96, number, 90000 + frame * 3600, p.marker, p.body);
    assert tail[s.nal - k] == nals[s.nal];
  }

  lemma {:induction false} PacketAt(ps: seq<Payload>, ordinal: nat, number: nat, frame: nat, m: nat)
    requires m < |ps|
    ensures PacketsOf(ps, ordinal, number, frame)[m] ==
            Packet(ordinal, Header(ps[m].marker, number + m, frame) + ps[m].body)
  {
    if m > 0 {
      PacketAt(ps[1..], ordinal, number + 1, frame, m - 1);
      Behind(PacketsOf(ps, ordinal, number, frame), PacketsOf(ps[1..], ordinal, number + 1, frame), m);
      assert ps[1..][m - 1] == ps[m] && number + 1 + (m - 1) == number + m;
    }
  }

  lemma Behind(all: seq<Packet>, rest: seq<Packet>, m: nat)
    requires 0 < m < |all| && all[1..] == rest
    ensures all[m] == rest[m - 1]
  {
  }

  lemma PayloadsFit(nals: seq<bytes>, fragmented: bool, k: nat)
    requires NonEmpty(nals) && k < |nals|
    ensures var tail, ps, sent := nals[k..], PayloadsOf(nals[k], fragmented, k), SentOf(nals[k], fragmented, k);
      && NonEmpty(tail) && |ps| == |sent|
      && forall m :: 0 <= m < |sent| ==> sent[m].nal == k && Matches(ps[m], tail, k, sent[m])
  {
    FirstMatch(nals[k..], fragmented, k);
  }

  /** The packets of one NAL. */
  lemma ChunkShows(nals: seq<bytes>, k: nat, number: nat, frame: nat, ps: seq<Payload>, sent: seq<Sent>)
    requires NonEmpty(nals) && k < |nals| && number + |ps| <= 0x1_0000 && frame < 0x1_0000 && |ps| == |sent|
    requires forall m :: 0 <= m < |sent| ==> sent[m].nal == k && Matches(ps[m], nals[k..], k, sent[m])
    ensures forall m :: 0 <= m < |sent| ==>
      PacketOk(PacketsOf(ps, k, number, frame)[m], nals, number + m, frame, sent[m])
  {
    forall m | 0 <= m < |sent|
      ensures PacketOk(PacketsOf(ps, k, number, frame)[m], nals, number + m, frame, sent[m])
    {
      PacketAt(ps, k, number, frame, m);
      PacketShows(ps[m], nals, nals[k..], k, number + m, frame, sent[m]);
    }
  }

  /** Packets `now` and then `rest` show the parts `sent` from NAL `k` on. */
  ghost predicate Shows(all: seq<Packet>, nals: seq<bytes>, k: nat, number: nat, frame: nat, sent: seq<Sent>)
    requires NonEmpty(nals)
  {
    && |all| == |sent|
    && forall m :: 0 <= m < |sent| ==>
         && k <= sent[m].nal < |nals|
         && PacketOk(all[m], nals, number + m, frame + Pictures(nals, k, sent[m].nal), sent[m])
  }

  lemma ShowsBoth(
    now: seq<Packet>, rest: seq<Packet>, nals: seq<bytes>, k: nat, number: nat, frame: nat, first: seq<Sent>,
    more: seq<Sent>)
    requires NonEmpty(nals) && k < |nals| && |now| == |first|
    requires forall m :: 0 <= m < |first| ==> first[m].nal == k && PacketOk(now[m], nals, number + m, frame, first[m])
    requires Shows(rest, nals, k + 1, number + |now|, frame + FrameOf(nals[k]), more)
    ensures Shows(now + rest, nals, k, number, frame, first + more)
  {
    assert Pictures(nals, k, k) == 0;
    forall m | 0 <= m < |first + more|
      ensures var s := (first + more)[m];
        && k <= s.nal < |nals| && PacketOk((now + rest)[m], nals, number + m, frame + Pictures(nals, k, s.nal), s)
    {
      if m >= |first| {
        var n := m - |first|;
        assert (now + rest)[m] == rest[n] && (first + more)[m] == more[n];
        PicturesFrom(nals, k, more[n].nal);
      }
    }
  }

  predicate ChunkAt(chunk: Chunk, fragmented: bool, nal: bytes, k: nat, number: nat, frame: nat) {
    nal != [] ==> chunk(nal, k, number, frame) == PacketsOf(PayloadsOf(nal, fragmented, k), k, number, frame)
  }

  ghost predicate IsChunk(chunk: Chunk, fragmented: bool) {
    forall nal: bytes, k: nat, number: nat, frame: nat :: ChunkAt(chunk, fragmented, nal, k, number, frame)
  }

  lemma {:induction false} ChainShows(nals: seq<bytes>, fragmented: bool, chunk: Chunk, k: nat, number: nat, frame: nat)
    requires NonEmpty(nals) && k <= |nals| && IsChunk(chunk, fragmented) && frame < number
    requires number + |Chain(chunk, nals, k, |nals|, number, frame)| <= 0x1_0000
    ensures Shows(Chain(chunk, nals, k, |nals|, number, frame), nals, k, number, frame,
                  AllSent(nals[k..], fragmented, k))
    decreases |nals| - k
  {
    if k < |nals| {
      var now := chunk(nals[k], k, number, frame);
      var rest := Chain(chunk, nals, k + 1, |nals|, number + |now|, frame + FrameOf(nals[k]));
      ChunkIsSome(chunk, fragmented, nals[k], k, number, frame);
      ChainShows(nals, fragmented, chunk, k + 1, number + |now|, frame + FrameOf(nals[k]));
      ChunkThenRest(nals, fragmented, chunk, k, number, frame, rest);
    }
  }

  lemma ChunkIsSome(chunk: Chunk, fragmented: bool, nal: bytes, k: nat, number: nat, frame: nat)
    requires IsChunk(chunk, fragmented) && nal != []
    ensures |chunk(nal, k, number, frame)| >= 1
  {
    assert ChunkAt(chunk, fragmented, nal, k, number, frame);
  }

  lemma ChunkThenRest(
    nals: seq<bytes>, fragmented: bool, chunk: Chunk, k: nat, number: nat, frame: nat, rest: seq<Packet>)
    requires NonEmpty(nals) && k < |nals| && frame < number && IsChunk(chunk, fragmented)
    requires number + |chunk(nals[k], k, number, frame)| <= 0x1_0000
    requires Shows(rest, nals, k + 1, number + |chunk(nals[k], k, number, frame)|, frame + FrameOf(nals[k]),
                   AllSent(nals[k + 1..], fragmented, k + 1))
    ensures Shows(chunk(nals[k], k, number, frame) + rest, nals, k, number, frame, AllSent(nals[k..], fragmented, k))
  {
    assert ChunkAt(chunk, fragmented, nals[k], k, number, frame);
    var ps, sent := PayloadsOf(nals[k], fragmented, k), SentOf(nals[k], fragmented, k);
    PayloadsFit(nals, fragmented, k);
    ChunkShows(nals, k, number, frame, ps, sent);
    ShowsBoth(PacketsOf(ps, k, number, frame), rest, nals, k, number, frame, sent,
              AllSent(nals[k + 1..], fragmented, k + 1));
    SentSplits(nals, fragmented, k);
  }

  lemma SentSplits(nals: seq<bytes>, fragmented: bool, k: nat)
    requires NonEmpty(nals) && k < |nals|
    ensures AllSent(nals[k..], fragmented, k) ==
            SentOf(nals[k], fragmented, k) + AllSent(nals[k + 1..], fragmented, k + 1)
  {
    assert nals[k..][1..] == nals[k + 1..] && nals[k..][0] == nals[k];
  }

  /** Of the packets that are made, each shows its part of the NALs in order: which NAL, its bytes, numbers from one
      on, the marker on the last packet of each picture and on no other, and 3600 more in time after each picture. */
  lemma EveryFieldIsSent(nals: seq<bytes>, fragmented: bool)
    requires NonEmpty(nals) && |Stream(nals, fragmented)| < 0x1_0000
    ensures var all, sent := Stream(nals, fragmented), AllSent(nals, fragmented, 0);
      && |all| == |sent|
      && forall m :: 0 <= m < |sent| ==>
           sent[m].nal < |nals| && PacketOk(all[m], nals, 1 + m, Pictures(nals, 0, sent[m].nal), sent[m])
  {
    var chunk := ChunkOf(fragmented);
    forall nal: bytes, k: nat, number: nat, frame: nat ensures ChunkAt(chunk, fragmented, nal, k, number, frame) {
    }
    ChainShows(nals, fragmented, chunk, 0, 1, 0);
    assert nals[0..] == nals;
  }
}
