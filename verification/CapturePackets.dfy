/** scripts/check_recording_capture_fixture.py, `packets` and `reconstruct`: the stream packetized once, and
    each window rebuilt from the packets of its NALs. */
module CapturePackets {
  import opened Bytes
  import opened RtpDump

  datatype Packet = Packet(ordinal: nat, raw: bytes)

  function Header(marker: bool, sn: nat, frame: nat): bytes {
    [0x80, if marker then 224 else 96] + BE(2, sn) + BE(4, 90000 + frame * 3600) + BE(4, 7)
  }

  function FrameOf(nal: bytes): nat {
    if nal != [] && IsVcl(nal[0]) then 1 else 0
  }

  /** The packets of the payloads of one NAL, numbered from `sn`. */
  function PacketsOf(ps: seq<Payload>, ordinal: nat, sn: nat, frame: nat): (r: seq<Packet>)
    ensures |r| == |ps|
  {
    if ps == [] then [] else
      [Packet(ordinal, Header(ps[0].marker, sn, frame) + ps[0].body)] + PacketsOf(ps[1..], ordinal, sn + 1, frame)
  }

  /** The packets of one NAL: from its ordinal, its first sequence number and its frame number. */
  type Chunk = (bytes, nat, nat, nat) -> seq<Packet>

  function ChunkOf(fragmented: bool): Chunk {
    (nal: bytes, ordinal: nat, sn: nat, frame: nat) =>
      if nal == [] then [] else PacketsOf(PayloadsOf(nal, fragmented, ordinal), ordinal, sn, frame)
  }

  /** The packets of NALs `k` to `end`, each numbered on from the one before. */
  function Chain(chunk: Chunk, nals: seq<bytes>, k: nat, end: nat, sn: nat, frame: nat): seq<Packet>
    requires k <= end <= |nals|
    decreases end - k
  {
    if k == end then [] else
      var now := chunk(nals[k], k, sn, frame);
      now + Chain(chunk, nals, k + 1, end, sn + |now|, frame + FrameOf(nals[k]))
  }

  function Stream(nals: seq<bytes>, fragmented: bool): seq<Packet> {
    Chain(ChunkOf(fragmented), nals, 0, |nals|, 1, 0)
  }

  method SendPayloads(ps: seq<Payload>, ordinal: nat, first: nat, frame: nat) returns (r: Option<seq<Packet>>)
    requires 0 < first <= 0x1_0000
    ensures r == if first + |ps| <= 0x1_0000 then Some(PacketsOf(ps, ordinal, first, frame)) else None
  {
    var out: seq<Packet>, sn := [], first;
    for i := 0 to |ps|
      invariant sn == first + i <= 0x1_0000
      invariant out + PacketsOf(ps[i..], ordinal, sn, frame) == PacketsOf(ps, ordinal, first, frame)
    {
      if sn >= 0x1_0000 {
        return None;
      }
      assert ps[i..][1..] == ps[i + 1..];
      var one := Packet(ordinal, Header(ps[i].marker, sn, frame) + ps[i].body);
      Assoc(out, [one], PacketsOf(ps[i + 1..], ordinal, sn + 1, frame));
      out := out + [one];
      sn := sn + 1;
    }
    assert out + [] == out;
    return Some(out);
  }

  /** `None` is the exception an empty NAL raises, or a sequence number past 65535. */
  method Packets(nals: seq<bytes>, fragmented: bool) returns (r: Option<seq<Packet>>)
    ensures r == if NonEmpty(nals) && |Stream(nals, fragmented)| < 0x1_0000
                 then Some(Stream(nals, fragmented)) else None
  {
    if !NonEmpty(nals) {
      return None;
    }
    r := SendAll(ChunkOf(fragmented), nals, fragmented);
  }

  method SendNal(ghost chunk: Chunk, nal: bytes, fragmented: bool, ordinal: nat, sn: nat, frame: nat)
    returns (r: Option<seq<Packet>>)
    requires nal != [] && 0 < sn <= 0x1_0000
    requires chunk(nal, ordinal, sn, frame) == PacketsOf(PayloadsOf(nal, fragmented, ordinal), ordinal, sn, frame)
    ensures var now := chunk(nal, ordinal, sn, frame); r == if sn + |now| <= 0x1_0000 then Some(now) else None
  {
    r := SendPayloads(PayloadsOf(nal, fragmented, ordinal), ordinal, sn, frame);
  }

  method SendAll(ghost chunk: Chunk, nals: seq<bytes>, fragmented: bool) returns (r: Option<seq<Packet>>)
    requires NonEmpty(nals)
    requires forall nal: bytes, o: nat, s: nat, f: nat ::
      nal != [] ==> chunk(nal, o, s, f) == PacketsOf(PayloadsOf(nal, fragmented, o), o, s, f)
    ensures var all := Chain(chunk, nals, 0, |nals|, 1, 0); r == if |all| < 0x1_0000 then Some(all) else None
  {
    var out: seq<Packet>, sn, frame: nat := [], 1, 0;
    ghost var all := Chain(chunk, nals, 0, |nals|, 1, 0);
    for ordinal := 0 to |nals|
      invariant sn == 1 + |out| <= 0x1_0000
      invariant all == out + Chain(chunk, nals, ordinal, |nals|, sn, frame)
    {
      ghost var now := chunk(nals[ordinal], ordinal, sn, frame);
      ghost var rest := Chain(chunk, nals, ordinal + 1, |nals|, sn + |now|, frame + FrameOf(nals[ordinal]));
      Assoc(out, now, rest);
      var sent := SendNal(chunk, nals[ordinal], fragmented, ordinal, sn, frame);
      if sent.None? {
        assert |all| == |out| + |now| + |rest|;
        return None;
      }
      out := out + sent.value;
      sn := sn + |sent.value|;
      frame := frame + FrameOf(nals[ordinal]);
    }
    assert out + [] == out;
    return Some(out);
  }

  // ---------------------------------------------------------------- reconstruction

  datatype Refusal = Framing | ShortFragment | Conflict | Interrupted | NoContiguousStart | Unexpected | Incomplete

  datatype Rebuild = Rebuild(nals: seq<bytes>, pending: Option<bytes>, previous: Option<sequence>)

  const EMPTY := Rebuild([], None, None)

  function Accept(st: Rebuild, payload: bytes, sn: sequence): Result<Rebuild, Refusal>
    requires payload != []
  {
    var kind := Kind(payload[0]);
    if kind == 28 then
      if |payload| < 2 then Refused(ShortFragment) else
      var start, end := payload[1] >= 128, payload[1] / 64 % 2 == 1;
      if start && end then Refused(Conflict)
      else if start && st.pending.Some? then Refused(Interrupted)
      else if !start && !(st.pending.Some? && st.previous.Some? && sn == st.previous.value + 1) then
        Refused(NoContiguousStart)
      else
        var begun := if start then [payload[0] / 32 % 4 * 32 + Kind(payload[1])] else st.pending.value;
        if end then Ok(Rebuild(st.nals + [begun + payload[2..]], None, Some(sn)))
        else Ok(Rebuild(st.nals, Some(begun + payload[2..]), Some(sn)))
    else if st.pending.Some? || !(1 <= kind <= 23) then Refused(Unexpected)
    else Ok(Rebuild(st.nals + [payload], None, Some(sn)))
  }

  function Take(st: Rebuild, raw: bytes): Result<Rebuild, Refusal> {
    if |raw| < 13 || raw[0] != 0x80 then Refused(Framing)
    else Accept(st, raw[12..], SequenceOf(raw))
  }

  function TakeAll(st: Rebuild, wire: seq<bytes>): Result<Rebuild, Refusal>
    decreases |wire|
  {
    if wire == [] then Ok(st) else
      var next := Take(st, wire[0]);
      if next.Refused? then next else TakeAll(next.value, wire[1..])
  }

  function RebuiltNals(wire: seq<bytes>): Result<seq<bytes>, Refusal> {
    var r := TakeAll(EMPTY, wire);
    if r.Refused? then Refused(r.why)
    else if r.value.pending.Some? then Refused(Incomplete)
    else Ok(r.value.nals)
  }

  method Reconstruct(wire: seq<bytes>) returns (r: Result<seq<bytes>, Refusal>)
    ensures r == RebuiltNals(wire)
  {
    var nals: seq<bytes>, pending: Option<bytes>, previous: Option<sequence> := [], None, None;
    for i := 0 to |wire|
      invariant TakeAll(EMPTY, wire) == TakeAll(Rebuild(nals, pending, previous), wire[i..])
    {
      assert wire[i..][1..] == wire[i + 1..];
      var raw := wire[i];
      if |raw| < 13 || raw[0] != 0x80 {
        return Refused(Framing);
      }
      var sn, payload := SequenceOf(raw), raw[12..];
      var kind := Kind(payload[0]);
      if kind == 28 {
        if |payload| < 2 {
          return Refused(ShortFragment);
        }
        var start, end := payload[1] >= 128, payload[1] / 64 % 2 == 1;
        if start && end {
          return Refused(Conflict);
        }
        if start {
          if pending.Some? {
            return Refused(Interrupted);
          }
          pending := Some([payload[0] / 32 % 4 * 32 + Kind(payload[1])]);
        } else if !(pending.Some? && previous.Some? && sn == previous.value + 1) {
          return Refused(NoContiguousStart);
        }
        pending := Some(pending.value + payload[2..]);
        if end {
          nals := nals + [pending.value];
          pending := None;
        }
      } else {
        if pending.Some? || !(1 <= kind <= 23) {
          return Refused(Unexpected);
        }
        nals := nals + [payload];
      }
      previous := Some(sn);
    }
    if pending.Some? {
      return Refused(Incomplete);
    }
    return Ok(nals);
  }
}
