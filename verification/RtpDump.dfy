/** scripts/check_rtpdump_ingest_fixture.py: NALs packetized into a retained rtpdump file, that file
    parsed into records, and the records reconstructed into NALs with source offsets. */
module RtpDump {
  import opened Bytes

  datatype Refusal =
    | IndexError | StructError
    | BadHeader | PartialPrefix | BadLength | PartialRecord
    | Shape | Discontinuity | InterruptedFU | NoStart | UnfinishedFU | UnfinishedTerminal

  /** "#!rtpplay1.0 0.0.0.0/0\n" and sixteen zero bytes. */
  const HEADER: bytes := [
    35, 33, 114, 116, 112, 112, 108, 97, 121, 49, 46, 48, 32, 48, 46, 48, 46, 48, 46, 48, 47, 48, 10,
    0, 0, 0, 0, 0, 0, 0, 0, 0, 0, 0, 0, 0, 0, 0, 0]

  datatype Payload = Payload(body: bytes, marker: bool, offset: nat)
  datatype Rec = Rec(pos: nat, raw: bytes)
  datatype Copy = Copy(from: nat, to: nat, copied: bytes)

  type sequence = n: int | 0 <= n < 0x1_0000

  /** `(seq + 1) & 65535` */
  function Next(sn: sequence): sequence {
    if sn == 0xffff then 0 else sn + 1
  }

  /** The sequence number `k` packets after `sn`. */
  function After(sn: sequence, k: nat): sequence
    decreases k
  {
    if k == 0 then sn else After(Next(sn), k - 1)
  }

  // ---------------------------------------------------------------- packetizing

  /** First half of a split NAL starts after its header byte. */
  function Middle(nal: bytes): nat
    requires nal != []
  {
    1 + (|nal| - 1) / 2
  }

  function FuPrefix(header: byte, flag: byte): bytes
    requires flag == 64 || flag == 128
  {
    [header / 32 % 4 * 32 + 28, Kind(header) + flag]
  }

  function PayloadsOf(nal: bytes, fragmented: bool, i: nat): seq<Payload>
    requires nal != []
  {
    if fragmented && IsVcl(nal[0]) then
      [Payload(FuPrefix(nal[0], 128) + nal[1..Middle(nal)], false, i),
       Payload(FuPrefix(nal[0], 64) + nal[Middle(nal)..], true, i)]
    else
      [Payload(nal, IsVcl(nal[0]), i)]
  }

  function Payloads(nals: seq<bytes>, fragmented: bool, i: nat): seq<Payload>
    requires NonEmpty(nals)
  {
    if nals == [] then [] else
      PayloadsOf(nals[0], fragmented, i) + Payloads(nals[1..], fragmented, i + 1)
  }

  function Probation(): Payload {
    Payload([0x09, 0xf0], false, 0)
  }

  function AllPayloads(nals: seq<bytes>, fragmented: bool): seq<Payload>
    requires NonEmpty(nals)
  {
    [Probation()] + Payloads(nals, fragmented, 0)
  }

  function Wire(p: Payload, sn: sequence): bytes {
    [0x80, if p.marker then 224 else 96] + BE(2, sn) + BE(4, 90000) + BE(4, 7) + p.body
  }

  function RecordLength(p: Payload): nat {
    20 + |p.body|
  }

  /** What `struct.pack("!HHI", …)` can hold. */
  predicate Fits(p: Payload) {
    RecordLength(p) < 0x1_0000 && p.offset < 0x1_0000_0000
  }

  predicate AllFit(ps: seq<Payload>) {
    forall k :: 0 <= k < |ps| ==> Fits(ps[k])
  }

  function Record(p: Payload, sn: sequence): bytes
  {
    BE(2, |Wire(p, sn)| + 8) + BE(2, |Wire(p, sn)|) + BE(4, p.offset) + Wire(p, sn)
  }

  function RecordList(ps: seq<Payload>, sn: sequence): (rs: seq<bytes>)
    ensures |rs| == |ps|
  {
    seq(|ps|, k requires 0 <= k < |ps| => Record(ps[k], After(sn, k)))
  }

  /** The file `make` writes, or the exception it raises. */
  function Made(nals: seq<bytes>, fragmented: bool): Result<bytes, Refusal> {
    if !NonEmpty(nals) then Refused(IndexError)
    else if !AllFit(AllPayloads(nals, fragmented)) then Refused(StructError)
    else Ok(HEADER + Join(RecordList(AllPayloads(nals, fragmented), 65534)))
  }

  lemma {:induction false} PayloadsSnoc(nals: seq<bytes>, nal: bytes, fragmented: bool, i: nat)
    requires NonEmpty(nals) && nal != []
    ensures NonEmpty(nals + [nal])
    ensures Payloads(nals + [nal], fragmented, i) ==
            Payloads(nals, fragmented, i) + PayloadsOf(nal, fragmented, i + |nals|)
  {
    if nals == [] {
      assert nals + [nal] == [nal];
      assert Payloads([nal], fragmented, i) == PayloadsOf(nal, fragmented, i) + [];
    } else {
      var all := nals + [nal];
      assert all[0] == nals[0] && all[1..] == nals[1..] + [nal];
      PayloadsSnoc(nals[1..], nal, fragmented, i + 1);
      assert Payloads(all, fragmented, i) == PayloadsOf(nals[0], fragmented, i) + Payloads(all[1..], fragmented, i + 1);
      Assoc(PayloadsOf(nals[0], fragmented, i), Payloads(nals[1..], fragmented, i + 1),
            PayloadsOf(nal, fragmented, i + |nals|));
    }
  }

  lemma {:induction false} AfterNext(sn: sequence, k: nat)
    ensures After(sn, k + 1) == Next(After(sn, k))
    decreases k
  {
    if k > 0 {
      AfterNext(Next(sn), k - 1);
    }
  }

  method ListPayloads(nals: seq<bytes>, fragmented: bool) returns (r: Result<seq<Payload>, Refusal>)
    ensures r == if NonEmpty(nals) then Ok(AllPayloads(nals, fragmented)) else Refused(IndexError)
  {
    var payloads := [Probation()];
    for i := 0 to |nals|
      invariant NonEmpty(nals[..i])
      invariant payloads == AllPayloads(nals[..i], fragmented)
    {
      var nal := nals[i];
      if nal == [] {
        return Refused(IndexError);
      }
      PayloadsSnoc(nals[..i], nal, fragmented, 0);
      assert nals[..i + 1] == nals[..i] + [nal];
      if fragmented && IsVcl(nal[0]) {
        var mid := 1 + (|nal| - 1) / 2;
        var bodies := [nal[1..mid], nal[mid..]];
        ghost var before := payloads;
        for j := 0 to 2
          invariant payloads == before + PayloadsOf(nal, fragmented, i)[..j]
        {
          payloads := payloads + [Payload(FuPrefix(nal[0], if j == 0 then 128 else 64) + bodies[j], j == 1, i)];
        }
      } else {
        payloads := payloads + [Payload(nal, IsVcl(nal[0]), i)];
      }
    }
    assert nals[..|nals|] == nals;
    return Ok(payloads);
  }

  lemma RecordListSnoc(ps: seq<Payload>, p: Payload, sn: sequence)
    ensures RecordList(ps + [p], sn) == RecordList(ps, sn) + [Record(p, After(sn, |ps|))]
  {
    var a, b := RecordList(ps + [p], sn), RecordList(ps, sn);
    forall k | 0 <= k < |ps| ensures a[k] == b[k] {
      RecordAt(ps + [p], sn, k);
      RecordAt(ps, sn, k);
    }
    RecordAt(ps + [p], sn, |ps|);
    SnocByElements(a, b, Record(p, After(sn, |ps|)));
  }

  lemma RecordAt(ps: seq<Payload>, sn: sequence, k: nat)
    requires k < |ps|
    ensures RecordList(ps, sn)[k] == Record(ps[k], After(sn, k))
  {
  }

  method WriteRecords(payloads: seq<Payload>, first: sequence) returns (r: Result<seq<bytes>, Refusal>)
    ensures r == if AllFit(payloads) then Ok(RecordList(payloads, first)) else Refused(StructError)
  {
    var records, sn := [], first;
    for k := 0 to |payloads|
      invariant sn == After(first, k)
      invariant AllFit(payloads[..k])
      invariant records == RecordList(payloads[..k], first)
    {
      if !Fits(payloads[k]) {
        return Refused(StructError);
      }
      AfterNext(first, k);
      RecordListSnoc(payloads[..k], payloads[k], first);
      assert payloads[..k + 1] == payloads[..k] + [payloads[k]];
      records := records + [Record(payloads[k], sn)];
      sn := Next(sn);
    }
    assert payloads[..|payloads|] == payloads;
    return Ok(records);
  }

  method Make(nals: seq<bytes>, fragmented: bool) returns (r: Result<bytes, Refusal>)
    ensures r == Made(nals, fragmented)
  {
    var payloads := ListPayloads(nals, fragmented);
    if payloads.Refused? {
      return Refused(payloads.why);
    }
    var records := WriteRecords(payloads.value, 65534);
    if records.Refused? {
      return Refused(records.why);
    }
    return Ok(HEADER + Join(records.value));
  }

  // ---------------------------------------------------------------- parsing

  function Prepend<T>(head: seq<T>, r: Result<seq<T>, Refusal>): Result<seq<T>, Refusal> {
    if r.Ok? then Ok(head + r.value) else r
  }

  function ParseFrom(data: bytes, pos: nat): Result<seq<Rec>, Refusal>
    decreases |data| - pos
  {
    if pos >= |data| then Ok([])
    else if |data| - pos < 8 then Refused(PartialPrefix)
    else
      var length, plen := FromBE(data[pos..pos + 2]), FromBE(data[pos + 2..pos + 4]);
      if length < 8 || plen != length - 8 then Refused(BadLength)
      else if length > |data| - pos then Refused(PartialRecord)
      else Prepend([Rec(pos, data[pos + 8..pos + length])], ParseFrom(data, pos + length))
  }

  function Parsed(data: bytes): Result<seq<Rec>, Refusal> {
    if !(HEADER <= data) then Refused(BadHeader) else ParseFrom(data, |HEADER|)
  }

  lemma Regroup<T>(a: seq<T>, b: seq<T>, r: Result<seq<T>, Refusal>)
    ensures Prepend(a, Prepend(b, r)) == Prepend(a + b, r)
  {
    if r.Ok? {
      Assoc(a, b, r.value);
    }
  }

  method Parse(data: bytes) returns (r: Result<seq<Rec>, Refusal>)
    ensures r == Parsed(data)
  {
    if !(HEADER <= data) {
      return Refused(BadHeader);
    }
    var records: seq<Rec>, pos := [], |HEADER|;
    assert forall tail: seq<Rec> :: [] + tail == tail;
    while pos < |data|
      invariant pos <= |data|
      invariant Parsed(data) == Prepend(records, ParseFrom(data, pos))
    {
      if |data| - pos < 8 {
        return Refused(PartialPrefix);
      }
      var length, plen := FromBE(data[pos..pos + 2]), FromBE(data[pos + 2..pos + 4]);
      if length < 8 || plen != length - 8 {
        return Refused(BadLength);
      }
      if length > |data| - pos {
        return Refused(PartialRecord);
      }
      var one := Rec(pos, data[pos + 8..pos + length]);
      assert ParseFrom(data, pos) == Prepend([one], ParseFrom(data, pos + length));
      Regroup(records, [one], ParseFrom(data, pos + length));
      records := records + [one];
      pos := pos + length;
    }
    assert records + [] == records;
    return Ok(records);
  }

  // ---------------------------------------------------------------- reconstruction

  datatype State = State(pending: Option<bytes>, last: Option<sequence>, output: seq<bytes>, copies: seq<Copy>)

  const START := State(None, None, [], [])

  function Deliver(st: State, position: nat, payload: bytes, sn: sequence): Result<State, Refusal>
    requires payload != []
  {
    var begin := position + 20;
    if Kind(payload[0]) == 28 then
      if |payload| < 2 then Refused(IndexError) else
      var start, end := payload[1] >= 128, payload[1] / 64 % 2 == 1;
      if start && st.pending.Some? then Refused(InterruptedFU)
      else if !start && st.pending.None? then Refused(NoStart)
      else
        var begun := if start then [payload[0] / 32 * 32 + Kind(payload[1])] else st.pending.value;
        var copies := st.copies + [Copy(begin + 2, begin + |payload|, payload[2..])];
        if end then Ok(State(None, Some(sn), st.output + [begun + payload[2..]], copies))
        else Ok(State(Some(begun + payload[2..]), Some(sn), st.output, copies))
    else if st.pending.Some? then Refused(UnfinishedFU)
    else
      Ok(State(None, Some(sn), st.output + [payload], st.copies + [Copy(begin, begin + |payload|, payload)]))
  }

  function SequenceOf(raw: bytes): sequence
    requires |raw| >= 4
  {
    WritesBack(raw[2..4]);
    PowValues();
    FromBE(raw[2..4])
  }

  function Step(st: State, r: Rec): Result<State, Refusal> {
    if |r.raw| < 13 || r.raw[0] != 0x80 || r.raw[1] % 128 != 96 then Refused(Shape)
    else
      var sn := SequenceOf(r.raw);
      if st.last.None? then Ok(st.(last := Some(sn)))
      else if sn != Next(st.last.value) then Refused(Discontinuity)
      else Deliver(st, r.pos, r.raw[12..], sn)
  }

  function Run(st: State, records: seq<Rec>): Result<State, Refusal>
    decreases |records|
  {
    if records == [] then Ok(st) else
      var next := Step(st, records[0]);
      if next.Refused? then next else Run(next.value, records[1..])
  }

  datatype Rebuilt = Rebuilt(output: seq<bytes>, copies: seq<Copy>)

  function Finish(r: Result<State, Refusal>): Result<Rebuilt, Refusal> {
    if r.Refused? then Refused(r.why)
    else if r.value.pending.Some? then Refused(UnfinishedTerminal)
    else Ok(Rebuilt(r.value.output, r.value.copies))
  }

  function Reconstructed(records: seq<Rec>): Result<Rebuilt, Refusal> {
    Finish(Run(START, records))
  }

  method Reconstruct(records: seq<Rec>) returns (r: Result<Rebuilt, Refusal>)
    ensures r == Reconstructed(records)
  {
    var output: seq<bytes>, copies: seq<Copy> := [], [];
    var pending: Option<bytes>, last: Option<sequence> := None, None;
    for ordinal := 0 to |records|
      invariant last.None? <==> ordinal == 0
      invariant Run(START, records) == Run(State(pending, last, output, copies), records[ordinal..])
    {
      assert records[ordinal..][1..] == records[ordinal + 1..];
      var Rec(position, raw) := records[ordinal];
      if |raw| < 13 || raw[0] != 0x80 || raw[1] % 128 != 96 {
        return Refused(Shape);
      }
      var sn := SequenceOf(raw);
      if ordinal == 0 {
        last := Some(sn);
        continue;
      }
      if sn != Next(last.value) {
        return Refused(Discontinuity);
      }
      last := Some(sn);
      var payload, begin := raw[12..], position + 8 + 12;
      if Kind(payload[0]) == 28 {
        if |payload| < 2 {
          return Refused(IndexError);
        }
        var start, end := payload[1] >= 128, payload[1] / 64 % 2 == 1;
        if start {
          if pending.Some? {
            return Refused(InterruptedFU);
          }
          pending := Some([payload[0] / 32 * 32 + Kind(payload[1])]);
        }
        if pending.None? {
          return Refused(NoStart);
        }
        copies := copies + [Copy(begin + 2, begin + |payload|, payload[2..])];
        pending := Some(pending.value + payload[2..]);
        if end {
          output := output + [pending.value];
          pending := None;
        }
      } else {
        if pending.Some? {
          return Refused(UnfinishedFU);
        }
        copies := copies + [Copy(begin, begin + |payload|, payload)];
        output := output + [payload];
      }
    }
    if pending.Some? {
      return Refused(UnfinishedTerminal);
    }
    return Ok(Rebuilt(output, copies));
  }
}
