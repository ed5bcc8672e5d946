/** Every field of the records in the file that `make` writes, in terms of the NALs. */
module RtpDumpFields {
  import opened Bytes
  import opened RtpDump
  import opened RtpDumpLaws
  import opened RtpHeader
  import opened RtpDumpTheorems

  datatype Part = Whole | FirstHalf | SecondHalf

  /** What one record carries. */
  datatype Sent = Sent(nal: nat, part: Part)

  function SentOf(nal: bytes, fragmented: bool, i: nat): seq<Sent>
    requires nal != []
  {
    if fragmented && Kind(nal[0]) in {1, 5} then [Sent(i, FirstHalf), Sent(i, SecondHalf)] else [Sent(i, Whole)]
  }

  /** The records of the NALs in order; a picture takes two when fragmenting. */
  function AllSent(nals: seq<bytes>, fragmented: bool, i: nat): seq<Sent>
    requires NonEmpty(nals)
  {
    if nals == [] then []
    else
      SentOf(nals[0], fragmented, i) + AllSent(nals[1..], fragmented, i + 1)
  }

  /** A NAL travels whole, or as the two halves of what follows its header byte, each behind a fragment header: the
      priority with kind 28, then the NAL's kind with the start or the end bit. */
  predicate Holds(body: bytes, nal: bytes, part: Part)
    requires nal != []
  {
    var half := (|nal| - 1) / 2;
    match part
    case Whole => body == nal
    case FirstHalf => FragmentOf(body, nal[0], 128) && body[2..] == nal[1..1 + half]
    case SecondHalf => FragmentOf(body, nal[0], 64) && body[2..] == nal[1 + half..]
  }

  predicate FragmentOf(body: bytes, header: byte, bit: nat) {
    && |body| >= 2 && Kind(body[0]) == 28 && body[0] / 32 == header / 32 % 4
    && body[1] == Kind(header) + bit
  }

  /** The record stands in the file behind its two lengths and its offset field. */
  predicate Framed(data: bytes, r: Rec, offset: nat) {
    && r.pos + 8 + |r.raw| <= |data| && data[r.pos + 8..r.pos + 8 + |r.raw|] == r.raw
    && FromBE(data[r.pos..r.pos + 2]) == |r.raw| + 8 && FromBE(data[r.pos + 2..r.pos + 4]) == |r.raw|
    && FromBE(data[r.pos + 4..r.pos + 8]) == offset
  }

  // ---------------------------------------------------------------- payloads

  predicate Matches(p: Payload, nals: seq<bytes>, i: nat, s: Sent)
    requires NonEmpty(nals)
  {
    && i <= s.nal < i + |nals| && p.offset == s.nal
    && var nal := nals[s.nal - i];
       Holds(p.body, nal, s.part) && (p.marker <==> Kind(nal[0]) in {1, 5} && s.part != FirstHalf)
  }

  lemma {:induction false} PayloadsMatch(nals: seq<bytes>, fragmented: bool, i: nat)
    requires NonEmpty(nals)
    ensures |Payloads(nals, fragmented, i)| == |AllSent(nals, fragmented, i)|
    ensures forall k :: 0 <= k < |AllSent(nals, fragmented, i)| ==>
      Matches(Payloads(nals, fragmented, i)[k], nals, i, AllSent(nals, fragmented, i)[k])
    decreases |nals|
  {
    if nals != [] {
      var rest := nals[1..];
      PayloadsMatch(rest, fragmented, i + 1);
      var ps, sent := PayloadsOf(nals[0], fragmented, i), AllSent(rest, fragmented, i + 1);
      var later := Payloads(rest, fragmented, i + 1);
      forall k | 0 <= k < |sent| ensures Matches(later[k], nals, i, sent[k]) {
        assert Matches(later[k], rest, i + 1, sent[k]);
        assert nals[sent[k].nal - i] == rest[sent[k].nal - (i + 1)];
      }
      FirstMatch(nals, fragmented, i);
    }
  }

  lemma FirstMatch(nals: seq<bytes>, fragmented: bool, i: nat)
    requires NonEmpty(nals) && nals != []
    ensures var ps := PayloadsOf(nals[0], fragmented, i);
      if fragmented && Kind(nals[0][0]) in {1, 5} then
        |ps| == 2 && Matches(ps[0], nals, i, Sent(i, FirstHalf)) && Matches(ps[1], nals, i, Sent(i, SecondHalf))
      else |ps| == 1 && Matches(ps[0], nals, i, Sent(i, Whole))
  {
    var header := nals[0][0];
    var high, low := header / 32 % 4, Kind(header);
    assert (high * 32 + 28) / 32 == high && (high * 32 + 28) % 32 == 28;
  }

  // ---------------------------------------------------------------- records

  lemma WireHeaded(p: Payload, sn: sequence)
    ensures Headed(Wire(p, sn), sn, 90000, p.marker) && Wire(p, sn)[12..] == p.body
  {
    HeaderReads(if p.marker then 224 else 96, sn, 90000, p.marker, p.body);
  }

  lemma RecordStands(data: bytes, pos: nat, p: Payload, sn: sequence)
    requires Fits(p) && pos + |Record(p, sn)| <= |data| && data[pos..pos + |Record(p, sn)|] == Record(p, sn)
    ensures Framed(data, Rec(pos, Wire(p, sn)), p.offset)
  {
    var wire := Wire(p, sn);
    Reads16(|wire| + 8);
    Reads16(|wire|);
    Reads32(p.offset);
    FourSlices(data, pos, BE(2, |wire| + 8), BE(2, |wire|), BE(4, p.offset), wire);
  }

  lemma FourSlices(data: bytes, pos: nat, a: bytes, b: bytes, c: bytes, d: bytes)
    requires |a| == 2 && |b| == 2 && |c| == 4 && pos + 8 + |d| <= |data|
    requires data[pos..pos + 8 + |d|] == a + b + c + d
    ensures data[pos..pos + 2] == a && data[pos + 2..pos + 4] == b && data[pos + 4..pos + 8] == c
    ensures data[pos + 8..pos + 8 + |d|] == d
  {
    var all := a + b + c + d;
    assert all[..2] == a && all[2..4] == b && all[4..8] == c && all[8..] == d;
    Inside(data, pos, pos + 8 + |d|, 0, 2);
    Inside(data, pos, pos + 8 + |d|, 2, 4);
    Inside(data, pos, pos + 8 + |d|, 4, 8);
    Inside(data, pos, pos + 8 + |d|, 8, 8 + |d|);
  }

  predicate Stands(data: bytes, r: Rec, record: bytes) {
    && |record| >= 8 && r.raw == record[8..]
    && r.pos + |record| <= |data| && data[r.pos..r.pos + |record|] == record
  }

  /** Where record `k` stands behind the head of the file. */
  lemma {:induction false} RecStands(head: bytes, rs: seq<bytes>, k: nat)
    requires AllFramed(rs) && k < |rs|
    ensures Stands(head + Join(rs), RecsAt(rs, |head|)[k], rs[k])
    decreases |rs|
  {
    JoinFirst(rs);
    var data, rest := head + Join(rs), rs[1..];
    Assoc(head, rs[0], Join(rest));
    if k == 0 {
      assert data[|head|..|head| + |rs[0]|] == rs[0];
    } else {
      RecStands(head + rs[0], rest, k - 1);
    }
  }

  lemma AllStand(head: bytes, rs: seq<bytes>)
    requires AllFramed(rs)
    ensures forall k :: 0 <= k < |rs| ==> Stands(head + Join(rs), RecsAt(rs, |head|)[k], rs[k])
  {
    forall k | 0 <= k < |rs| ensures Stands(head + Join(rs), RecsAt(rs, |head|)[k], rs[k]) {
      RecStands(head, rs, k);
    }
  }

  /** The probation packet comes first. */
  predicate ProbationOk(data: bytes, r: Rec) {
    Framed(data, r, 0) && Headed(r.raw, 65534, 90000, false) && r.raw[12..] == [0x09, 0xf0]
  }

  /** Record `k` shows what it carries. */
  predicate SentOk(data: bytes, r: Rec, k: nat, nals: seq<bytes>, s: Sent)
    requires NonEmpty(nals)
  {
    && s.nal < |nals| && Framed(data, r, s.nal)
    && Headed(r.raw, (65534 + k) % 0x1_0000, 90000, Kind(nals[s.nal][0]) in {1, 5} && s.part != FirstHalf)
    && Holds(r.raw[12..], nals[s.nal], s.part)
  }

  /** Of the records that parse out of the file that is made, record 0 is the probation packet, and every other one
      shows the part of the NAL that it carries: its bytes, the marker on the last packet of each picture and on no
      other, its number, the fixed timestamp and source, and the NAL's index as its offset. */
  lemma EveryFieldIsWritten(nals: seq<bytes>, fragmented: bool)
    requires Made(nals, fragmented).Ok?
    ensures Parsed(Made(nals, fragmented).value) == Ok(RecordsOf(nals, fragmented))
    ensures var data, recs := Made(nals, fragmented).value, RecordsOf(nals, fragmented);
      var sent := AllSent(nals, fragmented, 0);
      && |recs| == 1 + |sent| && ProbationOk(data, recs[0])
      && forall k :: 0 <= k < |sent| ==> SentOk(data, recs[k + 1], k + 1, nals, sent[k])
  {
    var ps, sent := AllPayloads(nals, fragmented), AllSent(nals, fragmented, 0);
    FileHolds(nals, fragmented);
    PayloadsMatch(nals, fragmented, 0);
    RecordsCarry(ps, 65534, |HEADER|);
    var data, recs, rs := Made(nals, fragmented).value, RecordsOf(nals, fragmented), RecordList(ps, 65534);
    AllStand(HEADER, rs);
    AllRecords(data, recs, ps, rs);
    FieldsFollow(data, recs, Payloads(nals, fragmented, 0), nals, sent);
  }

  predicate RecordOk(data: bytes, r: Rec, p: Payload, k: nat) {
    Framed(data, r, p.offset) && Headed(r.raw, (65534 + k) % 0x1_0000, 90000, p.marker) && r.raw[12..] == p.body
  }

  lemma FieldsFollow(data: bytes, recs: seq<Rec>, ps: seq<Payload>, nals: seq<bytes>, sent: seq<Sent>)
    requires NonEmpty(nals) && |ps| == |sent| && |recs| == 1 + |ps|
    requires forall k :: 0 <= k < |recs| ==> RecordOk(data, recs[k], ([Probation()] + ps)[k], k)
    requires forall k :: 0 <= k < |sent| ==> Matches(ps[k], nals, 0, sent[k])
    ensures ProbationOk(data, recs[0])
    ensures forall k :: 0 <= k < |sent| ==> SentOk(data, recs[k + 1], k + 1, nals, sent[k])
  {
    assert RecordOk(data, recs[0], Probation(), 0);
    forall k | 0 <= k < |sent| ensures SentOk(data, recs[k + 1], k + 1, nals, sent[k]) {
      assert RecordOk(data, recs[k + 1], ([Probation()] + ps)[k + 1], k + 1);
      assert Matches(ps[k], nals, 0, sent[k]);
    }
  }

  lemma AllRecords(data: bytes, recs: seq<Rec>, ps: seq<Payload>, rs: seq<bytes>)
    requires AllFit(ps) && rs == RecordList(ps, 65534) && |rs| == |ps| == |recs|
    requires forall k :: 0 <= k < |ps| ==> Stands(data, recs[k], rs[k])
    ensures forall k :: 0 <= k < |ps| ==> RecordOk(data, recs[k], ps[k], k)
  {
    forall k | 0 <= k < |ps| ensures RecordOk(data, recs[k], ps[k], k) {
      RecordAt(ps, 65534, k);
      AfterIsModular(65534, k);
      RecordShows(data, recs[k], rs[k], ps[k], After(65534, k));
    }
  }

  lemma RecordShows(data: bytes, r: Rec, record: bytes, p: Payload, sn: sequence)
    requires Fits(p) && record == Record(p, sn) && Stands(data, r, record)
    ensures Framed(data, r, p.offset) && Headed(r.raw, sn, 90000, p.marker) && r.raw[12..] == p.body
  {
    assert record[8..] == Wire(p, sn);
    RecordStands(data, r.pos, p, sn);
    WireHeaded(p, sn);
  }
}
