/** The theorems about whole files: exact transport, source offsets, truncation and loss. */
module RtpDumpTheorems {
  import opened Bytes
  import opened RtpDump
  import opened RtpDumpLaws

  /** The records `parse` finds in the file `make` wrote. */
  function RecordsOf(nals: seq<bytes>, fragmented: bool): seq<Rec>
    requires Made(nals, fragmented).Ok?
  {
    RecordsCarry(AllPayloads(nals, fragmented), 65534, |HEADER|);
    RecsAt(RecordList(AllPayloads(nals, fragmented), 65534), |HEADER|)
  }

  lemma FileHolds(nals: seq<bytes>, fragmented: bool)
    requires Made(nals, fragmented).Ok?
    ensures Parsed(Made(nals, fragmented).value) == Ok(RecordsOf(nals, fragmented))
    ensures Carried(RecordsOf(nals, fragmented), AllPayloads(nals, fragmented), 65534)
  {
    var ps := AllPayloads(nals, fragmented);
    RecordsCarry(ps, 65534, |HEADER|);
    WholeParse(HEADER, RecordList(ps, 65534));
  }

  lemma AfterProbation(recs: seq<Rec>, ps: seq<Payload>, sn: sequence) returns (st: State)
    requires Carried(recs, [Probation()] + ps, sn)
    ensures Run(START, recs) == Run(st, recs[1..])
    ensures Idle(st, Next(sn)) && st.output == [] && st.copies == []
    ensures Carried(recs[1..], ps, Next(sn))
  {
    CarriedSplit(recs, [Probation()], ps, sn);
    assert After(sn, 0) == sn && After(sn, 1) == Next(sn);
    assert Carries(recs[0].raw, Probation().body, After(sn, 0));
    st := START.(last := Some(sn));
    assert Step(START, recs[0]) == Ok(st);
  }

  /** Every NAL arrives in order, whatever the number of sequence wraps; only fragmentation touches a
      byte, and only the forbidden bit of a NAL header. */
  lemma Transport(nals: seq<bytes>, fragmented: bool)
    requires Made(nals, fragmented).Ok? && NoFuKind(nals)
    ensures Parsed(Made(nals, fragmented).value) == Ok(RecordsOf(nals, fragmented))
    ensures Reconstructed(RecordsOf(nals, fragmented)).Ok?
    ensures Reconstructed(RecordsOf(nals, fragmented)).value.output == ArrivedAll(nals, fragmented)
  {
    FileHolds(nals, fragmented);
    var recs := RecordsOf(nals, fragmented);
    var st := AfterProbation(recs, Payloads(nals, fragmented, 0), 65534);
    var st' := DeliverAll(st, recs[1..], nals, fragmented, 0, Next(65534));
    assert [] + ArrivedAll(nals, fragmented) == ArrivedAll(nals, fragmented);
  }

  // ---------------------------------------------------------------- exactly which NALs survive

  predicate Survives(nal: bytes, fragmented: bool) {
    nal != [] && Kind(nal[0]) != 28 && (fragmented && IsVcl(nal[0]) ==> nal[0] < 128)
  }

  lemma {:induction false} ArrivedExactly(nals: seq<bytes>, fragmented: bool)
    requires NonEmpty(nals)
    ensures ArrivedAll(nals, fragmented) == nals <==>
            forall k :: 0 <= k < |nals| ==> Arrived(nals[k], fragmented) == nals[k]
  {
    if nals != [] {
      ArrivedExactly(nals[1..], fragmented);
      var rest := ArrivedAll(nals[1..], fragmented);
      assert ArrivedAll(nals, fragmented)[0] == Arrived(nals[0], fragmented);
      assert ArrivedAll(nals, fragmented)[1..] == rest;
      assert forall k :: 0 <= k < |nals| - 1 ==> nals[1..][k] == nals[k + 1];
      assert nals == [nals[0]] + nals[1..];
    }
  }

  lemma HeaderUnchanged(nal: bytes, fragmented: bool)
    requires nal != [] && Kind(nal[0]) != 28
    ensures Arrived(nal, fragmented) == nal <==> Survives(nal, fragmented)
  {
    assert nal == [nal[0]] + nal[1..];
    assert ([nal[0] % 128] + nal[1..])[0] == nal[0] % 128;
  }

  function Total(parts: seq<bytes>): nat {
    if parts == [] then 0 else |parts[0]| + Total(parts[1..])
  }

  lemma {:induction false} TotalSnoc(parts: seq<bytes>, part: bytes)
    ensures Total(parts + [part]) == Total(parts) + |part|
  {
    if parts == [] {
      assert parts + [part] == [part];
    } else {
      assert (parts + [part])[1..] == parts[1..] + [part];
      TotalSnoc(parts[1..], part);
    }
  }

  function Volume(st: State): nat {
    Total(st.output) + if st.pending.Some? then |st.pending.value| else 0
  }

  /** How many NAL bytes a payload adds: a fragment carries two header bytes, one of them a NAL header. */
  function Adds(body: bytes): int {
    if body != [] && Kind(body[0]) == 28 then
      if |body| >= 2 && body[1] >= 128 then |body| - 1 else |body| - 2
    else |body|
  }

  function AddsAll(ps: seq<Payload>): int {
    if ps == [] then 0 else Adds(ps[0].body) + AddsAll(ps[1..])
  }

  lemma {:induction false} AddsAppend(a: seq<Payload>, b: seq<Payload>)
    ensures AddsAll(a + b) == AddsAll(a) + AddsAll(b)
  {
    if a == [] {
      assert a + b == b;
    } else {
      assert (a + b)[1..] == a[1..] + b;
      AddsAppend(a[1..], b);
    }
  }

  lemma DeliverVolume(st: State, pos: nat, body: bytes, sn: sequence)
    requires body != [] && Deliver(st, pos, body, sn).Ok?
    ensures Volume(Deliver(st, pos, body, sn).value) == Volume(st) + Adds(body)
  {
    var out := Deliver(st, pos, body, sn).value.output;
    if |out| > |st.output| {
      TotalSnoc(st.output, out[|out| - 1]);
    }
  }

  lemma {:induction false} RunVolume(st: State, recs: seq<Rec>, ps: seq<Payload>, sn: sequence)
    requires Carried(recs, ps, sn) && st.last.Some? && Run(st, recs).Ok?
    ensures Volume(Run(st, recs).value) == Volume(st) + AddsAll(ps)
    decreases |ps|
  {
    if ps != [] {
      assert Carries(recs[0].raw, ps[0].body, After(sn, 0));
      var next := Step(st, recs[0]).value;
      DeliverVolume(st, recs[0].pos, ps[0].body, sn);
      CarriedSplit(recs, [ps[0]], ps[1..], sn);
      assert ps == [ps[0]] + ps[1..];
      RunVolume(next, recs[1..], ps[1..], After(sn, 1));
    }
  }

  lemma {:induction false} FuKindLosesBytes(nals: seq<bytes>, fragmented: bool, i: nat)
    requires NonEmpty(nals)
    ensures AddsAll(Payloads(nals, fragmented, i)) <= Total(nals)
    ensures !NoFuKind(nals) ==> AddsAll(Payloads(nals, fragmented, i)) < Total(nals)
    decreases |nals|
  {
    if nals != [] {
      var one := PayloadsOf(nals[0], fragmented, i);
      FuKindLosesBytes(nals[1..], fragmented, i + 1);
      AddsAppend(one, Payloads(nals[1..], fragmented, i + 1));
      OneAdds(nals[0], fragmented, i);
    }
  }

  lemma OneAdds(nal: bytes, fragmented: bool, i: nat)
    requires nal != []
    ensures var adds := AddsAll(PayloadsOf(nal, fragmented, i));
            if Kind(nal[0]) == 28 then adds < |nal| else adds == |nal|
  {
    var ps := PayloadsOf(nal, fragmented, i);
    if fragmented && IsVcl(nal[0]) {
      FuHeaderBits(nal[0]);
      assert ps[1..] == [ps[1]] && [ps[1]][1..] == [];
      assert AddsAll([ps[1]]) == Adds(ps[1].body);
      assert Adds(ps[0].body) == |ps[0].body| - 1 && Adds(ps[1].body) == |ps[1].body| - 2;
    } else {
      assert ps[1..] == [];
    }
  }

  /** The oracle's equality holds for a file exactly when each of its NALs survives: it is not of the
      fragment kind, and it has its forbidden bit clear if it is sent in fragments. */
  lemma RoundTripExactly(nals: seq<bytes>, fragmented: bool)
    requires Made(nals, fragmented).Ok?
    ensures Parsed(Made(nals, fragmented).value) == Ok(RecordsOf(nals, fragmented))
    ensures var back := Reconstructed(RecordsOf(nals, fragmented));
            back.Ok? && back.value.output == nals <==>
            forall k :: 0 <= k < |nals| ==> Survives(nals[k], fragmented)
  {
    FileHolds(nals, fragmented);
    if NoFuKind(nals) {
      Transport(nals, fragmented);
      ArrivedExactly(nals, fragmented);
      forall k | 0 <= k < |nals| ensures Arrived(nals[k], fragmented) == nals[k] <==> Survives(nals[k], fragmented) {
        HeaderUnchanged(nals[k], fragmented);
      }
    } else {
      var k :| 0 <= k < |nals| && Kind(nals[k][0]) == 28;
      assert !Survives(nals[k], fragmented);
      FuKindIsNotDelivered(nals, fragmented);
    }
  }

  lemma FuKindIsNotDelivered(nals: seq<bytes>, fragmented: bool)
    requires Made(nals, fragmented).Ok? && !NoFuKind(nals)
    ensures var back := Reconstructed(RecordsOf(nals, fragmented)); back.Ok? ==> back.value.output != nals
  {
    FileHolds(nals, fragmented);
    var recs, ps := RecordsOf(nals, fragmented), Payloads(nals, fragmented, 0);
    var st := AfterProbation(recs, ps, 65534);
    if Reconstructed(recs).Ok? {
      RunVolume(st, recs[1..], ps, Next(65534));
      FuKindLosesBytes(nals, fragmented, 0);
    }
  }

  /** One short NAL can always be sent. */
  lemma OneNalIsSent(nal: bytes, fragmented: bool)
    requires 0 < |nal| < 100
    ensures Made([nal], fragmented).Ok?
  {
    var nals := [nal];
    assert nals[1..] == [];
    assert Payloads(nals, fragmented, 0) == PayloadsOf(nal, fragmented, 0) + [];
  }

  /** A NAL of kind 28 is sent and not returned. */
  lemma FragmentKindIsLost()
    ensures var nals := [[28]];
      && Made(nals, false).Ok?
      && var back := Reconstructed(RecordsOf(nals, false)); !(back.Ok? && back.value.output == nals)
  {
    OneNalIsSent([28], false);
    RoundTripExactly([[28]], false);
    assert !Survives([[28]][0], false);
  }

  /** The forbidden bit of a picture sent in fragments is dropped. */
  lemma ForbiddenBitIsDropped()
    ensures Made([[0x85]], true).Ok?
    ensures Reconstructed(RecordsOf([[0x85]], true)).Ok?
    ensures Reconstructed(RecordsOf([[0x85]], true)).value.output == [[5]]
  {
    var nal: bytes := [0x85];
    OneNalIsSent(nal, true);
    Transport([nal], true);
    assert [nal][1..] == [];
    assert Arrived(nal, true) == [5];
    assert ArrivedAll([nal], true) == [Arrived(nal, true)] + [];
  }

  // ---------------------------------------------------------------- source offsets

  /** The record's bytes lie in `data` where the record says. */
  predicate Located(data: bytes, r: Rec) {
    r.pos + 8 + |r.raw| <= |data| && data[r.pos + 8..r.pos + 8 + |r.raw|] == r.raw
  }

  /** Records that follow one another from `pos` to `end`, with nothing between them. */
  predicate Tile(recs: seq<Rec>, pos: nat, end: nat) {
    if recs == [] then pos == end
    else recs[0].pos == pos && Tile(recs[1..], pos + 8 + |recs[0].raw|, end)
  }

  lemma {:induction false} ParsedRecordsAreLocated(data: bytes, pos: nat)
    requires pos <= |data| && ParseFrom(data, pos).Ok?
    ensures Tile(ParseFrom(data, pos).value, pos, |data|)
    ensures forall r :: r in ParseFrom(data, pos).value ==> Located(data, r)
    decreases |data| - pos
  {
    if pos < |data| {
      ParsedRecordsAreLocated(data, pos + FromBE(data[pos..pos + 2]));
      assert ParseFrom(data, pos).value[1..] == ParseFrom(data, pos + FromBE(data[pos..pos + 2])).value;
    }
  }

  predicate Copied(data: bytes, c: Copy) {
    c.from <= c.to <= |data| && data[c.from..c.to] == c.copied
  }

  predicate AllCopied(data: bytes, copies: seq<Copy>) {
    forall k :: 0 <= k < |copies| ==> Copied(data, copies[k])
  }

  lemma SliceOfSlice(data: bytes, a: nat, b: nat, c: nat)
    requires a <= c <= b <= |data|
    ensures data[c..b] == data[a..b][c - a..]
  {
  }

  lemma DeliveredCopy(st: State, pos: nat, payload: bytes, sn: sequence) returns (k: nat)
    requires payload != [] && Deliver(st, pos, payload, sn).Ok?
    ensures k <= |payload|
    ensures Deliver(st, pos, payload, sn).value.copies ==
            st.copies + [Copy(pos + 20 + k, pos + 20 + |payload|, payload[k..])]
  {
    k := if Kind(payload[0]) == 28 then 2 else 0;
    assert payload[0..] == payload;
  }

  lemma StepCopies(data: bytes, st: State, r: Rec)
    requires Located(data, r) && AllCopied(data, st.copies) && Step(st, r).Ok?
    ensures AllCopied(data, Step(st, r).value.copies)
  {
    if st.last.Some? {
      var k := DeliveredCopy(st, r.pos, r.raw[12..], SequenceOf(r.raw));
      SliceOfSlice(data, r.pos + 8, r.pos + 8 + |r.raw|, r.pos + 20 + k);
      assert r.raw[12..][k..] == r.raw[12 + k..];
    }
  }

  lemma {:induction false} RunCopies(data: bytes, st: State, recs: seq<Rec>)
    requires forall r :: r in recs ==> Located(data, r)
    requires AllCopied(data, st.copies) && Run(st, recs).Ok?
    ensures AllCopied(data, Run(st, recs).value.copies)
    decreases |recs|
  {
    if recs != [] {
      StepCopies(data, st, recs[0]);
      RunCopies(data, Step(st, recs[0]).value, recs[1..]);
    }
  }

  /** Whatever file is accepted: its records tile it after the header, and every reported source
      span of a reconstruction holds the copied bytes. */
  lemma SourceOffsets(data: bytes)
    requires Parsed(data).Ok?
    ensures Tile(Parsed(data).value, |HEADER|, |data|)
    ensures Reconstructed(Parsed(data).value).Ok? ==>
            AllCopied(data, Reconstructed(Parsed(data).value).value.copies)
  {
    ParsedRecordsAreLocated(data, |HEADER|);
    if Reconstructed(Parsed(data).value).Ok? {
      RunCopies(data, START, Parsed(data).value);
    }
  }

  // ---------------------------------------------------------------- truncation

  lemma {:induction false} OutputGrows(st: State, recs: seq<Rec>)
    requires Run(st, recs).Ok?
    ensures st.output <= Run(st, recs).value.output
    decreases |recs|
  {
    if recs != [] {
      OutputGrows(Step(st, recs[0]).value, recs[1..]);
    }
  }

  lemma PrefixRebuildsPrefix(recs: seq<Rec>, m: nat)
    requires m <= |recs| && Reconstructed(recs).Ok? && Reconstructed(recs[..m]).Ok?
    ensures Reconstructed(recs[..m]).value.output <= Reconstructed(recs).value.output
  {
    var mid := Run(START, recs[..m]).value;
    RunSplit(START, recs, m, mid);
    OutputGrows(mid, recs[m..]);
  }

  /** A file cut at or after its header is accepted exactly at a record boundary; its records are then
      the first ones of the file. */
  lemma TruncationShows(nals: seq<bytes>, fragmented: bool, cut: nat)
    requires Made(nals, fragmented).Ok?
    requires |HEADER| <= cut <= |Made(nals, fragmented).value|
    ensures var rs := RecordList(AllPayloads(nals, fragmented), 65534);
            var part := Parsed(Made(nals, fragmented).value[..cut]);
            && (part.Ok? <==> exists m :: 0 <= m <= |rs| && cut == |HEADER| + |Join(rs[..m])|)
            && (part.Ok? ==> part.value <= RecordsOf(nals, fragmented))
  {
    var ps := AllPayloads(nals, fragmented);
    var rs := RecordList(ps, 65534);
    RecordsCarry(ps, 65534, |HEADER|);
    CutFile(HEADER, rs, cut);
  }

  /** The first records of a file are refused, or rebuild the first NALs that were sent. */
  lemma TruncationKeepsAPrefix(nals: seq<bytes>, fragmented: bool, m: nat)
    requires Made(nals, fragmented).Ok? && NoFuKind(nals) && m <= |RecordsOf(nals, fragmented)|
    ensures var part := Reconstructed(RecordsOf(nals, fragmented)[..m]);
            part.Ok? ==> part.value.output <= ArrivedAll(nals, fragmented)
  {
    Transport(nals, fragmented);
    if Reconstructed(RecordsOf(nals, fragmented)[..m]).Ok? {
      PrefixRebuildsPrefix(RecordsOf(nals, fragmented), m);
    }
  }

  lemma CutData(head: bytes, body: bytes, cut: nat)
    requires |head| <= cut <= |head| + |body|
    ensures var data := head + body; head <= data[..cut] && data[..cut][|head|..] + data[cut..] == body
  {
    var data, n := head + body, cut - |head|;
    assert data[..cut][|head|..] == body[..n] && data[cut..] == body[n..];
  }

  lemma CutFile(head: bytes, rs: seq<bytes>, cut: nat)
    requires AllFramed(rs) && |head| <= cut <= |head| + |Join(rs)|
    ensures head <= (head + Join(rs))[..cut]
    ensures var part := ParseFrom((head + Join(rs))[..cut], |head|);
            && (part.Ok? <==> exists m :: 0 <= m <= |rs| && cut == |head| + |Join(rs[..m])|)
            && (part.Ok? ==> part.value <= RecsAt(rs, |head|))
  {
    var data := head + Join(rs);
    CutData(head, Join(rs), cut);
    CutParse(data[..cut], |head|, data[cut..], rs);
    BoundaryMeaning(rs, cut - |head|);
    var m := Boundary(rs, cut - |head|);
    if m.Some? {
      assert cut == |head| + |Join(rs[..m.value])|;
    }
  }

  // ---------------------------------------------------------------- loss

  /** Accepted records number their packets without a gap, modulo 65536. */
  lemma {:induction false} AcceptedAreContiguous(st: State, recs: seq<Rec>, k: nat)
    requires Run(st, recs).Ok? && k + 1 < |recs|
    ensures |recs[k].raw| >= 13 && |recs[k + 1].raw| >= 13
    ensures SequenceOf(recs[k + 1].raw) == Next(SequenceOf(recs[k].raw))
    decreases |recs|
  {
    var next := Step(st, recs[0]).value;
    if k == 0 {
      assert Step(next, recs[1..][0]).Ok?;
    } else {
      AcceptedAreContiguous(next, recs[1..], k - 1);
    }
  }

  /** Deleting records `i` to `j` leaves contiguous sequence numbers exactly when it deletes a
      multiple of 65536 of them. */
  lemma GapShows(recs: seq<Rec>, ps: seq<Payload>, sn: sequence, i: nat, j: nat)
    requires Carried(recs, ps, sn) && 0 < i < j < |recs|
    ensures SequenceOf(recs[j].raw) == Next(SequenceOf(recs[i - 1].raw)) <==> (j - i) % 0x1_0000 == 0
  {
    assert Carries(recs[i - 1].raw, ps[i - 1].body, After(sn, i - 1));
    assert Carries(recs[j].raw, ps[j].body, After(sn, j));
    AfterNext(sn, i - 1);
    SameResidue(sn, i, j);
  }

  lemma SameResidue(sn: sequence, i: nat, j: nat)
    requires i <= j
    ensures After(sn, i) == After(sn, j) <==> (j - i) % 0x1_0000 == 0
  {
    AfterAfter(sn, i, j - i);
    AfterIsModular(After(sn, i), j - i);
    Wraps(After(sn, i), j - i);
  }

  lemma Wraps(r: sequence, d: nat)
    ensures (r + d) % 0x1_0000 == r <==> d % 0x1_0000 == 0
  {
    var q, m := d / 0x1_0000, d % 0x1_0000;
    assert r + d == q * 0x1_0000 + (r + m);
    assert (r + d) % 0x1_0000 == (r + m) % 0x1_0000;
  }

  lemma GapIsRefused(recs: seq<Rec>, ps: seq<Payload>, sn: sequence, i: nat, j: nat)
    requires Carried(recs, ps, sn) && 0 < i < j < |recs| && j - i <= 65535
    ensures Reconstructed(recs[..i] + recs[j..]).Refused?
  {
    var left := recs[..i] + recs[j..];
    assert left[i - 1] == recs[i - 1] && left[i] == recs[j];
    if Run(START, left).Ok? {
      AcceptedAreContiguous(START, left, i - 1);
      GapShows(recs, ps, sn, i, j);
    }
  }

  /** Losing any 1 to 65535 records after the probation record and before the last is refused. */
  lemma LossIsRefused(nals: seq<bytes>, fragmented: bool, i: nat, j: nat)
    requires Made(nals, fragmented).Ok?
    requires 0 < i < j < |RecordsOf(nals, fragmented)| && j - i <= 65535
    ensures var recs := RecordsOf(nals, fragmented); Reconstructed(recs[..i] + recs[j..]).Refused?
  {
    FileHolds(nals, fragmented);
    GapIsRefused(RecordsOf(nals, fragmented), AllPayloads(nals, fragmented), 65534, i, j);
  }

  /** The bound is tight: 65536 unfragmented NALs can vanish unseen from any place in the stream. */
  lemma WholeWrapIsInvisible(nals: seq<bytes>, a: nat)
    requires Made(nals, false).Ok? && NoFuKind(nals) && a + 0x1_0000 <= |nals|
    ensures |RecordsOf(nals, false)| == 1 + |nals|
    ensures var recs := RecordsOf(nals, false);
            var left := Reconstructed(recs[..1 + a] + recs[1 + a + 0x1_0000..]);
            left.Ok? && left.value.output == nals[..a] + nals[a + 0x1_0000..]
  {
    FileHolds(nals, false);
    PlainPayloads(nals, 0);
    WrapDelivers(RecordsOf(nals, false), nals, a, a + 0x1_0000, 65534);
  }

  lemma WrapCarries(recs: seq<Rec>, nals: seq<bytes>, a: nat, b: nat, sn: sequence)
    requires NonEmpty(nals) && a <= b <= |nals| && (b - a) % 0x1_0000 == 0
    requires |recs| == 1 + |nals| && Carried(recs, AllPayloads(nals, false), sn)
    ensures Carried(recs[..1 + a] + recs[1 + b..], AllPayloads(nals[..a] + nals[b..], false), sn)
  {
    var kept, left := nals[..a] + nals[b..], recs[..1 + a] + recs[1 + b..];
    var ps := AllPayloads(kept, false);
    PlainPayloads(nals, 0);
    PlainPayloads(kept, 0);
    forall k | 0 <= k < |left| ensures Carries(left[k].raw, ps[k].body, After(sn, k)) {
      var at := if k <= a then k else k + b - a;
      assert Carries(recs[at].raw, AllPayloads(nals, false)[at].body, After(sn, at));
      assert left[k] == recs[at] && ps[k].body == AllPayloads(nals, false)[at].body;
      SameResidue(sn, k, at);
    }
  }

  lemma KeptDelivers(left: seq<Rec>, kept: seq<bytes>, sn: sequence)
    requires NoFuKind(kept) && Carried(left, AllPayloads(kept, false), sn)
    ensures Reconstructed(left).Ok? && Reconstructed(left).value.output == kept
  {
    var st := AfterProbation(left, Payloads(kept, false, 0), sn);
    var st' := DeliverAll(st, left[1..], kept, false, 0, Next(sn));
    PlainArrival(kept);
    assert [] + kept == kept;
  }

  lemma WrapDelivers(recs: seq<Rec>, nals: seq<bytes>, a: nat, b: nat, sn: sequence)
    requires NoFuKind(nals) && a <= b <= |nals| && (b - a) % 0x1_0000 == 0
    requires |recs| == 1 + |nals| && Carried(recs, AllPayloads(nals, false), sn)
    ensures var left := Reconstructed(recs[..1 + a] + recs[1 + b..]);
            left.Ok? && left.value.output == nals[..a] + nals[b..]
  {
    var kept, left := nals[..a] + nals[b..], recs[..1 + a] + recs[1 + b..];
    WrapCarries(recs, nals, a, b, sn);
    KeptDelivers(left, kept, sn);
  }

  lemma {:induction false} PlainPayloads(nals: seq<bytes>, i: nat)
    requires NonEmpty(nals)
    ensures |Payloads(nals, false, i)| == |nals|
    ensures forall k :: 0 <= k < |nals| ==> Payloads(nals, false, i)[k].body == nals[k]
    decreases |nals|
  {
    if nals != [] {
      PlainPayloads(nals[1..], i + 1);
    }
  }

  lemma {:induction false} PlainArrival(nals: seq<bytes>)
    requires NonEmpty(nals)
    ensures ArrivedAll(nals, false) == nals
  {
    if nals != [] {
      PlainArrival(nals[1..]);
    }
  }
}
