/** What the rtpdump oracle promises: the transport is exact, truncation shows, loss is refused. */
module RtpDumpLaws {
  import opened Bytes
  import opened RtpDump

  // ---------------------------------------------------------------- framing: parse reads what was joined

  /** A record whose two length fields describe it. */
  predicate Framed(r: bytes) {
    |r| >= 8 && FromBE(r[..2]) == |r| && FromBE(r[2..4]) == |r| - 8
  }

  predicate AllFramed(rs: seq<bytes>) {
    forall k :: 0 <= k < |rs| ==> Framed(rs[k])
  }

  function RecsAt(rs: seq<bytes>, pos: nat): (recs: seq<Rec>)
    requires AllFramed(rs)
    ensures |recs| == |rs|
  {
    if rs == [] then [] else [Rec(pos, rs[0][8..])] + RecsAt(rs[1..], pos + |rs[0]|)
  }

  lemma {:induction false} RawOf(rs: seq<bytes>, pos: nat, k: nat)
    requires AllFramed(rs) && k < |rs|
    ensures RecsAt(rs, pos)[k].raw == rs[k][8..]
  {
    if k > 0 {
      RawOf(rs[1..], pos + |rs[0]|, k - 1);
    }
  }

  /** How many whole records end at distance `d`, if any number of them does. */
  function Boundary(rs: seq<bytes>, d: nat): (m: Option<nat>)
    ensures m.Some? ==> m.value <= |rs|
  {
    if d == 0 then Some(0)
    else if rs == [] || d < |rs[0]| then None
    else
      var rest := Boundary(rs[1..], d - |rs[0]|);
      if rest.None? then None else Some(rest.value + 1)
  }

  lemma {:induction false} BoundaryMeaning(rs: seq<bytes>, d: nat)
    ensures Boundary(rs, d).Some? ==> |Join(rs[..Boundary(rs, d).value])| == d
    ensures Boundary(rs, d).None? ==> forall m :: 0 <= m <= |rs| ==> |Join(rs[..m])| != d
  {
    if rs != [] {
      forall m | 1 <= m <= |rs| ensures |Join(rs[..m])| == |rs[0]| + |Join(rs[1..][..m - 1])| {
        JoinFirst(rs[..m]);
        assert rs[..m][1..] == rs[1..][..m - 1];
      }
      if d >= |rs[0]| {
        BoundaryMeaning(rs[1..], d - |rs[0]|);
      }
    }
  }

  lemma {:induction false} BoundaryOfAll(rs: seq<bytes>)
    requires AllFramed(rs)
    ensures Boundary(rs, |Join(rs)|) == Some(|rs|)
  {
    if rs != [] {
      JoinFirst(rs);
      BoundaryOfAll(rs[1..]);
    }
  }

  lemma ParseHead(part: bytes, pos: nat, lost: bytes, r: bytes, rest: bytes)
    requires pos <= |part| && part[pos..] + lost == r + rest && Framed(r)
    ensures pos + |r| <= |part| ==> part[pos + |r|..] + lost == rest
    ensures pos + |r| <= |part| ==>
      ParseFrom(part, pos) == Prepend([Rec(pos, r[8..])], ParseFrom(part, pos + |r|))
    ensures pos < |part| < pos + |r| ==> ParseFrom(part, pos).Refused?
  {
    var whole := part[pos..] + lost;
    if |part| >= pos + 8 {
      assert part[pos..pos + 2] == whole[..2] == r[..2];
      assert part[pos + 2..pos + 4] == whole[2..4] == r[2..4];
      if |part| >= pos + |r| {
        assert part[pos + 8..pos + |r|] == whole[8..|r|] == r[8..];
        assert part[pos + |r|..] + lost == whole[|r|..] == rest;
      }
    }
  }

  lemma TakeHead<T>(x: T, s: seq<T>, m: nat)
    requires m <= |s|
    ensures ([x] + s)[..m + 1] == [x] + s[..m]
  {
  }

  /** What reading whole records up to distance `d` returns: those that end there, if some do. */
  predicate ReadsTo(rs: seq<bytes>, pos: nat, d: nat, parsed: Result<seq<Rec>, Refusal>)
    requires AllFramed(rs)
  {
    var m := Boundary(rs, d);
    if m.Some? then parsed == Ok(RecsAt(rs, pos)[..m.value]) else parsed.Refused?
  }

  /** The first record in front of what is read behind it. */
  lemma HeadReadsTo(rs: seq<bytes>, pos: nat, d: nat, parsed: Result<seq<Rec>, Refusal>)
    requires rs != [] && AllFramed(rs) && 0 < |rs[0]| <= d && ReadsTo(rs[1..], pos + |rs[0]|, d - |rs[0]|, parsed)
    ensures ReadsTo(rs, pos, d, Prepend([Rec(pos, rs[0][8..])], parsed))
  {
    var m := Boundary(rs[1..], d - |rs[0]|);
    if m.Some? {
      TakeHead(Rec(pos, rs[0][8..]), RecsAt(rs[1..], pos + |rs[0]|), m.value);
    }
  }

  /** Reading a file that lost its last bytes returns the whole records before the cut, or refuses. */
  lemma {:induction false} CutParse(part: bytes, pos: nat, lost: bytes, rs: seq<bytes>)
    requires pos <= |part| && part[pos..] + lost == Join(rs) && AllFramed(rs)
    ensures ReadsTo(rs, pos, |part| - pos, ParseFrom(part, pos))
    decreases |rs|
  {
    if pos < |part| {
      var first := rs[0];
      JoinFirst(rs);
      ParseHead(part, pos, lost, first, Join(rs[1..]));
      if pos + |first| <= |part| {
        CutParse(part, pos + |first|, lost, rs[1..]);
        HeadReadsTo(rs, pos, |part| - pos, ParseFrom(part, pos + |first|));
      }
    }
  }

  lemma WholeParse(head: bytes, rs: seq<bytes>)
    requires AllFramed(rs)
    ensures ParseFrom(head + Join(rs), |head|) == Ok(RecsAt(rs, |head|))
  {
    var data, body := head + Join(rs), Join(rs);
    assert data[|head|..] == body;
    assert body + [] == body;
    CutParse(data, |head|, [], rs);
    BoundaryOfAll(rs);
    var recs := RecsAt(rs, |head|);
    assert recs[..|recs|] == recs;
  }

  // ---------------------------------------------------------------- what a record carries

  predicate Carries(raw: bytes, body: bytes, sn: sequence) {
    && |raw| == 12 + |body|
    && raw[0] == 0x80 && raw[1] % 128 == 96
    && SequenceOf(raw) == sn
    && raw[12..] == body
  }

  predicate Carried(recs: seq<Rec>, ps: seq<Payload>, sn: sequence) {
    && |recs| == |ps|
    && forall k :: 0 <= k < |ps| ==> Carries(recs[k].raw, ps[k].body, After(sn, k))
  }

  lemma WireCarries(p: Payload, sn: sequence)
    ensures Carries(Wire(p, sn), p.body, sn)
  {
    Reads16(sn);
    var head := [0x80, if p.marker then 224 else 96];
    FiveParts(head, BE(2, sn), BE(4, 90000), BE(4, 7), p.body);
    var wire := Wire(p, sn);
    assert wire[0] == head[0] && wire[1] == head[1];
  }

  lemma FiveParts(a: bytes, b: bytes, c: bytes, d: bytes, e: bytes)
    requires |a| == 2 && |b| == 2 && |c| == 4 && |d| == 4
    ensures var all := a + b + c + d + e;
      && |all| == 12 + |e| && all[..2] == a && all[2..4] == b && all[4..8] == c && all[8..12] == d
      && all[12..] == e
  {
  }

  lemma RecordFrames(p: Payload, sn: sequence)
    requires Fits(p)
    ensures Framed(Record(p, sn)) && Record(p, sn)[8..] == Wire(p, sn)
  {
    var wire := Wire(p, sn);
    var r := BE(2, |wire| + 8) + BE(2, |wire|) + BE(4, p.offset) + wire;
    Reads16(|wire| + 8);
    Reads16(|wire|);
    assert r[..2] == BE(2, |wire| + 8);
    assert r[2..4] == BE(2, |wire|);
  }

  lemma RecordsCarry(ps: seq<Payload>, sn: sequence, pos: nat)
    requires AllFit(ps)
    ensures AllFramed(RecordList(ps, sn))
    ensures Carried(RecsAt(RecordList(ps, sn), pos), ps, sn)
  {
    var rs := RecordList(ps, sn);
    forall k | 0 <= k < |ps| ensures Framed(rs[k]) && Carries(rs[k][8..], ps[k].body, After(sn, k)) {
      RecordFrames(ps[k], After(sn, k));
      WireCarries(ps[k], After(sn, k));
    }
    forall k | 0 <= k < |ps| ensures Carries(RecsAt(rs, pos)[k].raw, ps[k].body, After(sn, k)) {
      RawOf(rs, pos, k);
    }
  }

  lemma {:induction false} AfterAfter(sn: sequence, a: nat, b: nat)
    ensures After(After(sn, a), b) == After(sn, a + b)
    decreases a
  {
    if a > 0 {
      AfterAfter(Next(sn), a - 1, b);
    }
  }

  lemma {:induction false} AfterIsModular(sn: sequence, k: nat)
    ensures After(sn, k) == (sn + k) % 0x1_0000
    decreases k
  {
    if k > 0 {
      AfterIsModular(Next(sn), k - 1);
    }
  }

  lemma CarriedSplit(recs: seq<Rec>, a: seq<Payload>, b: seq<Payload>, sn: sequence)
    requires Carried(recs, a + b, sn)
    ensures Carried(recs[..|a|], a, sn) && Carried(recs[|a|..], b, After(sn, |a|))
  {
    forall k | 0 <= k < |a| ensures Carries(recs[..|a|][k].raw, a[k].body, After(sn, k)) {
      assert (a + b)[k] == a[k];
    }
    forall k | 0 <= k < |b| ensures Carries(recs[|a|..][k].raw, b[k].body, After(After(sn, |a|), k)) {
      assert (a + b)[|a| + k] == b[k];
      AfterAfter(sn, |a|, k);
    }
  }

  // ---------------------------------------------------------------- running records

  lemma {:induction false} RunAppend(st: State, a: seq<Rec>, b: seq<Rec>)
    ensures Run(st, a + b) == if Run(st, a).Refused? then Run(st, a) else Run(Run(st, a).value, b)
    decreases |a|
  {
    if a == [] {
      assert a + b == b;
    } else if Step(st, a[0]).Ok? {
      assert (a + b)[1..] == a[1..] + b;
      RunAppend(Step(st, a[0]).value, a[1..], b);
    }
  }

  lemma RunSplit(st: State, recs: seq<Rec>, k: nat, mid: State)
    requires k <= |recs| && Run(st, recs[..k]) == Ok(mid)
    ensures Run(st, recs) == Run(mid, recs[k..])
  {
    RunAppend(st, recs[..k], recs[k..]);
    assert recs == recs[..k] + recs[k..];
  }

  /** What a receiver gets for `nal`: a fragmented NAL loses its forbidden bit. */
  function Arrived(nal: bytes, fragmented: bool): bytes
    requires nal != []
  {
    if fragmented && IsVcl(nal[0]) then [nal[0] % 128] + nal[1..] else nal
  }

  function ArrivedAll(nals: seq<bytes>, fragmented: bool): (r: seq<bytes>)
    requires NonEmpty(nals)
    ensures |r| == |nals|
  {
    if nals == [] then [] else [Arrived(nals[0], fragmented)] + ArrivedAll(nals[1..], fragmented)
  }

  /** Between NALs, `sn` is the sequence number that must come next. */
  predicate Idle(st: State, sn: sequence) {
    st.pending.None? && st.last.Some? && Next(st.last.value) == sn
  }

  lemma FuHeaderBits(header: byte)
    requires IsVcl(header)
    ensures Kind(FuPrefix(header, 128)[0]) == 28 && Kind(FuPrefix(header, 64)[0]) == 28
    ensures FuPrefix(header, 128)[1] >= 128 && FuPrefix(header, 128)[1] / 64 % 2 == 0
    ensures FuPrefix(header, 64)[1] < 128 && FuPrefix(header, 64)[1] / 64 % 2 == 1
    ensures FuPrefix(header, 128)[0] / 32 * 32 + Kind(FuPrefix(header, 128)[1]) == header % 128
  {
  }

  lemma DeliverHalves(st: State, header: byte, a: bytes, b: bytes, sn: sequence, pos: nat, pos': nat)
    returns (first: State, st': State)
    requires IsVcl(header) && Idle(st, sn)
    ensures Deliver(st, pos, FuPrefix(header, 128) + a, sn) == Ok(first) && first.last == Some(sn)
    ensures Deliver(first, pos', FuPrefix(header, 64) + b, Next(sn)) == Ok(st')
    ensures st'.pending.None? && st'.last == Some(Next(sn))
    ensures st'.output == st.output + [[header % 128] + a + b]
  {
    FuHeaderBits(header);
    assert (FuPrefix(header, 128) + a)[2..] == a;
    assert (FuPrefix(header, 64) + b)[2..] == b;
    first := Deliver(st, pos, FuPrefix(header, 128) + a, sn).value;
    st' := Deliver(first, pos', FuPrefix(header, 64) + b, Next(sn)).value;
  }

  lemma RunOne(st: State, recs: seq<Rec>, st': State)
    requires |recs| == 1 && Step(st, recs[0]) == Ok(st')
    ensures Run(st, recs) == Ok(st')
  {
    assert recs[1..] == [];
  }

  lemma RunTwo(st: State, recs: seq<Rec>, first: State, st': State)
    requires |recs| == 2 && Step(st, recs[0]) == Ok(first) && Step(first, recs[1]) == Ok(st')
    ensures Run(st, recs) == Ok(st')
  {
    RunOne(first, recs[1..], st');
  }

  lemma DeliverOne(st: State, recs: seq<Rec>, nal: bytes, fragmented: bool, i: nat, sn: sequence)
    returns (st': State)
    requires nal != [] && Kind(nal[0]) != 28 && Idle(st, sn)
    requires Carried(recs, PayloadsOf(nal, fragmented, i), sn)
    ensures Run(st, recs) == Ok(st') && Idle(st', After(sn, |recs|))
    ensures st'.output == st.output + [Arrived(nal, fragmented)]
  {
    assert After(sn, 0) == sn && After(sn, 1) == Next(sn);
    if fragmented && IsVcl(nal[0]) {
      var a, b := nal[1..Middle(nal)], nal[Middle(nal)..];
      var first;
      first, st' := DeliverHalves(st, nal[0], a, b, sn, recs[0].pos, recs[1].pos);
      RunTwo(st, recs, first, st');
      assert [nal[0] % 128] + a + b == Arrived(nal, true);
      AfterNext(sn, 1);
    } else {
      st' := Deliver(st, recs[0].pos, nal, sn).value;
      RunOne(st, recs, st');
    }
  }

  predicate NoFuKind(nals: seq<bytes>) {
    forall k :: 0 <= k < |nals| ==> nals[k] != [] && Kind(nals[k][0]) != 28
  }

  lemma {:induction false} DeliverAll(
    st: State, recs: seq<Rec>, nals: seq<bytes>, fragmented: bool, i: nat, sn: sequence) returns (st': State)
    requires NoFuKind(nals) && Idle(st, sn)
    requires Carried(recs, Payloads(nals, fragmented, i), sn)
    ensures Run(st, recs) == Ok(st') && Idle(st', After(sn, |recs|))
    ensures st'.output == st.output + ArrivedAll(nals, fragmented)
    decreases |nals|
  {
    if nals == [] {
      st' := st;
    } else {
      var one, rest := PayloadsOf(nals[0], fragmented, i), Payloads(nals[1..], fragmented, i + 1);
      CarriedSplit(recs, one, rest, sn);
      var mid := DeliverOne(st, recs[..|one|], nals[0], fragmented, i, sn);
      st' := DeliverAll(mid, recs[|one|..], nals[1..], fragmented, i + 1, After(sn, |one|));
      RunSplit(st, recs, |one|, mid);
      AfterAfter(sn, |one|, |rest|);
      Assoc(st.output, [Arrived(nals[0], fragmented)], ArrivedAll(nals[1..], fragmented));
    }
  }
}
