/** Packetizing the whole stream and rebuilding it window by window. */
module CaptureLaws {
  import opened Bytes
  import opened RtpDump
  import opened RtpDumpLaws
  import RtpDumpTheorems
  import opened CapturePackets
  import Windows

  function Raws(packets: seq<Packet>): (r: seq<bytes>)
    ensures |r| == |packets|
  {
    seq(|packets|, k requires 0 <= k < |packets| => packets[k].raw)
  }

  /** The wire packets carry these payloads under consecutive sequence numbers. */
  predicate Sent(wire: seq<bytes>, ps: seq<Payload>, sn: nat) {
    && |wire| == |ps| && sn + |ps| <= 0x1_0000
    && forall k :: 0 <= k < |ps| ==> Carries(wire[k], ps[k].body, sn + k)
  }

  lemma HeaderCarries(marker: bool, sn: sequence, frame: nat, body: bytes)
    ensures Carries(Header(marker, sn, frame) + body, body, sn)
  {
    var raw := Header(marker, sn, frame) + body;
    Reads16(sn);
    assert raw[2..4] == BE(2, sn);
  }

  lemma {:induction false} PacketsCarry(ps: seq<Payload>, ordinal: nat, sn: nat, frame: nat)
    requires sn + |ps| <= 0x1_0000
    ensures Sent(Raws(PacketsOf(ps, ordinal, sn, frame)), ps, sn)
    decreases |ps|
  {
    if ps != [] {
      PacketsCarry(ps[1..], ordinal, sn + 1, frame);
      HeaderCarries(ps[0].marker, sn, frame, ps[0].body);
      var all, rest := PacketsOf(ps, ordinal, sn, frame), PacketsOf(ps[1..], ordinal, sn + 1, frame);
      forall k | 0 <= k < |ps| ensures Carries(Raws(all)[k], ps[k].body, sn + k) {
        if k > 0 {
          assert all[k] == rest[k - 1] && Raws(rest)[k - 1] == rest[k - 1].raw;
          assert Carries(Raws(rest)[k - 1], ps[1..][k - 1].body, sn + 1 + (k - 1));
        }
      }
    }
  }

  lemma SentAppend(a: seq<bytes>, b: seq<bytes>, ps: seq<Payload>, qs: seq<Payload>, sn: nat)
    requires Sent(a, ps, sn) && Sent(b, qs, sn + |ps|)
    ensures Sent(a + b, ps + qs, sn)
  {
    forall k | 0 <= k < |ps + qs| ensures Carries((a + b)[k], (ps + qs)[k].body, sn + k) {
      if k >= |ps| {
        assert Carries(b[k - |ps|], qs[k - |ps|].body, sn + |ps| + (k - |ps|));
      }
    }
  }

  lemma SentSplit(wire: seq<bytes>, ps: seq<Payload>, qs: seq<Payload>, sn: nat)
    requires Sent(wire, ps + qs, sn)
    ensures Sent(wire[..|ps|], ps, sn) && Sent(wire[|ps|..], qs, sn + |ps|)
  {
    forall k | 0 <= k < |ps| ensures Carries(wire[..|ps|][k], ps[k].body, sn + k) {
      assert (ps + qs)[k] == ps[k];
    }
    forall k | 0 <= k < |qs| ensures Carries(wire[|ps|..][k], qs[k].body, sn + |ps| + k) {
      assert (ps + qs)[|ps| + k] == qs[k];
    }
  }

  predicate OrdinalsIn(packets: seq<Packet>, a: nat, b: nat) {
    forall k :: 0 <= k < |packets| ==> a <= packets[k].ordinal < b
  }

  predicate OrdinalsFrom(packets: seq<Packet>, b: nat) {
    forall k :: 0 <= k < |packets| ==> b <= packets[k].ordinal
  }

  lemma RawsAppend(a: seq<Packet>, b: seq<Packet>)
    ensures Raws(a + b) == Raws(a) + Raws(b)
  {
  }

  /** What a chunk is for: it carries the payloads of its NAL under its ordinal. */
  ghost predicate Chunks(chunk: Chunk, fragmented: bool) {
    forall nal: bytes, o: nat, s: nat, f: nat :: IsChunk(chunk(nal, o, s, f), nal, fragmented, o, s)
  }

  predicate IsChunk(packets: seq<Packet>, nal: bytes, fragmented: bool, o: nat, s: nat) {
    && OrdinalsIn(packets, o, o + 1)
    && (nal != [] ==>
          && |packets| == |PayloadsOf(nal, fragmented, o)|
          && (s + |packets| <= 0x1_0000 ==> Sent(Raws(packets), PayloadsOf(nal, fragmented, o), s)))
  }

  lemma ChunkOfChunks(fragmented: bool)
    ensures Chunks(ChunkOf(fragmented), fragmented)
  {
    forall nal: bytes, o: nat, s: nat, f: nat
      ensures IsChunk(ChunkOf(fragmented)(nal, o, s, f), nal, fragmented, o, s)
    {
      if nal != [] {
        var ps := PayloadsOf(nal, fragmented, o);
        PacketOrdinals(ps, o, s, f);
        if s + |ps| <= 0x1_0000 {
          PacketsCarry(ps, o, s, f);
        }
      }
    }
  }

  lemma {:induction false} PacketOrdinals(ps: seq<Payload>, ordinal: nat, sn: nat, frame: nat)
    ensures OrdinalsIn(PacketsOf(ps, ordinal, sn, frame), ordinal, ordinal + 1)
    decreases |ps|
  {
    if ps != [] {
      PacketOrdinals(ps[1..], ordinal, sn + 1, frame);
    }
  }

  /** `parts(k)`, `parts(k + 1)` and so on, put together. */
  function Parts(parts: nat -> seq<Payload>, k: nat, end: nat): seq<Payload>
    requires k <= end
    decreases end - k
  {
    if k == end then [] else parts(k) + Parts(parts, k + 1, end)
  }

  lemma {:induction false} PartsOfRange(
    parts: nat -> seq<Payload>, nals: seq<bytes>, fragmented: bool, k: nat, end: nat)
    requires NonEmpty(nals) && k <= end <= |nals|
    requires forall i :: 0 <= i < |nals| ==> parts(i) == PayloadsOf(nals[i], fragmented, i)
    ensures Parts(parts, k, end) == Payloads(nals[k..end], fragmented, k)
    decreases end - k
  {
    if k < end {
      assert nals[k..end][0] == nals[k] && nals[k..end][1..] == nals[k + 1..end];
      PartsOfRange(parts, nals, fragmented, k + 1, end);
    }
  }

  /** Every chunk of NAL `k` carries the payloads `parts(k)`. */
  ghost predicate SendsParts(chunk: Chunk, nals: seq<bytes>, parts: nat -> seq<Payload>) {
    forall k: nat, s: nat, f: nat :: k < |nals| ==> SendsPart(chunk(nals[k], k, s, f), parts(k), s)
  }

  predicate SendsPart(packets: seq<Packet>, ps: seq<Payload>, s: nat) {
    |packets| == |ps| && (s + |ps| <= 0x1_0000 ==> Sent(Raws(packets), ps, s))
  }

  lemma {:induction false} ChainCarries(
    chunk: Chunk, nals: seq<bytes>, parts: nat -> seq<Payload>, k: nat, end: nat, sn: nat, frame: nat)
    requires SendsParts(chunk, nals, parts) && k <= end <= |nals|
    ensures SendsPart(Chain(chunk, nals, k, end, sn, frame), Parts(parts, k, end), sn)
    decreases end - k
  {
    if k < end {
      var now := chunk(nals[k], k, sn, frame);
      var rest := Chain(chunk, nals, k + 1, end, sn + |now|, frame + FrameOf(nals[k]));
      assert SendsPart(now, parts(k), sn);
      ChainCarries(chunk, nals, parts, k + 1, end, sn + |now|, frame + FrameOf(nals[k]));
      SentChain(now, rest, parts(k), Parts(parts, k + 1, end), sn);
    }
  }

  lemma RangeCarries(chunk: Chunk, nals: seq<bytes>, fragmented: bool, a: nat, b: nat, sn: nat, frame: nat)
    requires Chunks(chunk, fragmented) && NonEmpty(nals) && a <= b <= |nals|
    requires sn + |Chain(chunk, nals, a, b, sn, frame)| <= 0x1_0000
    ensures Sent(Raws(Chain(chunk, nals, a, b, sn, frame)), Payloads(nals[a..b], fragmented, a), sn)
  {
    var parts := (k: nat) => if k < |nals| && nals[k] != [] then PayloadsOf(nals[k], fragmented, k) else [];
    forall k: nat, s: nat, f: nat | k < |nals| ensures SendsPart(chunk(nals[k], k, s, f), parts(k), s) {
      assert IsChunk(chunk(nals[k], k, s, f), nals[k], fragmented, k, s);
    }
    ChainCarries(chunk, nals, parts, a, b, sn, frame);
    PartsOfRange(parts, nals, fragmented, a, b);
  }

  lemma SentChain(now: seq<Packet>, rest: seq<Packet>, ps: seq<Payload>, qs: seq<Payload>, sn: nat)
    requires SendsPart(now, ps, sn) && SendsPart(rest, qs, sn + |ps|)
    ensures SendsPart(now + rest, ps + qs, sn)
  {
    if sn + |ps + qs| <= 0x1_0000 {
      SentAppend(Raws(now), Raws(rest), ps, qs, sn);
      RawsAppend(now, rest);
    }
  }

  lemma {:induction false} ChainOrdinals(
    chunk: Chunk, nals: seq<bytes>, fragmented: bool, k: nat, end: nat, sn: nat, frame: nat)
    requires Chunks(chunk, fragmented) && k <= end <= |nals|
    ensures OrdinalsIn(Chain(chunk, nals, k, end, sn, frame), k, end)
    decreases end - k
  {
    if k < end {
      var now := chunk(nals[k], k, sn, frame);
      assert IsChunk(now, nals[k], fragmented, k, sn);
      ChainOrdinals(chunk, nals, fragmented, k + 1, end, sn + |now|, frame + FrameOf(nals[k]));
    }
  }

  // ---------------------------------------------------------------- rebuilding

  lemma {:induction false} TakeAppend(st: Rebuild, a: seq<bytes>, b: seq<bytes>)
    ensures TakeAll(st, a + b) == if TakeAll(st, a).Refused? then TakeAll(st, a) else TakeAll(TakeAll(st, a).value, b)
    decreases |a|
  {
    if a == [] {
      assert a + b == b;
    } else if Take(st, a[0]).Ok? {
      assert (a + b)[1..] == a[1..] + b;
      TakeAppend(Take(st, a[0]).value, a[1..], b);
    }
  }

  predicate SingleKind(nal: bytes) {
    nal != [] && 1 <= Kind(nal[0]) <= 23
  }

  lemma AcceptHalves(st: Rebuild, header: byte, a: bytes, b: bytes, sn: sequence)
    returns (first: Rebuild, st': Rebuild)
    requires IsVcl(header) && st.pending.None? && sn < 0xffff
    ensures Accept(st, FuPrefix(header, 128) + a, sn) == Ok(first)
    ensures Accept(first, FuPrefix(header, 64) + b, sn + 1) == Ok(st')
    ensures st'.pending.None? && st'.nals == st.nals + [[header % 128] + a + b]
  {
    FuHeaderBits(header);
    assert (FuPrefix(header, 128) + a)[2..] == a;
    assert (FuPrefix(header, 64) + b)[2..] == b;
    first := Accept(st, FuPrefix(header, 128) + a, sn).value;
    st' := Accept(first, FuPrefix(header, 64) + b, sn + 1).value;
  }

  lemma TakeTwo(st: Rebuild, wire: seq<bytes>, first: Rebuild, st': Rebuild)
    requires |wire| == 2 && Take(st, wire[0]) == Ok(first) && Take(first, wire[1]) == Ok(st')
    ensures TakeAll(st, wire) == Ok(st')
  {
    assert wire[1..][1..] == [];
    assert TakeAll(first, wire[1..]) == TakeAll(st', wire[1..][1..]);
  }

  /** One NAL arrives, or is refused for its kind. */
  lemma AcceptOne(st: Rebuild, wire: seq<bytes>, nal: bytes, fragmented: bool, i: nat, sn: nat)
    requires nal != [] && Kind(nal[0]) != 28 && st.pending.None?
    requires Sent(wire, PayloadsOf(nal, fragmented, i), sn)
    ensures SingleKind(nal) ==>
      var r := TakeAll(st, wire);
      r.Ok? && r.value.pending.None? && r.value.nals == st.nals + [Arrived(nal, fragmented)]
    ensures !SingleKind(nal) ==> TakeAll(st, wire).Refused?
  {
    var ps := PayloadsOf(nal, fragmented, i);
    assert Carries(wire[0], ps[0].body, sn + 0);
    if fragmented && IsVcl(nal[0]) {
      assert Carries(wire[1], ps[1].body, sn + 1);
      var a, b := nal[1..Middle(nal)], nal[Middle(nal)..];
      var first, st' := AcceptHalves(st, nal[0], a, b, sn);
      TakeTwo(st, wire, first, st');
      assert [nal[0] % 128] + a + b == Arrived(nal, true);
    } else {
      assert wire[1..] == [];
    }
  }

  lemma {:induction false} AcceptAll(st: Rebuild, wire: seq<bytes>, nals: seq<bytes>, fragmented: bool, i: nat, sn: nat)
    requires NoFuKind(nals) && st.pending.None? && Sent(wire, Payloads(nals, fragmented, i), sn)
    ensures (forall k :: 0 <= k < |nals| ==> SingleKind(nals[k])) ==>
      var r := TakeAll(st, wire);
      r.Ok? && r.value.pending.None? && r.value.nals == st.nals + ArrivedAll(nals, fragmented)
    ensures (exists k :: 0 <= k < |nals| && !SingleKind(nals[k])) ==> TakeAll(st, wire).Refused?
    decreases |nals|
  {
    if nals != [] {
      var one, rest := PayloadsOf(nals[0], fragmented, i), Payloads(nals[1..], fragmented, i + 1);
      SentSplit(wire, one, rest, sn);
      var head, tail := wire[..|one|], wire[|one|..];
      assert wire == head + tail;
      TakeAppend(st, head, tail);
      AcceptOne(st, head, nals[0], fragmented, i, sn);
      if SingleKind(nals[0]) {
        AcceptAll(TakeAll(st, head).value, tail, nals[1..], fragmented, i + 1, sn + |one|);
        Assoc(st.nals, [Arrived(nals[0], fragmented)], ArrivedAll(nals[1..], fragmented));
      }
    }
  }

  // ---------------------------------------------------------------- exactly which NALs survive

  function Volume(st: Rebuild): nat {
    RtpDumpTheorems.Total(st.nals) + if st.pending.Some? then |st.pending.value| else 0
  }

  lemma AcceptVolume(st: Rebuild, payload: bytes, sn: sequence)
    requires payload != [] && Accept(st, payload, sn).Ok?
    ensures Volume(Accept(st, payload, sn).value) == Volume(st) + RtpDumpTheorems.Adds(payload)
  {
    var nals := Accept(st, payload, sn).value.nals;
    if |nals| > |st.nals| {
      RtpDumpTheorems.TotalSnoc(st.nals, nals[|nals| - 1]);
    }
  }

  lemma {:induction false} TakeVolume(st: Rebuild, wire: seq<bytes>, ps: seq<Payload>, sn: nat)
    requires Sent(wire, ps, sn) && TakeAll(st, wire).Ok?
    ensures Volume(TakeAll(st, wire).value) == Volume(st) + RtpDumpTheorems.AddsAll(ps)
    decreases |ps|
  {
    if ps != [] {
      assert Carries(wire[0], ps[0].body, sn + 0);
      AcceptVolume(st, ps[0].body, sn);
      SentSplit(wire, [ps[0]], ps[1..], sn);
      assert ps == [ps[0]] + ps[1..];
      TakeVolume(Take(st, wire[0]).value, wire[1..], ps[1..], sn + 1);
    }
  }

  /** A NAL of a kind that travels alone, with its forbidden bit clear if it is sent in fragments. */
  predicate Survives(nal: bytes, fragmented: bool) {
    SingleKind(nal) && (fragmented && IsVcl(nal[0]) ==> nal[0] < 128)
  }

  /** The packets of a run of NALs rebuild them exactly when each of them survives. */
  lemma RunExactly(wire: seq<bytes>, nals: seq<bytes>, fragmented: bool, i: nat, sn: nat)
    requires NonEmpty(nals) && Sent(wire, Payloads(nals, fragmented, i), sn)
    ensures RebuiltNals(wire) == Ok(nals) <==> forall k :: 0 <= k < |nals| ==> Survives(nals[k], fragmented)
  {
    if NoFuKind(nals) {
      AcceptAll(EMPTY, wire, nals, fragmented, i, sn);
      RtpDumpTheorems.ArrivedExactly(nals, fragmented);
      assert [] + ArrivedAll(nals, fragmented) == ArrivedAll(nals, fragmented);
      forall k | 0 <= k < |nals|
        ensures SingleKind(nals[k]) ==> (Arrived(nals[k], fragmented) == nals[k] <==> Survives(nals[k], fragmented))
      {
        RtpDumpTheorems.HeaderUnchanged(nals[k], fragmented);
      }
    } else {
      var k :| 0 <= k < |nals| && Kind(nals[k][0]) == 28;
      assert !Survives(nals[k], fragmented);
      if RebuiltNals(wire).Ok? {
        TakeVolume(EMPTY, wire, Payloads(nals, fragmented, i), sn);
        RtpDumpTheorems.FuKindLosesBytes(nals, fragmented, i);
      }
    }
  }

  // ---------------------------------------------------------------- windows

  /** `[raw for ordinal, raw in packets if ordinal in selected]` */
  function Select(packets: seq<Packet>, selected: seq<nat>): seq<bytes> {
    if packets == [] then []
    else (if packets[0].ordinal in selected then [packets[0].raw] else []) + Select(packets[1..], selected)
  }

  lemma {:induction false} SelectAppend(a: seq<Packet>, b: seq<Packet>, selected: seq<nat>)
    ensures Select(a + b, selected) == Select(a, selected) + Select(b, selected)
  {
    if a == [] {
      assert a + b == b;
    } else {
      assert (a + b)[1..] == a[1..] + b;
      SelectAppend(a[1..], b, selected);
    }
  }

  lemma {:induction false} SelectNone(packets: seq<Packet>, selected: seq<nat>)
    requires forall k :: 0 <= k < |packets| ==> packets[k].ordinal !in selected
    ensures Select(packets, selected) == []
  {
    if packets != [] {
      SelectNone(packets[1..], selected);
    }
  }

  lemma {:induction false} SelectEvery(packets: seq<Packet>, selected: seq<nat>)
    requires forall k :: 0 <= k < |packets| ==> packets[k].ordinal in selected
    ensures Select(packets, selected) == Raws(packets)
  {
    if packets != [] {
      SelectEvery(packets[1..], selected);
      RawsAppend([packets[0]], packets[1..]);
      assert packets == [packets[0]] + packets[1..];
    }
  }

  lemma {:induction false} ChainSplit(
    chunk: Chunk, nals: seq<bytes>, k: nat, m: nat, end: nat, sn: nat, frame: nat) returns (sn': nat, frame': nat)
    requires k <= m <= end <= |nals|
    ensures sn' == sn + |Chain(chunk, nals, k, m, sn, frame)|
    ensures Chain(chunk, nals, k, end, sn, frame) ==
            Chain(chunk, nals, k, m, sn, frame) + Chain(chunk, nals, m, end, sn', frame')
    decreases m - k
  {
    if k == m {
      sn', frame' := sn, frame;
    } else {
      var now := chunk(nals[k], k, sn, frame);
      sn', frame' := ChainSplit(chunk, nals, k + 1, m, end, sn + |now|, frame + FrameOf(nals[k]));
      Assoc(now, Chain(chunk, nals, k + 1, m, sn + |now|, frame + FrameOf(nals[k])),
            Chain(chunk, nals, m, end, sn', frame'));
    }
  }

  /** The packets of NALs `a` to `b` are a contiguous run of the stream. */
  lemma SelectRange(chunk: Chunk, fragmented: bool, nals: seq<bytes>, a: nat, b: nat)
    returns (before: seq<Packet>, mine: seq<Packet>, after: seq<Packet>, sn: nat, frame: nat)
    requires Chunks(chunk, fragmented) && a <= b <= |nals|
    ensures Chain(chunk, nals, 0, |nals|, 1, 0) == before + mine + after
    ensures mine == Chain(chunk, nals, a, b, sn, frame) && sn == 1 + |before|
    ensures OrdinalsIn(before, 0, a) && OrdinalsIn(mine, a, b) && OrdinalsFrom(after, b)
    ensures Select(before + mine + after, Windows.Range(a, b)) == Raws(mine)
  {
    sn, frame := ChainSplit(chunk, nals, 0, a, |nals|, 1, 0);
    var sn', frame' := ChainSplit(chunk, nals, a, b, |nals|, sn, frame);
    before := Chain(chunk, nals, 0, a, 1, 0);
    mine := Chain(chunk, nals, a, b, sn, frame);
    after := Chain(chunk, nals, b, |nals|, sn', frame');
    Assoc(before, mine, after);
    ChainOrdinals(chunk, nals, fragmented, 0, a, 1, 0);
    ChainOrdinals(chunk, nals, fragmented, a, b, sn, frame);
    ChainOrdinals(chunk, nals, fragmented, b, |nals|, sn', frame');
    SelectParts(before, mine, after, a, b);
  }

  lemma SelectParts(before: seq<Packet>, mine: seq<Packet>, after: seq<Packet>, a: nat, b: nat)
    requires a <= b && OrdinalsIn(before, 0, a) && OrdinalsIn(mine, a, b)
    requires OrdinalsFrom(after, b)
    ensures Select(before + mine + after, Windows.Range(a, b)) == Raws(mine)
  {
    var selected := Windows.Range(a, b);
    forall n: nat ensures n in selected <==> a <= n < b {
      if a <= n < b {
        assert selected[n - a] == n;
      }
    }
    SelectNone(before, selected);
    SelectNone(after, selected);
    SelectEvery(mine, selected);
    SelectAppend(before, mine, selected);
    SelectAppend(before + mine, after, selected);
  }

  /** Any contiguous window rebuilds to exactly its own NALs, if and only if each of them survives. */
  lemma WindowRebuilds(nals: seq<bytes>, fragmented: bool, a: nat, b: nat)
    requires NonEmpty(nals) && |Stream(nals, fragmented)| < 0x1_0000 && a <= b <= |nals|
    ensures RebuiltNals(Select(Stream(nals, fragmented), Windows.Range(a, b))) == Ok(nals[a..b]) <==>
            forall k :: a <= k < b ==> Survives(nals[k], fragmented)
  {
    ChunkOfChunks(fragmented);
    var before, mine, after, sn, frame := SelectRange(ChunkOf(fragmented), fragmented, nals, a, b);
    RangeCarries(ChunkOf(fragmented), nals, fragmented, a, b, sn, frame);
    RunExactly(Raws(mine), nals[a..b], fragmented, a, sn);
    assert forall k :: a <= k < b ==> nals[a..b][k - a] == nals[k];
    assert forall k :: 0 <= k < b - a ==> nals[a..b][k] == nals[a + k];
  }

  function SelectEach(packets: seq<Packet>, windows: seq<seq<nat>>): seq<bytes> {
    if windows == [] then [] else Select(packets, windows[0]) + SelectEach(packets, windows[1..])
  }

  lemma {:induction false} SelectEachAppend(packets: seq<Packet>, windows: seq<seq<nat>>, w: seq<nat>)
    ensures SelectEach(packets, windows + [w]) == SelectEach(packets, windows) + Select(packets, w)
  {
    if windows == [] {
      assert windows + [w] == [w];
      assert SelectEach(packets, [w]) == Select(packets, w) + SelectEach(packets, []);
    } else {
      assert (windows + [w])[1..] == windows[1..] + [w];
      SelectEachAppend(packets, windows[1..], w);
      Assoc(Select(packets, windows[0]), SelectEach(packets, windows[1..]), Select(packets, w));
    }
  }

  lemma {:induction false} WindowsTile(
    chunk: Chunk, fragmented: bool, nals: seq<bytes>, all: seq<Packet>, begins: seq<nat>, n: nat)
    requires Chunks(chunk, fragmented) && all == Chain(chunk, nals, 0, |nals|, 1, 0)
    requires Windows.Ascending(begins, n) && n <= |nals|
    ensures SelectEach(all, Windows.WindowsFrom(begins, n)) == Select(all, Windows.Range(0, n))
    decreases |begins|
  {
    var m := |begins| - 1;
    SelectEachAppend(all, Windows.Closed(begins), Windows.Range(begins[m], n));
    if m > 0 {
      WindowsTile(chunk, fragmented, nals, all, begins[..m], begins[m]);
      assert Windows.Closed(begins) == Windows.WindowsFrom(begins[..m], begins[m]);
      SelectSplits(chunk, fragmented, nals, all, begins[m], n);
    } else {
      assert SelectEach(all, []) + Select(all, Windows.Range(0, n)) == Select(all, Windows.Range(0, n));
    }
  }

  lemma SelectSplits(chunk: Chunk, fragmented: bool, nals: seq<bytes>, all: seq<Packet>, p: nat, n: nat)
    requires Chunks(chunk, fragmented) && all == Chain(chunk, nals, 0, |nals|, 1, 0) && p <= n <= |nals|
    ensures Select(all, Windows.Range(0, n)) == Select(all, Windows.Range(0, p)) + Select(all, Windows.Range(p, n))
  {
    var a, b, c, sn, frame := SelectRange(chunk, fragmented, nals, p, n);
    PartsSplit(a, b, c, p, n);
  }

  lemma PartsSplit(a: seq<Packet>, b: seq<Packet>, c: seq<Packet>, p: nat, n: nat)
    requires p <= n && OrdinalsIn(a, 0, p) && OrdinalsIn(b, p, n) && OrdinalsFrom(c, n)
    ensures var all := a + b + c;
            Select(all, Windows.Range(0, n)) == Select(all, Windows.Range(0, p)) + Select(all, Windows.Range(p, n))
  {
    SelectParts([], a + b, c, 0, n);
    NothingBefore(a + b);
    SelectParts([], a, b + c, 0, p);
    NothingBefore(a);
    Assoc(a, b, c);
    SelectParts(a, b, c, p, n);
    RawsAppend(a, b);
  }

  lemma NothingBefore(a: seq<Packet>)
    ensures [] + a == a
  {
  }

  /** The oracle's run over a stream that survives: each window's packets rebuild that window's NALs, and
      the windows' packets put together are all packets, each once and in order. */
  lemma WindowByWindow(nals: seq<bytes>, fragmented: bool)
    requires NonEmpty(nals) && |Stream(nals, fragmented)| < 0x1_0000
    requires forall k :: 0 <= k < |nals| ==> Survives(nals[k], fragmented)
    ensures var all, windows := Stream(nals, fragmented), Windows.WindowsOf(nals);
            && SelectEach(all, windows) == Raws(all)
            && forall w :: 0 <= w < |windows| ==> RebuildsWindow(all, nals, windows[w])
  {
    var all, begins, windows := Stream(nals, fragmented), Windows.Begins(nals, |nals|), Windows.WindowsOf(nals);
    Windows.WindowsAreIndependent(nals);
    ChunkOfChunks(fragmented);
    EveryPacketOnce(ChunkOf(fragmented), fragmented, nals, begins);
    forall w | 0 <= w < |windows| ensures RebuildsWindow(all, nals, windows[w]) {
      var from, to := begins[w], Windows.End(begins, |nals|, w);
      WindowRebuilds(nals, fragmented, from, to);
      assert windows[w] == Windows.Range(from, to);
    }
  }

  lemma EveryPacketOnce(chunk: Chunk, fragmented: bool, nals: seq<bytes>, begins: seq<nat>)
    requires Chunks(chunk, fragmented) && Windows.Ascending(begins, |nals|)
    ensures var all := Chain(chunk, nals, 0, |nals|, 1, 0);
      SelectEach(all, Windows.WindowsFrom(begins, |nals|)) == Raws(all)
  {
    var all := Chain(chunk, nals, 0, |nals|, 1, 0);
    WindowsTile(chunk, fragmented, nals, all, begins, |nals|);
    ChainOrdinals(chunk, nals, fragmented, 0, |nals|, 1, 0);
    SelectParts([], all, [], 0, |nals|);
    assert [] + all + [] == all;
  }

  /** The packets selected by a window of consecutive ordinals rebuild the NALs with those ordinals. */
  ghost predicate RebuildsWindow(all: seq<Packet>, nals: seq<bytes>, w: seq<nat>) {
    exists a, b :: 0 <= a <= b <= |nals| && w == Windows.Range(a, b) && RebuiltNals(Select(all, w)) == Ok(nals[a..b])
  }
}
