/** The tables that the retained objects hold, read back from their bytes, and what an auditor then knows. */
module RecordingWindowObjects {
  import opened Bytes
  import opened Wire
  import opened Tables
  import opened RecordingWindow
  import opened RecordingWindowLaws
  import Mp4

  predicate Fits(n: nat) {
    n < 0x1_0000_0000_0000_0000
  }

  predicate SpanFits(s: Span) {
    Fits(s.from) && Fits(s.to)
  }

  // ---------------------------------------------------------------- packets

  function PacketSize(p: Numbered): nat {
    24 + |p.wire|
  }

  predicate PacketOk(p: Numbered, before: seq<Numbered>) {
    p.number == |before| + 1 && Fits(p.number) && Fits(|p.wire|)
  }

  /** A packet whose arrival time is its number. */
  function PacketIn(data: bytes): nat -> Option<Numbered> {
    (p: nat) => PacketAt(data, p)
  }

  function PacketAt(data: bytes, p: nat): Option<Numbered> {
    var number, time, size := NumberAt(data, p), NumberAt(data, p + 8), NumberAt(data, p + 16);
    if size.None? || number != time || p + 24 + size.value > |data| then None
    else Some(Numbered(number.value, data[p + 24..p + 24 + size.value]))
  }

  lemma PacketExactly(data: bytes, p: nat, q: Numbered)
    requires Fits(q.number) && Fits(|q.wire|)
    ensures PacketAt(data, p) == Some(q) <==> Holds(data, p, PacketBytes(q))
  {
    var number, size := BE(8, q.number), BE(8, |q.wire|);
    HoldsApart(data, p, number, number + (size + q.wire));
    HoldsApart(data, p + 8, number, size + q.wire);
    HoldsApart(data, p + 16, size, q.wire);
    NumberExactly(data, p, q.number);
    NumberExactly(data, p + 8, q.number);
    NumberExactly(data, p + 16, |q.wire|);
  }

  function PacketsIn(data: bytes): Option<seq<bytes>> {
    var n := NumberAt(data, 0);
    if n.None? then None
    else
      var t := TableAt(PacketIn(data), PacketSize, PacketOk, 8, n.value);
      if t.Some? && t.value.end == |data| then Some(Wires(t.value.entries)) else None
  }

  function Wires(ps: seq<Numbered>): (r: seq<bytes>)
    ensures |r| == |ps|
  {
    seq(|ps|, i requires 0 <= i < |ps| => ps[i].wire)
  }

  lemma PacketsAreRead(data: bytes)
    ensures Reads(data, PacketIn(data), PacketSize, PacketOk, PacketBytes)
  {
    forall q, before | PacketOk(q, before) ensures ReadsOne(data, PacketIn(data), PacketSize, PacketBytes, q) {
      forall p: nat ensures PacketIn(data)(p) == Some(q) <==> Holds(data, p, PacketBytes(q)) {
        PacketExactly(data, p, q);
      }
    }
  }

  lemma {:induction false} NumberedPass(ps: seq<Numbered>)
    requires forall i :: 0 <= i < |ps| ==> ps[i].number == i + 1 && Fits(i + 1) && Fits(|ps[i].wire|)
    ensures AllOk(PacketOk, ps)
    decreases |ps|
  {
    if ps != [] {
      NumberedPass(ps[..|ps| - 1]);
    }
  }

  /** A table, behind its count and with nothing behind it, is read back. */
  lemma CountedTable<E(!new)>(
    data: bytes, read: nat -> Option<E>, size: E -> nat, ok: (E, seq<E>) -> bool, code: E -> bytes, es: seq<E>)
    requires Fits(|es|) && Reads(data, read, size, ok, code) && AllOk(ok, es) && data == BE(8, |es|) + Written(code, es)
    ensures NumberAt(data, 0) == Some(|es|) && TableAt(read, size, ok, 8, |es|) == Some(Table(es, |data|))
  {
    WholeIsHeld(data, data);
    HoldsApart(data, 0, BE(8, |es|), Written(code, es));
    NumberExactly(data, 0, |es|);
    TableExactly(data, read, size, ok, code, 8, es, |data|);
  }

  /** The source object's table gives back the packets. */
  lemma PacketsReadBack(packets: seq<bytes>)
    requires Fits(|packets|) && forall i :: 0 <= i < |packets| ==> Fits(|packets[i]|)
    ensures PacketsIn(PacketTable(packets)) == Some(packets)
  {
    var data, ps := PacketTable(packets), Number(packets);
    PacketsAreRead(data);
    forall i | 0 <= i < |ps| ensures ps[i].number == i + 1 && Fits(i + 1) && Fits(|ps[i].wire|) {
      assert ps[i] == Numbered(i + 1, packets[i]);
    }
    NumberedPass(ps);
    CountedTable(data, PacketIn(data), PacketSize, PacketOk, PacketBytes, ps);
    assert Wires(ps) == packets;
  }

  // ---------------------------------------------------------------- spans and sources

  function SpanAt(data: bytes, p: nat): Option<Span> {
    var from, to := NumberAt(data, p), NumberAt(data, p + 8);
    if to.None? then None else Some(Span(from.value, to.value))
  }

  lemma SpanExactly(data: bytes, p: nat, s: Span)
    requires SpanFits(s)
    ensures |SpanBytes(s)| == 16 && (SpanAt(data, p) == Some(s) <==> Holds(data, p, SpanBytes(s)))
  {
    HoldsApart(data, p, BE(8, s.from), BE(8, s.to));
    NumberExactly(data, p, s.from);
    NumberExactly(data, p + 8, s.to);
  }

  function SourceSize(s: Source): nat {
    if s.fragment then 57 else 41
  }

  predicate SourceOk(s: Source, before: seq<Source>) {
    Fits(s.packet) && SpanFits(s.wire) && SpanFits(s.nal)
  }

  /** Whether a fragment's prefix is recorded at `p`. */
  function MarkAt(data: bytes, p: nat): Option<bool> {
    if p >= |data| then None
    else if data[p] == 0 then Some(false)
    else if data[p] == 1 && SpanAt(data, p + 1) == Some(Span(12, 14)) then Some(true)
    else None
  }

  function MarkBytes(fragment: bool): bytes {
    if fragment then [1] + SpanBytes(Span(12, 14)) else [0]
  }

  lemma MarkExactly(data: bytes, p: nat, fragment: bool)
    ensures MarkAt(data, p) == Some(fragment) <==> Holds(data, p, MarkBytes(fragment))
    ensures |MarkBytes(fragment)| == if fragment then 17 else 1
  {
    if fragment {
      MarkedSpan(data, p, Span(12, 14));
    } else if p < |data| {
      assert data[p..p + 1] == [data[p]];
    }
  }

  lemma MarkedSpan(data: bytes, p: nat, s: Span)
    requires SpanFits(s)
    ensures Holds(data, p, [1] + SpanBytes(s)) <==> p < |data| && data[p] == 1 && SpanAt(data, p + 1) == Some(s)
    ensures |[1] + SpanBytes(s)| == 17
  {
    SpanExactly(data, p + 1, s);
    HoldsApart(data, p, [1], SpanBytes(s));
  }

  function SourceAt(data: bytes, p: nat): Option<Source> {
    var packet, wire, nal, mark := NumberAt(data, p), SpanAt(data, p + 8), SpanAt(data, p + 24), MarkAt(data, p + 40);
    if mark.None? then None else Some(Source(packet.value, wire.value, nal.value, mark.value))
  }

  lemma SourceExactly(data: bytes, p: nat, s: Source)
    requires SourceOk(s, [])
    ensures SourceAt(data, p) == Some(s) <==> Holds(data, p, SourceBytes(s))
    ensures |SourceBytes(s)| == SourceSize(s)
  {
    var mark := MarkBytes(s.fragment);
    NumberExactly(data, p, s.packet);
    SpanExactly(data, p + 8, s.wire);
    SpanExactly(data, p + 24, s.nal);
    MarkExactly(data, p + 40, s.fragment);
    SourceParts(data, p, BE(8, s.packet), SpanBytes(s.wire), SpanBytes(s.nal), mark);
  }

  lemma SourceParts(data: bytes, p: nat, packet: bytes, wire: bytes, nal: bytes, mark: bytes)
    requires |packet| == 8 && |wire| == 16 && |nal| == 16
    ensures Holds(data, p, packet + (wire + (nal + mark))) <==>
      Holds(data, p, packet) && Holds(data, p + 8, wire) && Holds(data, p + 24, nal) && Holds(data, p + 40, mark)
  {
    HoldsApart(data, p, packet, wire + (nal + mark));
    HoldsApart(data, p + 8, wire, nal + mark);
    HoldsApart(data, p + 24, nal, mark);
  }

  function SourceIn(data: bytes): nat -> Option<Source> {
    (p: nat) => SourceAt(data, p)
  }

  lemma SourcesAreRead(data: bytes)
    ensures Reads(data, SourceIn(data), SourceSize, SourceOk, SourceBytes)
  {
    forall s, before | SourceOk(s, before) ensures ReadsOne(data, SourceIn(data), SourceSize, SourceBytes, s) {
      forall p: nat ensures SourceIn(data)(p) == Some(s) <==> Holds(data, p, SourceBytes(s)) {
        SourceExactly(data, p, s);
      }
      SourceExactly(data, 0, s);
    }
  }

  // ---------------------------------------------------------------- maps

  function TargetAt(data: bytes, p: nat): Option<Target> {
    var at := SpanAt(data, p + 1);
    if at.None? || data[p] > 1 then None else Some(if data[p] == 0 then InInit(at.value) else InMedia(at.value))
  }

  lemma TargetExactly(data: bytes, p: nat, t: Target)
    requires SpanFits(t.at)
    ensures |TargetBytes(t)| == 17 && (TargetAt(data, p) == Some(t) <==> Holds(data, p, TargetBytes(t)))
  {
    SpanExactly(data, p + 1, t.at);
    HoldsApart(data, p, if t.InInit? then [0] else [1], SpanBytes(t.at));
  }

  predicate MapOk(m: Map, before: seq<Map>) {
    Fits(m.ordinal) && SpanFits(m.target.at) && Fits(|m.sources|) && AllOk(SourceOk, m.sources)
  }

  function MapSize(m: Map): nat {
    41 + |Written(SourceBytes, m.sources)|
  }

  /** The map of the one sample, zero, at `p`. */
  function MapAt(data: bytes, p: nat): Option<Map> {
    var sample, ordinal := NumberAt(data, p), NumberAt(data, p + 8);
    var target, n := TargetAt(data, p + 16), NumberAt(data, p + 33);
    if n.None? || sample != Some(0) || target.None? then None
    else
      var t := TableAt(SourceIn(data), SourceSize, SourceOk, p + 41, n.value);
      if t.None? then None else Some(Map(ordinal.value, target.value, t.value.entries))
  }

  lemma MapParts(data: bytes, p: nat, sample: bytes, ordinal: bytes, target: bytes, n: bytes, rest: bytes)
    requires |sample| == 8 && |ordinal| == 8 && |target| == 17 && |n| == 8
    ensures Holds(data, p, sample + (ordinal + (target + (n + rest)))) <==>
      && Holds(data, p, sample) && Holds(data, p + 8, ordinal) && Holds(data, p + 16, target) && Holds(data, p + 33, n)
      && Holds(data, p + 41, rest)
  {
    HoldsApart(data, p, sample, ordinal + (target + (n + rest)));
    HoldsApart(data, p + 8, ordinal, target + (n + rest));
    HoldsApart(data, p + 16, target, n + rest);
    HoldsApart(data, p + 33, n, rest);
  }

  lemma SourceTable(data: bytes, at: nat, ss: seq<Source>, n: nat)
    requires at <= |data| && AllOk(SourceOk, ss)
    ensures n == |ss| && Holds(data, at, Written(SourceBytes, ss)) <==>
      var t := TableAt(SourceIn(data), SourceSize, SourceOk, at, n); t.Some? && t.value.entries == ss
  {
    SourcesAreRead(data);
    TableLength(SourceIn(data), SourceSize, SourceOk, at, n);
    TableExactly(data, SourceIn(data), SourceSize, SourceOk, SourceBytes, at, ss, at + |Written(SourceBytes, ss)|);
    var t := TableAt(SourceIn(data), SourceSize, SourceOk, at, n);
    if t.Some? && t.value.entries == ss {
      TableExactly(data, SourceIn(data), SourceSize, SourceOk, SourceBytes, at, ss, t.value.end);
    }
  }

  lemma MapExactly(data: bytes, p: nat, m: Map)
    requires MapOk(m, [])
    ensures |MapBytes(m)| == MapSize(m) && (MapAt(data, p) == Some(m) <==> Holds(data, p, MapBytes(m)))
  {
    var rest := Written(SourceBytes, m.sources);
    TargetExactly(data, p + 16, m.target);
    MapParts(data, p, BE(8, 0), BE(8, m.ordinal), TargetBytes(m.target), BE(8, |m.sources|), rest);
    NumberExactly(data, p, 0);
    NumberExactly(data, p + 8, m.ordinal);
    NumberExactly(data, p + 33, |m.sources|);
    if p + 41 <= |data| {
      SourceTable(data, p + 41, m.sources, NumberAt(data, p + 33).value);
    }
  }

  function MapIn(data: bytes): nat -> Option<Map> {
    (p: nat) => MapAt(data, p)
  }

  function MapsIn(data: bytes): Option<seq<Map>> {
    var n := NumberAt(data, 0);
    if n.None? then None
    else
      var t := TableAt(MapIn(data), MapSize, MapOk, 8, n.value);
      if t.Some? && t.value.end == |data| then Some(t.value.entries) else None
  }

  lemma MapsAreRead(data: bytes)
    ensures Reads(data, MapIn(data), MapSize, MapOk, MapBytes)
  {
    forall m, before | MapOk(m, before) ensures ReadsOne(data, MapIn(data), MapSize, MapBytes, m) {
      forall p: nat ensures MapIn(data)(p) == Some(m) <==> Holds(data, p, MapBytes(m)) {
        MapExactly(data, p, m);
      }
      MapExactly(data, 0, m);
    }
  }

  lemma {:induction false} EachPasses(maps: seq<Map>)
    requires forall i :: 0 <= i < |maps| ==> MapOk(maps[i], [])
    ensures AllOk(MapOk, maps)
    decreases |maps|
  {
    if maps != [] {
      EachPasses(maps[..|maps| - 1]);
    }
  }

  /** The index's table gives back the maps. */
  lemma MapsReadBack(maps: seq<Map>)
    requires Fits(|maps|) && forall i :: 0 <= i < |maps| ==> MapOk(maps[i], [])
    ensures MapsIn(MapTable(maps)) == Some(maps)
  {
    var data := MapTable(maps);
    MapsAreRead(data);
    EachPasses(maps);
    CountedTable(data, MapIn(data), MapSize, MapOk, MapBytes, maps);
  }

  // ---------------------------------------------------------------- every built window fits its fields

  lemma {:induction false} SourcesPass(ss: seq<Source>)
    requires forall i :: 0 <= i < |ss| ==> SourceOk(ss[i], [])
    ensures AllOk(SourceOk, ss)
    decreases |ss|
  {
    if ss != [] {
      SourcesPass(ss[..|ss| - 1]);
    }
  }

  lemma {:induction false} CursorGrows(nals: seq<bytes>, m: nat, n: nat)
    requires m <= n <= |nals|
    ensures Cursor(nals, m) <= Cursor(nals, n)
    decreases n
  {
    if m < n {
      CursorGrows(nals, m, n - 1);
    }
  }

  /** A sender whose packets' lengths fit 64 bits for NALs whose single packets would. */
  ghost predicate Short(send: Sender) {
    forall nal: bytes, i: nat, sn: nat :: |nal| + 12 < TWO64 ==> Fits(|send.packet(nal, i, sn)|)
  }

  lemma SenderIsShort(fragmented: bool)
    ensures Short(SenderOf(fragmented))
  {
    forall nal: bytes, i: nat, sn: nat | |nal| + 12 < TWO64 ensures Fits(|PacketOf(nal, fragmented, i, sn)|) {
      PacketFits(nal, fragmented, i, sn);
    }
  }

  lemma PacketFits(nal: bytes, fragmented: bool, i: nat, sn: nat)
    requires |nal| + 12 < TWO64
    ensures Fits(|PacketOf(nal, fragmented, i, sn)|)
  {
    var payload := PayloadOf(nal, fragmented, i);
    if Splits(nal, fragmented) && i < 3 {
      assert |payload| == 2 + Begin(nal, i + 1) - Begin(nal, i);
    }
  }

  lemma {:induction false} PacketsFit(send: Sender, nals: seq<bytes>, n: nat)
    requires Short(send) && n <= |nals| && AllShort(nals, n)
    ensures forall i :: 0 <= i < |Packets(send, nals, n)| ==> Fits(|Packets(send, nals, n)[i]|)
    decreases n
  {
    if n > 0 {
      PacketsFit(send, nals, n - 1);
      var nal, before := nals[n - 1], Packets(send, nals, n - 1);
      var mine := PacketsOf(send, nal, |before| + 1, send.parts(nal));
      forall i | 0 <= i < |mine| ensures Fits(|mine[i]|) {
        PartAt(send, nal, |before| + 1, send.parts(nal), i);
      }
    }
  }

  lemma MapFits(packets: seq<bytes>, nal: bytes, split: bool, m: Map)
    requires nal != [] && SourcesExact(packets, nal, split, m.sources) && Fits(m.ordinal) && SpanFits(m.target.at)
    requires Fits(|nal|) && Fits(|packets|) && forall i :: 0 <= i < |packets| ==> Fits(|packets[i]|)
    ensures MapOk(m, [])
  {
    forall i | 0 <= i < |m.sources| ensures SourceOk(m.sources[i], []) {
      assert Carries(packets, nal, m.sources[i]);
    }
    SourcesPass(m.sources);
  }

  // ---------------------------------------------------------------- the whole window

  /** What an auditor can check of the retained objects against the NALs: each NAL's sources are exact, the maps
      use every packet once and in order, the media is nothing but the NALs that are no parameter sets, and a
      parameter set is where its map says exactly when it is the one the segment was made from. */
  predicate Audited(w: Window, nals: seq<bytes>, fragmented: bool) {
    && |nals| >= 2 && NonEmpty(nals) && |w.maps| == |nals|
    && (forall k :: 0 <= k < |nals| ==> MapAudited(w.packets, w.initialization, w.maps[k], nals, fragmented, k))
    && Named(w.maps) == Upto(|w.packets|)
    && TargetsTile(w.maps, nals, w.media, 112)
  }

  /** The map of one NAL. */
  predicate MapAudited(packets: seq<bytes>, init: bytes, m: Map, nals: seq<bytes>, fragmented: bool, k: nat)
    requires |nals| >= 2 && NonEmpty(nals) && k < |nals|
  {
    && m.ordinal == k && SourcesExact(packets, nals[k], Splits(nals[k], fragmented), m.sources)
    && (m.target.InInit? <==> Kind(nals[k][0]) == 7 || Kind(nals[k][0]) == 8)
    && (m.target.InInit? ==> (SpanNames(init, m.target.at, nals[k]) <==> nals[k] == Made(nals, k)))
  }

  /** The parameter set that the initialization segment was made from. */
  function Made(nals: seq<bytes>, k: nat): bytes
    requires |nals| >= 2 && k < |nals| && nals[k] != []
  {
    if Kind(nals[k][0]) == 7 then nals[0] else nals[1]
  }

  lemma WindowIsAudited(nals: seq<bytes>, fragmented: bool, l: Layout)
    requires Buildable(nals, fragmented)
    ensures Audited(Built(nals, fragmented, l), nals, fragmented)
  {
    var init, send := InitSegment(l, nals[0], nals[1]), SenderOf(fragmented);
    SenderFaithful(fragmented);
    InitHolds(l, nals[0], nals[1]);
    AuditedFrom(init, send, nals, fragmented, SpanOf(init, nals[0]), SpanOf(init, nals[1]));
  }

  lemma AuditedFrom(init: bytes, send: Sender, nals: seq<bytes>, fragmented: bool, sps: Span, pps: Span)
    requires |nals| >= 2 && NonEmpty(nals) && Faithful(send, fragmented) && |Mp4.SampleOf(Mp4.Kept(nals))| + 8 < TWO32
    requires SpanNames(init, sps, nals[0]) && SpanNames(init, pps, nals[1])
    ensures Audited(Window(Packets(send, nals, |nals|), init, Media(Mp4.SampleOf(Mp4.Kept(nals))),
                           Maps(send, nals, |nals|, sps, pps)), nals, fragmented)
  {
    var packets, maps := Packets(send, nals, |nals|), Maps(send, nals, |nals|, sps, pps);
    EveryPacketOnce(send, fragmented, nals, |nals|, sps, pps);
    MediaTiled(send, nals, sps, pps);
    forall k | 0 <= k < |nals| ensures MapAudited(packets, init, maps[k], nals, fragmented, k) {
      MapExact(send, fragmented, nals, sps, pps, k);
      RecordingWindowLaws.MapAt(send, nals, |nals|, sps, pps, k);
      ParameterSetTarget(init, nals, sps, pps, maps[k].target, k, Cursor(nals, k));
    }
  }

  /** The tables in the source object and in the index give back the packets and the maps of every window that
      is built; the length of the initialization segment is the only thing that depends on its layout. */
  lemma WindowReadsBack(nals: seq<bytes>, fragmented: bool, l: Layout)
    requires Buildable(nals, fragmented) && Fits(|InitSegment(l, nals[0], nals[1])|)
    ensures var w := Built(nals, fragmented, l);
      PacketsIn(PacketTable(w.packets)) == Some(w.packets) && MapsIn(MapTable(w.maps)) == Some(w.maps)
  {
    var init, send := InitSegment(l, nals[0], nals[1]), SenderOf(fragmented);
    SenderFaithful(fragmented);
    SenderIsShort(fragmented);
    InitHolds(l, nals[0], nals[1]);
    TablesReadBack(send, nals, fragmented, SpanOf(init, nals[0]), SpanOf(init, nals[1]));
  }

  lemma TablesReadBack(send: Sender, nals: seq<bytes>, fragmented: bool, sps: Span, pps: Span)
    requires NonEmpty(nals) && Faithful(send, fragmented) && Short(send) && |Mp4.SampleOf(Mp4.Kept(nals))| + 8 < TWO32
    requires SpanFits(sps) && SpanFits(pps) && AllShort(nals, |nals|) && |Packets(send, nals, |nals|)| < TWO16
    ensures var packets, maps := Packets(send, nals, |nals|), Maps(send, nals, |nals|, sps, pps);
      PacketsIn(PacketTable(packets)) == Some(packets) && MapsIn(MapTable(maps)) == Some(maps)
  {
    var packets, maps := Packets(send, nals, |nals|), Maps(send, nals, |nals|, sps, pps);
    PacketsFit(send, nals, |nals|);
    PacketsReadBack(packets);
    NoMoreNals(send, fragmented, nals, |nals|);
    forall k | 0 <= k < |maps| ensures MapOk(maps[k], []) {
      MapExact(send, fragmented, nals, sps, pps, k);
      TargetFits(send, nals, sps, pps, k);
      MapFits(packets, nals[k], Splits(nals[k], fragmented), maps[k]);
    }
    MapsReadBack(maps);
  }

  lemma TargetFits(send: Sender, nals: seq<bytes>, sps: Span, pps: Span, k: nat)
    requires NonEmpty(nals) && |Mp4.SampleOf(Mp4.Kept(nals))| + 8 < TWO32
    requires SpanFits(sps) && SpanFits(pps) && k < |nals|
    ensures SpanFits(Maps(send, nals, |nals|, sps, pps)[k].target.at)
  {
    MediaTiled(send, nals, sps, pps);
    RecordingWindowLaws.MapAt(send, nals, |nals|, sps, pps, k);
    CursorGrows(nals, k + 1, |nals|);
    PlacedFits(nals, sps, pps, k);
  }

  lemma PlacedFits(nals: seq<bytes>, sps: Span, pps: Span, k: nat)
    requires NonEmpty(nals) && k < |nals| && Fits(Cursor(nals, k + 1)) && SpanFits(sps) && SpanFits(pps)
    ensures SpanFits(TargetOf(nals[k], Cursor(nals, k), sps, pps).at)
  {
  }

  /** There are at least as many packets as NALs. */
  lemma {:induction false} NoMoreNals(send: Sender, fragmented: bool, nals: seq<bytes>, n: nat)
    requires Faithful(send, fragmented) && n <= |nals|
    ensures n <= |Packets(send, nals, n)|
    decreases n
  {
    if n > 0 {
      NoMoreNals(send, fragmented, nals, n - 1);
    }
  }
}
