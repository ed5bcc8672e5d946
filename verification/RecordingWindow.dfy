/** scripts/check_recording_window_fixture.py, `build`: one recording window with the maps that
    lead from every NAL to the packets it came in and to the place where it is kept. */
module RecordingWindow {
  import opened Bytes
  import opened Wire
  import Mp4
  import Tables

  datatype Refusal = MissingNal | Unpackable

  datatype Span = Span(from: nat, to: nat)

  /** Bytes `nal` of a NAL travelled as bytes `wire` of a packet. */
  datatype Source = Source(packet: nat, wire: Span, nal: Span, fragment: bool)

  /** Where a NAL is kept: in the initialization segment or in the media. */
  datatype Target = InInit(at: Span) | InMedia(at: Span)

  datatype Map = Map(ordinal: nat, target: Target, sources: seq<Source>)

  /** What the retained objects are written from. */
  datatype Window = Window(packets: seq<bytes>, initialization: bytes, media: bytes, maps: seq<Map>)

  // ---------------------------------------------------------------- the initialization segment

  function Tag(s: string): Mp4.Tag
    requires |s| == 4
  {
    Mp4.TagOf(s)
  }

  /** The boxes of an initialization segment that do not depend on the stream: those in front of each box that
      leads to the configuration, and those behind the sample description and the track. */
  datatype Layout = Layout(fileType: bytes, movieHead: bytes, trackHead: bytes, mediaHead: bytes, infoHead: bytes,
                           visualHead: bytes, emptyTables: bytes, movieEnd: bytes)

  function Config(sps: bytes, pps: bytes): bytes
    requires |sps| >= 4
  {
    [1, sps[1], sps[2], sps[3], 255, 225] + (BE(2, |sps|) + (sps + ([1] + (BE(2, |pps|) + pps))))
  }

  function SampleTables(l: Layout, config: bytes): bytes {
    var visual := Mp4.Box(Tag("avc1"), l.visualHead + Mp4.Box(Tag("avcC"), config));
    Mp4.Full(Tag("stsd"), 0, BE(4, 1) + visual) + l.emptyTables
  }

  function Mdia(l: Layout, config: bytes): bytes {
    Mp4.Box(Tag("mdia"), l.mediaHead + Mp4.Box(Tag("minf"), l.infoHead + Mp4.Box(Tag("stbl"), SampleTables(l, config))))
  }

  function InitSegment(l: Layout, sps: bytes, pps: bytes): bytes
    requires |sps| >= 4
  {
    var trak := Mp4.Box(Tag("trak"), l.trackHead + Mdia(l, Config(sps, pps)));
    l.fileType + Mp4.Box(Tag("moov"), l.movieHead + (trak + l.movieEnd))
  }

  /** `data.index(part)`: the first place where `part` stands, from `at` on. */
  function IndexFrom(data: bytes, part: bytes, at: nat): (r: Option<nat>)
    ensures r.Some? ==> at <= r.value && Holds(data, r.value, part)
    ensures forall k: nat :: at <= k && (r.None? || k < r.value) ==> !Holds(data, k, part)
    decreases |data| - at
  {
    if at + |part| > |data| then None
    else if Holds(data, at, part) then Some(at)
    else IndexFrom(data, part, at + 1)
  }

  function SpanOf(data: bytes, part: bytes): Span {
    var at := IndexFrom(data, part, 0);
    if at.None? then Span(0, 0) else Span(at.value, at.value + |part|)
  }

  // ---------------------------------------------------------------- packets and their sources

  predicate Splits(nal: bytes, fragmented: bool) {
    nal != [] && fragmented && IsVcl(nal[0])
  }

  function Third(nal: bytes): nat {
    if nal == [] then 0 else (|nal| - 1) / 3
  }

  /** Where the parts of a NAL sent in three pieces begin; part 3 would begin at its end. */
  function Begin(nal: bytes, i: nat): (r: nat)
    ensures r <= |nal|
  {
    if i >= 3 || nal == [] then |nal| else if i == 0 then 1 else if i == 1 then 1 + Third(nal) else 1 + 2 * Third(nal)
  }

  /** Start and end bits of the three pieces. */
  const FLAGS: bytes := [128, 0, 64]

  function FuHead(header: byte, i: nat): bytes
    requires i < 3
  {
    [header / 32 % 4 * 32 + 28, Kind(header) + FLAGS[i]]
  }

  function PartCount(nal: bytes, fragmented: bool): nat {
    if Splits(nal, fragmented) then 3 else 1
  }

  function PayloadOf(nal: bytes, fragmented: bool, i: nat): bytes {
    if Splits(nal, fragmented) && i < 3 then FuHead(nal[0], i) + nal[Begin(nal, i)..Begin(nal, i + 1)] else nal
  }

  function WireOf(payload: bytes, marker: bool, sn: nat): (r: bytes)
    ensures |r| == 12 + |payload| && r[12..] == payload
  {
    var head: bytes := [128, if marker then 224 else 96] + BE(2, sn) + BE(4, 90000) + BE(4, 7);
    head + payload
  }

  function PacketOf(nal: bytes, fragmented: bool, i: nat, sn: nat): bytes {
    WireOf(PayloadOf(nal, fragmented, i), nal != [] && IsVcl(nal[0]) && i == PartCount(nal, fragmented) - 1, sn)
  }

  function SourceOf(nal: bytes, fragmented: bool, i: nat, sn: nat): Source {
    if Splits(nal, fragmented) && i < 3 then
      Source(sn, Span(14, 14 + Begin(nal, i + 1) - Begin(nal, i)), Span(Begin(nal, i), Begin(nal, i + 1)), true)
    else Source(sn, Span(12, 12 + |nal|), Span(0, |nal|), false)
  }

  /** How NALs are sent: in how many parts, and the packet and the source of each part under its number. */
  datatype Sender = Sender(parts: bytes -> nat, packet: (bytes, nat, nat) -> bytes, source: (bytes, nat, nat) -> Source)

  function SenderOf(fragmented: bool): Sender {
    Sender((nal: bytes) => PartCount(nal, fragmented),
           (nal: bytes, i: nat, sn: nat) => PacketOf(nal, fragmented, i, sn),
           (nal: bytes, i: nat, sn: nat) => SourceOf(nal, fragmented, i, sn))
  }

  ghost predicate IsSender(send: Sender, fragmented: bool) {
    forall nal: bytes, i: nat, sn: nat :: SendsPart(send, fragmented, nal, i, sn)
  }

  predicate SendsPart(send: Sender, fragmented: bool, nal: bytes, i: nat, sn: nat) {
    && send.parts(nal) == PartCount(nal, fragmented) && send.packet(nal, i, sn) == PacketOf(nal, fragmented, i, sn)
    && send.source(nal, i, sn) == SourceOf(nal, fragmented, i, sn)
  }

  lemma SenderIsSender(fragmented: bool)
    ensures IsSender(SenderOf(fragmented), fragmented)
  {
  }

  /** The first `n` packets of a NAL, numbered from `sn`, and what each carries of it. */
  function PacketsOf(send: Sender, nal: bytes, sn: nat, n: nat): (r: seq<bytes>)
    ensures |r| == n
  {
    if n == 0 then [] else PacketsOf(send, nal, sn, n - 1) + [send.packet(nal, n - 1, sn + n - 1)]
  }

  function SourcesOf(send: Sender, nal: bytes, sn: nat, n: nat): (r: seq<Source>)
    ensures |r| == n
  {
    if n == 0 then [] else SourcesOf(send, nal, sn, n - 1) + [send.source(nal, n - 1, sn + n - 1)]
  }

  /** The packets of the first `n` NALs. */
  function Packets(send: Sender, nals: seq<bytes>, n: nat): seq<bytes>
    requires n <= |nals|
  {
    if n == 0 then []
    else
      var before := Packets(send, nals, n - 1);
      before + PacketsOf(send, nals[n - 1], |before| + 1, send.parts(nals[n - 1]))
  }

  /** The place in the media after the first `n` NALs. */
  function Cursor(nals: seq<bytes>, n: nat): nat
    requires n <= |nals|
  {
    if n == 0 then 112
    else Cursor(nals, n - 1) + if Mp4.IsKept(nals[n - 1]) then 4 + |nals[n - 1]| else 0
  }

  function TargetOf(nal: bytes, cursor: nat, sps: Span, pps: Span): Target {
    if nal != [] && Kind(nal[0]) == 7 then InInit(sps)
    else if nal != [] && Kind(nal[0]) == 8 then InInit(pps)
    else InMedia(Span(cursor + 4, cursor + 4 + |nal|))
  }

  function MapOf(send: Sender, nals: seq<bytes>, k: nat, sps: Span, pps: Span): Map
    requires k < |nals|
  {
    var sn := |Packets(send, nals, k)| + 1;
    Map(k, TargetOf(nals[k], Cursor(nals, k), sps, pps), SourcesOf(send, nals[k], sn, send.parts(nals[k])))
  }

  /** The maps of the first `n` NALs. */
  function Maps(send: Sender, nals: seq<bytes>, n: nat, sps: Span, pps: Span): (r: seq<Map>)
    requires n <= |nals|
    ensures |r| == n
  {
    if n == 0 then [] else Maps(send, nals, n - 1, sps, pps) + [MapOf(send, nals, n - 1, sps, pps)]
  }

  /** The media of one sample that lasts 3600 ticks. */
  function Media(payload: bytes): bytes {
    Mp4.Fragment(1, Mp4.Row(|payload|, 0x0200_0000, 0), payload, 1, 0)
  }

  // ---------------------------------------------------------------- the objects' bytes

  function SpanBytes(s: Span): bytes {
    BE(8, s.from) + BE(8, s.to)
  }

  function SourceBytes(s: Source): bytes {
    var indicator := if s.fragment then [1] + SpanBytes(Span(12, 14)) else [0];
    BE(8, s.packet) + (SpanBytes(s.wire) + (SpanBytes(s.nal) + indicator))
  }

  function TargetBytes(t: Target): bytes {
    (if t.InInit? then [0] else [1]) + SpanBytes(t.at)
  }

  function MapBytes(m: Map): bytes {
    var sources := BE(8, |m.sources|) + Tables.Written(SourceBytes, m.sources);
    BE(8, 0) + (BE(8, m.ordinal) + (TargetBytes(m.target) + sources))
  }

  /** A packet with its number, which is also its arrival time. */
  datatype Numbered = Numbered(number: nat, wire: bytes)

  function PacketBytes(p: Numbered): bytes {
    BE(8, p.number) + (BE(8, p.number) + (BE(8, |p.wire|) + p.wire))
  }

  function Number(packets: seq<bytes>): (r: seq<Numbered>)
    ensures |r| == |packets|
  {
    seq(|packets|, i requires 0 <= i < |packets| => Numbered(i + 1, packets[i]))
  }

  /** The packets as the source object holds them, and the maps as the index does, behind their number. */
  function PacketTable(packets: seq<bytes>): bytes {
    BE(8, |packets|) + Tables.Written(PacketBytes, Number(packets))
  }

  function MapTable(maps: seq<Map>): bytes {
    BE(8, |maps|) + Tables.Written(MapBytes, maps)
  }

  // ---------------------------------------------------------------- what can be built

  /** The two parameter sets come first, no NAL is empty, and every length fits the field it is packed into. */
  predicate Buildable(nals: seq<bytes>, fragmented: bool) {
    && |nals| >= 2 && NonEmpty(nals) && 4 <= |nals[0]| < TWO16 && |nals[1]| < TWO16
    && |Mp4.SampleOf(Mp4.Kept(nals))| + 8 < TWO32 && AllShort(nals, |nals|)
    && |Packets(SenderOf(fragmented), nals, |nals|)| < TWO16
  }

  predicate AllShort(nals: seq<bytes>, n: nat)
    requires n <= |nals|
  {
    forall k :: 0 <= k < n ==> |nals[k]| + 12 < TWO64
  }

  function Built(nals: seq<bytes>, fragmented: bool, l: Layout): Window
    requires Buildable(nals, fragmented)
  {
    var init, send := InitSegment(l, nals[0], nals[1]), SenderOf(fragmented);
    Window(Packets(send, nals, |nals|), init, Media(Mp4.SampleOf(Mp4.Kept(nals))),
           Maps(send, nals, |nals|, SpanOf(init, nals[0]), SpanOf(init, nals[1])))
  }

  // ---------------------------------------------------------------- the loops

  datatype Sent = Sent(packets: seq<bytes>, sources: seq<Source>)

  /** One packet of a NAL, and what it adds to the part received so far. */
  method SendPart(ghost send: Sender, nal: bytes, fragmented: bool, i: nat, number: nat, received: bytes)
    returns (wire: bytes, source: Source, now: bytes)
    requires IsSender(send, fragmented)
    requires nal != [] && i < PartCount(nal, fragmented) && received == Received(nal, fragmented, i)
    ensures wire == send.packet(nal, i, number) && source == send.source(nal, i, number)
    ensures now == Received(nal, fragmented, i + 1)
  {
    assert SendsPart(send, fragmented, nal, i, number);
    var n := PartCount(nal, fragmented);
    var payload := PayloadOf(nal, fragmented, i);
    wire := WireOf(payload, IsVcl(nal[0]) && i == n - 1, number);
    if n == 1 {
      source := Source(number, Span(12, |wire|), Span(0, |nal|), false);
      now := payload;
    } else {
      now := received + payload[2..];
      PartJoins(nal, i);
      source := Source(number, Span(14, |wire|), Span(|received|, |now|), true);
    }
  }

  lemma PartJoins(nal: bytes, i: nat)
    requires IsVclNal(nal) && i < 3
    ensures var part := FuHead(nal[0], i) + nal[Begin(nal, i)..Begin(nal, i + 1)];
      nal[..Begin(nal, i)] + part[2..] == nal[..Begin(nal, i + 1)]
  {
    var part := FuHead(nal[0], i) + nal[Begin(nal, i)..Begin(nal, i + 1)];
    assert part[2..] == nal[Begin(nal, i)..Begin(nal, i + 1)];
  }

  predicate IsVclNal(nal: bytes) {
    nal != [] && IsVcl(nal[0])
  }

  function Received(nal: bytes, fragmented: bool, i: nat): bytes
    requires nal != [] && i <= PartCount(nal, fragmented)
  {
    if Splits(nal, fragmented) then nal[..Begin(nal, i)] else if i == 0 then [] else nal
  }

  /** The packets of one NAL, with what each of them carries of it. */
  method SendNal(ghost send: Sender, nal: bytes, fragmented: bool, sn: nat) returns (r: Option<Sent>)
    requires IsSender(send, fragmented) && nal != [] && 0 < sn <= TWO16
    ensures var n := send.parts(nal);
      r == if sn + n <= TWO16 then Some(Sent(PacketsOf(send, nal, sn, n), SourcesOf(send, nal, sn, n))) else None
  {
    var n := PartCount(nal, fragmented);
    PartsAgree(send, fragmented, nal);
    var packets: seq<bytes>, sources: seq<Source> := [], [];
    var reconstructed := if n == 1 then [] else nal[..1];
    for i := 0 to n
      invariant sn + i <= TWO16
      invariant packets == PacketsOf(send, nal, sn, i) && sources == SourcesOf(send, nal, sn, i)
      invariant reconstructed == Received(nal, fragmented, i)
    {
      if sn + i >= TWO16 {
        return None;
      }
      var wire, source;
      wire, source, reconstructed := SendPart(send, nal, fragmented, i, sn + i, reconstructed);
      packets, sources := packets + [wire], sources + [source];
    }
    assert reconstructed == nal;
    r := Some(Sent(packets, sources));
  }

  lemma PartsAgree(send: Sender, fragmented: bool, nal: bytes)
    requires IsSender(send, fragmented)
    ensures send.parts(nal) == PartCount(nal, fragmented)
  {
    assert SendsPart(send, fragmented, nal, 0, 0);
  }

  /** The packets of the next NAL, or that they no longer fit. */
  method SendNext(ghost send: Sender, nals: seq<bytes>, fragmented: bool, k: nat, packets: seq<bytes>)
    returns (r: Option<Sent>)
    requires IsSender(send, fragmented) && NonEmpty(nals) && k < |nals| && packets == Packets(send, nals, k)
    requires |packets| < TWO16
    ensures r.None? ==> !AllShort(nals, |nals|) || |Packets(send, nals, |nals|)| >= TWO16
    ensures r.Some? ==> |nals[k]| + 12 < TWO64 && |packets| + |r.value.packets| < TWO16
    ensures r.Some? ==> packets + r.value.packets == Packets(send, nals, k + 1)
    ensures r.Some? ==> r.value.sources == SourcesOf(send, nals[k], |packets| + 1, send.parts(nals[k]))
  {
    PacketsGrow(send, nals, k + 1, |nals|);
    if |nals[k]| + 12 >= TWO64 {
      return None;
    }
    r := SendNal(send, nals[k], fragmented, |packets| + 1);
  }

  /** Where the next NAL is kept, and where the one after it would be. */
  method Place(nals: seq<bytes>, k: nat, cursor: nat, sps: Span, pps: Span) returns (target: Target, now: nat)
    requires k < |nals| && nals[k] != [] && cursor == Cursor(nals, k)
    ensures target == TargetOf(nals[k], cursor, sps, pps) && now == Cursor(nals, k + 1)
  {
    now := cursor;
    if Kind(nals[k][0]) == 7 {
      target := InInit(sps);
    } else if Kind(nals[k][0]) == 8 {
      target := InInit(pps);
    } else {
      target := InMedia(Span(cursor + 4, cursor + 4 + |nals[k]|));
      now := cursor + 4 + |nals[k]|;
    }
  }

  method BuildMaps(ghost send: Sender, nals: seq<bytes>, fragmented: bool, sps: Span, pps: Span)
    returns (r: Option<(seq<bytes>, seq<Map>, nat)>)
    requires IsSender(send, fragmented) && NonEmpty(nals)
    ensures var n := |nals|;
      r == if AllShort(nals, n) && |Packets(send, nals, n)| < TWO16
           then Some((Packets(send, nals, n), Maps(send, nals, n, sps, pps), Cursor(nals, n))) else None
  {
    var packets: seq<bytes>, maps: seq<Map>, cursor := [], [], 112;
    for ordinal := 0 to |nals|
      invariant AllShort(nals, ordinal) && |packets| < TWO16
      invariant packets == Packets(send, nals, ordinal) && maps == Maps(send, nals, ordinal, sps, pps)
      invariant cursor == Cursor(nals, ordinal)
    {
      var sent := SendNext(send, nals, fragmented, ordinal, packets);
      if sent.None? {
        return None;
      }
      packets := packets + sent.value.packets;
      var target;
      target, cursor := Place(nals, ordinal, cursor, sps, pps);
      maps := maps + [Map(ordinal, target, sent.value.sources)];
    }
    r := Some((packets, maps, cursor));
  }

  lemma {:induction false} PacketsGrow(send: Sender, nals: seq<bytes>, m: nat, n: nat)
    requires m <= n <= |nals|
    ensures |Packets(send, nals, m)| <= |Packets(send, nals, n)|
    decreases n
  {
    if m < n {
      PacketsGrow(send, nals, m, n - 1);
    }
  }
}
