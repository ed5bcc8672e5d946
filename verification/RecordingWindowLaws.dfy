/** What the maps of a recording window promise: every NAL is covered by its packets, and kept where they say. */
module RecordingWindowLaws {
  import opened Bytes
  import opened Wire
  import Mp4
  import Mp4Walk
  import opened RecordingWindow

  // ---------------------------------------------------------------- from packets to NALs

  /** The bytes a source names in its packet, up to the packet's end, are those it names in the NAL. */
  predicate Carries(packets: seq<bytes>, nal: bytes, s: Source) {
    && 1 <= s.packet <= |packets|
    && s.wire.from <= s.wire.to == |packets[s.packet - 1]|
    && s.nal.from <= s.nal.to <= |nal|
    && packets[s.packet - 1][s.wire.from..s.wire.to] == nal[s.nal.from..s.nal.to]
  }

  /** The two bytes in front of a fragment say that it is one, which end of the NAL it is, and the NAL's header. */
  predicate FragmentHead(packet: bytes, header: byte, first: bool, last: bool) {
    && |packet| >= 14 && Kind(packet[12]) == 28
    && (packet[13] >= 128 <==> first) && (packet[13] / 64 % 2 == 1 <==> last)
    && packet[12] / 32 % 4 * 32 + Kind(packet[13]) == header % 128
  }

  /** The spans follow one another from `at` to `end`. */
  predicate Tile(sources: seq<Source>, at: nat, end: nat)
    decreases |sources|
  {
    if sources == [] then at == end
    else sources[0].nal.from == at && at <= sources[0].nal.to && Tile(sources[1..], sources[0].nal.to, end)
  }

  /** The sources of one NAL: three fragments behind its header, or one packet with all of it. */
  predicate SourcesExact(packets: seq<bytes>, nal: bytes, split: bool, sources: seq<Source>)
    requires nal != []
  {
    && |sources| == (if split then 3 else 1)
    && Tile(sources, if split then 1 else 0, |nal|)
    && forall i :: 0 <= i < |sources| ==>
         && Carries(packets, nal, sources[i]) && sources[i].fragment == split
         && sources[i].wire.from == (if split then 14 else 12)
         && (split ==> FragmentHead(packets[sources[i].packet - 1], nal[0], i == 0, i == 2))
  }

  /** Each part of a NAL travels in its packet as its source says. */
  ghost predicate Faithful(send: Sender, fragmented: bool) {
    && (forall nal: bytes :: send.parts(nal) == if Splits(nal, fragmented) then 3 else 1)
    && forall nal: bytes, i: nat, sn: nat :: nal != [] && i < send.parts(nal) ==>
         PartFaithful(send.packet(nal, i, sn), send.source(nal, i, sn), nal, Splits(nal, fragmented), i, sn)
  }

  predicate PartFaithful(p: bytes, s: Source, nal: bytes, split: bool, i: nat, sn: nat)
    requires nal != []
  {
    && s.packet == sn && s.fragment == split && s.wire.from == (if split then 14 else 12)
    && s.wire.from <= s.wire.to == |p| && s.nal.from <= s.nal.to <= |nal|
    && p[s.wire.from..s.wire.to] == nal[s.nal.from..s.nal.to]
    && (split ==> FragmentHead(p, nal[0], i == 0, i == 2))
    && s.nal == if split then Span(Begin(nal, i), Begin(nal, i + 1)) else Span(0, |nal|)
  }

  lemma PartHolds(nal: bytes, fragmented: bool, i: nat, sn: nat)
    requires nal != [] && i < PartCount(nal, fragmented)
    ensures PartFaithful(PacketOf(nal, fragmented, i, sn), SourceOf(nal, fragmented, i, sn), nal,
      Splits(nal, fragmented), i, sn)
  {
    var p := PacketOf(nal, fragmented, i, sn);
    if Splits(nal, fragmented) {
      FragmentHolds(p, nal, FuHead(nal[0], i), i);
      HeadTells(nal[0], i);
    } else {
      assert p[12..|p|] == p[12..];
      assert nal[0..|nal|] == nal;
    }
  }

  lemma FragmentHolds(p: bytes, nal: bytes, head: bytes, i: nat)
    requires |head| == 2 && i < 3 && nal != [] && |p| >= 12 && p[12..] == head + nal[Begin(nal, i)..Begin(nal, i + 1)]
    ensures |p| == 14 + Begin(nal, i + 1) - Begin(nal, i) && p[12] == head[0] && p[13] == head[1]
    ensures p[14..|p|] == nal[Begin(nal, i)..Begin(nal, i + 1)]
  {
    var tail := p[12..];
    assert p[12] == tail[0] && p[13] == tail[1];
    assert p[14..|p|] == tail[2..];
  }

  lemma HeadTells(header: byte, i: nat)
    requires IsVcl(header) && i < 3
    ensures var head := FuHead(header, i);
      && Kind(head[0]) == 28 && (head[1] >= 128 <==> i == 0) && (head[1] / 64 % 2 == 1 <==> i == 2)
      && head[0] / 32 % 4 * 32 + Kind(head[1]) == header % 128
  {
    var high, low := header / 32 % 4, Kind(header);
    assert header % 128 == high * 32 + low;
    assert FuHead(header, i)[0] == high * 32 + 28;
    assert FuHead(header, i)[1] == low + if i == 0 then 128 else if i == 2 then 64 else 0;
    if i == 0 {
      assert (low + 128) / 64 == 2 && (low + 128) % 32 == low;
    } else if i == 1 {
      assert low / 64 == 0 && low % 32 == low;
    } else {
      assert (low + 64) / 64 == 1 && (low + 64) % 32 == low;
    }
  }

  lemma SenderFaithful(fragmented: bool)
    ensures Faithful(SenderOf(fragmented), fragmented)
  {
    forall nal: bytes, i: nat, sn: nat | nal != [] && i < PartCount(nal, fragmented)
      ensures PartFaithful(PacketOf(nal, fragmented, i, sn), SourceOf(nal, fragmented, i, sn), nal,
        Splits(nal, fragmented), i, sn)
    {
      PartHolds(nal, fragmented, i, sn);
    }
  }

  lemma {:induction false} PartAt(send: Sender, nal: bytes, sn: nat, n: nat, i: nat)
    requires i < n
    ensures PacketsOf(send, nal, sn, n)[i] == send.packet(nal, i, sn + i)
    ensures SourcesOf(send, nal, sn, n)[i] == send.source(nal, i, sn + i)
    decreases n
  {
    if i < n - 1 {
      PartAt(send, nal, sn, n - 1, i);
    }
  }

  lemma NalTiles(send: Sender, nal: bytes, fragmented: bool, sn: nat)
    requires Faithful(send, fragmented) && nal != []
    ensures Tile(SourcesOf(send, nal, sn, send.parts(nal)), if Splits(nal, fragmented) then 1 else 0, |nal|)
  {
    var n := send.parts(nal);
    var s := SourcesOf(send, nal, sn, n);
    forall i: nat | i < n
      ensures PartFaithful(send.packet(nal, i, sn + i), s[i], nal, Splits(nal, fragmented), i, sn + i)
    {
      PartAt(send, nal, sn, n, i);
    }
    if Splits(nal, fragmented) {
      TileThree(s, 1, Begin(nal, 1), Begin(nal, 2), |nal|);
    } else {
      TileOne(s, 0, |nal|);
    }
  }

  lemma TileOne(s: seq<Source>, a: nat, b: nat)
    requires |s| == 1 && s[0].nal == Span(a, b) && a <= b
    ensures Tile(s, a, b)
  {
    assert s[1..] == [];
  }

  lemma TileThree(s: seq<Source>, a: nat, b: nat, c: nat, d: nat)
    requires |s| == 3 && s[0].nal == Span(a, b) && s[1].nal == Span(b, c) && s[2].nal == Span(c, d) && a <= b <= c <= d
    ensures Tile(s, a, d)
  {
    TileOne(s[1..][1..], c, d);
    assert Tile(s[1..], b, d);
  }

  /** A NAL's sources are exact wherever its packets stand. */
  lemma NalExact(send: Sender, fragmented: bool, nal: bytes, packets: seq<bytes>, before: nat, sources: seq<Source>)
    requires Faithful(send, fragmented) && nal != [] && before + send.parts(nal) <= |packets|
    requires packets[before..before + send.parts(nal)] == PacketsOf(send, nal, before + 1, send.parts(nal))
    requires sources == SourcesOf(send, nal, before + 1, send.parts(nal))
    ensures SourcesExact(packets, nal, Splits(nal, fragmented), sources)
  {
    var sn, n, split := before + 1, send.parts(nal), Splits(nal, fragmented);
    NalTiles(send, nal, fragmented, sn);
    forall i | 0 <= i < n
      ensures var s := sources[i];
        && Carries(packets, nal, s) && s.fragment == split && s.wire.from == (if split then 14 else 12)
        && (split ==> FragmentHead(packets[s.packet - 1], nal[0], i == 0, i == 2))
    {
      PartAt(send, nal, sn, n, i);
      assert PartFaithful(send.packet(nal, i, sn + i), send.source(nal, i, sn + i), nal, split, i, sn + i);
      assert packets[before + i] == packets[before..before + n][i];
    }
  }

  lemma {:induction false} PacketsExtend(send: Sender, nals: seq<bytes>, m: nat, n: nat) returns (after: seq<bytes>)
    requires m <= n <= |nals|
    ensures Packets(send, nals, n) == Packets(send, nals, m) + after
    decreases n
  {
    if m == n {
      after := [];
    } else {
      var mid := PacketsExtend(send, nals, m, n - 1);
      after := mid + PacketsOf(send, nals[n - 1], |Packets(send, nals, n - 1)| + 1, send.parts(nals[n - 1]));
    }
  }

  lemma {:induction false} MapAt(send: Sender, nals: seq<bytes>, n: nat, sps: Span, pps: Span, k: nat)
    requires k < n <= |nals|
    ensures Maps(send, nals, n, sps, pps)[k] == MapOf(send, nals, k, sps, pps)
    decreases n
  {
    if k < n - 1 {
      MapAt(send, nals, n - 1, sps, pps, k);
    }
  }

  /** Of every NAL, the map names its place in the stream and its exact sources among all packets. */
  lemma MapExact(send: Sender, fragmented: bool, nals: seq<bytes>, sps: Span, pps: Span, k: nat)
    requires Faithful(send, fragmented) && NonEmpty(nals) && k < |nals|
    ensures var m := Maps(send, nals, |nals|, sps, pps)[k];
      m.ordinal == k && SourcesExact(Packets(send, nals, |nals|), nals[k], Splits(nals[k], fragmented), m.sources)
  {
    MapAt(send, nals, |nals|, sps, pps, k);
    AroundNal(send, nals, k);
    NalExact(send, fragmented, nals[k], Packets(send, nals, |nals|), |Packets(send, nals, k)|,
      Maps(send, nals, |nals|, sps, pps)[k].sources);
  }

  lemma AroundNal(send: Sender, nals: seq<bytes>, k: nat)
    requires k < |nals|
    ensures var all, before, n := Packets(send, nals, |nals|), |Packets(send, nals, k)|, send.parts(nals[k]);
      before + n <= |all| && all[before..before + n] == PacketsOf(send, nals[k], before + 1, n)
  {
    var after := PacketsExtend(send, nals, k + 1, |nals|);
    var before := Packets(send, nals, k);
    var mine := PacketsOf(send, nals[k], |before| + 1, send.parts(nals[k]));
    assert Packets(send, nals, k + 1) == before + mine;
    Slice(Packets(send, nals, |nals|), before, mine, after);
  }

  lemma Slice(all: seq<bytes>, a: seq<bytes>, b: seq<bytes>, c: seq<bytes>)
    requires all == a + b + c
    ensures |a| + |b| <= |all| && all[|a|..|a| + |b|] == b
  {
    var ab := a + b;
    assert all[..|ab|] == ab && all[|a|..|ab|] == ab[|a|..];
  }

  /** The packets that the maps name, map by map. */
  function Named(maps: seq<Map>): seq<nat> {
    if maps == [] then [] else Named(maps[..|maps| - 1]) + PacketNumbers(maps[|maps| - 1].sources)
  }

  function PacketNumbers(sources: seq<Source>): (r: seq<nat>)
    ensures |r| == |sources|
  {
    seq(|sources|, i requires 0 <= i < |sources| => sources[i].packet)
  }

  function Upto(n: nat): (r: seq<nat>)
    ensures |r| == n && forall i :: 0 <= i < n ==> r[i] == i + 1
  {
    seq(n, i => i + 1)
  }

  lemma NamedNext(send: Sender, fragmented: bool, nal: bytes, before: nat)
    requires Faithful(send, fragmented) && nal != []
    ensures var n := send.parts(nal);
      Upto(before) + PacketNumbers(SourcesOf(send, nal, before + 1, n)) == Upto(before + n)
  {
    var n := send.parts(nal);
    var more := PacketNumbers(SourcesOf(send, nal, before + 1, n));
    forall i | 0 <= i < n ensures more[i] == before + 1 + i {
      PartAt(send, nal, before + 1, n, i);
    }
  }

  /** Together the maps name every packet once and in order. */
  lemma {:induction false} EveryPacketOnce(
    send: Sender, fragmented: bool, nals: seq<bytes>, n: nat, sps: Span, pps: Span)
    requires Faithful(send, fragmented) && NonEmpty(nals) && n <= |nals|
    ensures Named(Maps(send, nals, n, sps, pps)) == Upto(|Packets(send, nals, n)|)
    decreases n
  {
    if n > 0 {
      EveryPacketOnce(send, fragmented, nals, n - 1, sps, pps);
      NamedSnoc(Maps(send, nals, n - 1, sps, pps), MapOf(send, nals, n - 1, sps, pps));
      NamedNext(send, fragmented, nals[n - 1], |Packets(send, nals, n - 1)|);
    }
  }

  lemma NamedSnoc(maps: seq<Map>, m: Map)
    ensures Named(maps + [m]) == Named(maps) + PacketNumbers(m.sources)
  {
    assert (maps + [m])[..|maps|] == maps;
  }

  // ---------------------------------------------------------------- from NALs to files

  /** From byte `at` of the media to its end, each map that points there does so behind a length of four bytes,
      to its own NAL, and where the one before left off. */
  predicate TargetsTile(maps: seq<Map>, nals: seq<bytes>, media: bytes, at: nat)
    requires |maps| == |nals|
    decreases |maps|
  {
    if maps == [] then at == |media|
    else if maps[0].target.InInit? then TargetsTile(maps[1..], nals[1..], media, at)
    else
      var span := maps[0].target.at;
      && span == Span(at + 4, at + 4 + |nals[0]|) && Holds(media, at, BE(4, |nals[0]|)) && Holds(media, at + 4, nals[0])
      && TargetsTile(maps[1..], nals[1..], media, span.to)
  }

  /** What one NAL adds to the media. */
  predicate KeptAt(media: bytes, nal: bytes, at: nat, next: nat) {
    if Mp4.IsKept(nal) then next == at + 4 + |nal| && Holds(media, at, BE(4, |nal|)) && Holds(media, at + 4, nal)
    else next == at
  }

  lemma SampleStep(nals: seq<bytes>, k: nat, media: bytes, at: nat) returns (next: nat)
    requires k < |nals|
    requires var rest := Mp4.SampleOf(Mp4.Kept(nals[k..])); Holds(media, at, rest) && at + |rest| == |media|
    ensures KeptAt(media, nals[k], at, next)
    ensures var rest := Mp4.SampleOf(Mp4.Kept(nals[k + 1..])); Holds(media, next, rest) && next + |rest| == |media|
  {
    var nal, whole, rest := nals[k], Mp4.SampleOf(Mp4.Kept(nals[k..])), Mp4.SampleOf(Mp4.Kept(nals[k + 1..]));
    Mp4.KeptStep(nals, k, []);
    assert [] + whole == whole && [] + rest == rest;
    if Mp4.IsKept(nal) {
      var own: bytes := BE(4, |nal|) + nal;
      assert [] + own == own;
      HeldStep(media, at, BE(4, |nal|), nal, rest);
      next := at + 4 + |nal|;
    } else {
      next := at;
    }
  }

  lemma HeldStep(media: bytes, at: nat, length: bytes, nal: bytes, rest: bytes)
    requires Holds(media, at, (length + nal) + rest)
    ensures Holds(media, at, length) && Holds(media, at + |length|, nal) && Holds(media, at + |length| + |nal|, rest)
  {
    HoldsApart(media, at, length + nal, rest);
    HoldsApart(media, at, length, nal);
  }

  lemma TargetStep(maps: seq<Map>, nals: seq<bytes>, media: bytes, at: nat, next: nat, sps: Span, pps: Span)
    requires |maps| == |nals| > 0 && nals[0] != [] && maps[0].target == TargetOf(nals[0], at, sps, pps)
    requires KeptAt(media, nals[0], at, next) && TargetsTile(maps[1..], nals[1..], media, next)
    ensures TargetsTile(maps, nals, media, at)
  {
  }

  lemma {:induction false} TargetsFrom(maps: seq<Map>, nals: seq<bytes>, sps: Span, pps: Span, media: bytes, k: nat)
    requires NonEmpty(nals) && k <= |nals| == |maps|
    requires forall i: nat :: i < |nals| ==> maps[i].target == TargetOf(nals[i], Cursor(nals, i), sps, pps)
    requires var rest := Mp4.SampleOf(Mp4.Kept(nals[k..]));
      Holds(media, Cursor(nals, k), rest) && Cursor(nals, k) + |rest| == |media|
    ensures TargetsTile(maps[k..], nals[k..], media, Cursor(nals, k)) && Cursor(nals, |nals|) == |media|
    decreases |nals| - k
  {
    if k < |nals| {
      var next := SampleStep(nals, k, media, Cursor(nals, k));
      assert next == Cursor(nals, k + 1);
      TargetsFrom(maps, nals, sps, pps, media, k + 1);
      assert maps[k..][1..] == maps[k + 1..] && nals[k..][1..] == nals[k + 1..];
      TargetStep(maps[k..], nals[k..], media, Cursor(nals, k), next, sps, pps);
    }
  }

  /** All NALs but the parameter sets, behind their lengths, fill the media from byte 112 to its end. */
  lemma MediaTiled(send: Sender, nals: seq<bytes>, sps: Span, pps: Span)
    requires NonEmpty(nals) && |Mp4.SampleOf(Mp4.Kept(nals))| + 8 < TWO32
    ensures var payload := Mp4.SampleOf(Mp4.Kept(nals));
      var media := Media(payload);
      && |media| == 112 + |payload| && TargetsTile(Maps(send, nals, |nals|, sps, pps), nals, media, 112)
      && Cursor(nals, |nals|) == |media|
      && Mp4Walk.Find(Mp4Walk.BoxesOf(media), 0, |media|, Tag("mdat")) == Some(Mp4Walk.Part(Tag("mdat"), 112, |media|))
  {
    var maps, payload := Maps(send, nals, |nals|, sps, pps), Mp4.SampleOf(Mp4.Kept(nals));
    MediaLayout(payload);
    forall i: nat | i < |nals| ensures maps[i].target == TargetOf(nals[i], Cursor(nals, i), sps, pps) {
      MapAt(send, nals, |nals|, sps, pps, i);
    }
    AllTargets(maps, nals, sps, pps, payload, Media(payload));
  }

  lemma AllTargets(maps: seq<Map>, nals: seq<bytes>, sps: Span, pps: Span, payload: bytes, media: bytes)
    requires NonEmpty(nals) && |nals| == |maps| && payload == Mp4.SampleOf(Mp4.Kept(nals))
    requires forall i: nat :: i < |nals| ==> maps[i].target == TargetOf(nals[i], Cursor(nals, i), sps, pps)
    requires Holds(media, 112, payload) && 112 + |payload| == |media|
    ensures TargetsTile(maps, nals, media, 112) && Cursor(nals, |nals|) == |media|
  {
    assert nals[0..] == nals && maps[0..] == maps;
    TargetsFrom(maps, nals, sps, pps, media, 0);
  }

  lemma MediaLayout(payload: bytes)
    requires |payload| + 8 < TWO32
    ensures var media := Media(payload);
      && |media| == 112 + |payload| && Holds(media, 112, payload)
      && Mp4Walk.Find(Mp4Walk.BoxesOf(media), 0, |media|, Tag("mdat")) == Some(Mp4Walk.Part(Tag("mdat"), 112, |media|))
  {
    Mp4Walk.FragmentReads(1, Mp4.Row(|payload|, 0x0200_0000, 0), payload, 1, 0);
  }

  // ---------------------------------------------------------------- parameter sets

  ghost predicate Within(data: bytes, part: bytes) {
    exists at: nat :: Holds(data, at, part)
  }

  lemma WithinMiddle(a: bytes, b: bytes, c: bytes, part: bytes)
    requires Within(b, part)
    ensures Within(a + (b + c), part)
  {
    var at: nat :| Holds(b, at, part);
    var data := a + (b + c);
    assert data[|a| + at..|a| + at + |part|] == b[at..at + |part|];
    assert Holds(data, |a| + at, part);
  }

  lemma WithinEnd(a: bytes, b: bytes, part: bytes)
    requires Within(b, part)
    ensures Within(a + b, part)
  {
    WithinMiddle(a, b, [], part);
    assert b + [] == b;
  }

  lemma WithinStart(a: bytes, b: bytes, part: bytes)
    requires Within(a, part)
    ensures Within(a + b, part)
  {
    WithinMiddle([], a, b, part);
    assert [] + (a + b) == a + b;
  }

  lemma WithinBox(tag: Mp4.Tag, data: bytes, part: bytes)
    requires Within(data, part)
    ensures Within(Mp4.Box(tag, data), part)
  {
    WithinEnd(tag, data, part);
    WithinEnd(BE(4, |data| + 8), tag + data, part);
  }

  lemma ConfigHolds(sps: bytes, pps: bytes)
    requires |sps| >= 4
    ensures Within(Config(sps, pps), sps) && Within(Config(sps, pps), pps)
  {
    WholeIsHeld(sps, sps);
    WholeIsHeld(pps, pps);
    assert Holds(sps, 0, sps) && Holds(pps, 0, pps);
    var front: bytes, last: bytes := [1, sps[1], sps[2], sps[3], 255, 225], BE(2, |pps|) + pps;
    WithinEnd(BE(2, |pps|), pps, pps);
    WithinEnd([1], last, pps);
    WithinEnd(sps, [1] + last, pps);
    WithinStart(sps, [1] + last, sps);
    WithinEnd(BE(2, |sps|), sps + ([1] + last), sps);
    WithinEnd(BE(2, |sps|), sps + ([1] + last), pps);
    WithinEnd(front, BE(2, |sps|) + (sps + ([1] + last)), sps);
    WithinEnd(front, BE(2, |sps|) + (sps + ([1] + last)), pps);
  }

  lemma TablesHold(l: Layout, config: bytes, part: bytes)
    requires Within(config, part)
    ensures Within(SampleTables(l, config), part)
  {
    var inner := Mp4.Box(Tag("avcC"), config);
    WithinBox(Tag("avcC"), config, part);
    WithinEnd(l.visualHead, inner, part);
    var visual := Mp4.Box(Tag("avc1"), l.visualHead + inner);
    WithinBox(Tag("avc1"), l.visualHead + inner, part);
    WithinEnd(BE(4, 1), visual, part);
    WithinEnd(BE(4, 0), BE(4, 1) + visual, part);
    WithinBox(Tag("stsd"), BE(4, 0) + (BE(4, 1) + visual), part);
    WithinStart(Mp4.Full(Tag("stsd"), 0, BE(4, 1) + visual), l.emptyTables, part);
  }

  lemma MdiaHolds(l: Layout, config: bytes, part: bytes)
    requires Within(config, part)
    ensures Within(Mdia(l, config), part)
  {
    TablesHold(l, config, part);
    var tables := SampleTables(l, config);
    WithinBox(Tag("stbl"), tables, part);
    WithinEnd(l.infoHead, Mp4.Box(Tag("stbl"), tables), part);
    var minf := l.infoHead + Mp4.Box(Tag("stbl"), tables);
    WithinBox(Tag("minf"), minf, part);
    WithinEnd(l.mediaHead, Mp4.Box(Tag("minf"), minf), part);
    WithinBox(Tag("mdia"), l.mediaHead + Mp4.Box(Tag("minf"), minf), part);
  }

  lemma InitHoldsPart(l: Layout, sps: bytes, pps: bytes, part: bytes)
    requires |sps| >= 4 && Within(Config(sps, pps), part)
    ensures Within(InitSegment(l, sps, pps), part)
  {
    var mdia := Mdia(l, Config(sps, pps));
    MdiaHolds(l, Config(sps, pps), part);
    WithinEnd(l.trackHead, mdia, part);
    var trak := Mp4.Box(Tag("trak"), l.trackHead + mdia);
    WithinBox(Tag("trak"), l.trackHead + mdia, part);
    WithinMiddle(l.movieHead, trak, l.movieEnd, part);
    var moov := l.movieHead + (trak + l.movieEnd);
    WithinBox(Tag("moov"), moov, part);
    WithinEnd(l.fileType, Mp4.Box(Tag("moov"), moov), part);
  }

  /** The initialization segment always contains both parameter sets, and the spans recorded for them name their
      bytes. */
  lemma InitHolds(l: Layout, sps: bytes, pps: bytes)
    requires |sps| >= 4
    ensures var init := InitSegment(l, sps, pps);
      && SpanNames(init, SpanOf(init, sps), sps) && SpanNames(init, SpanOf(init, pps), pps)
  {
    ConfigHolds(sps, pps);
    InitHoldsPart(l, sps, pps, sps);
    InitHoldsPart(l, sps, pps, pps);
    Found(InitSegment(l, sps, pps), sps);
    Found(InitSegment(l, sps, pps), pps);
  }

  lemma Found(data: bytes, part: bytes)
    requires Within(data, part)
    ensures SpanNames(data, SpanOf(data, part), part)
  {
    var at: nat :| Holds(data, at, part);
  }

  predicate SpanNames(data: bytes, span: Span, part: bytes) {
    span.from <= span.to <= |data| && data[span.from..span.to] == part
  }

  /** A target in the initialization segment names its NAL's bytes exactly when the NAL repeats the parameter
      set that the segment was made from. */
  lemma ParameterSetTarget(init: bytes, nals: seq<bytes>, sps: Span, pps: Span, target: Target, k: nat, cursor: nat)
    requires NonEmpty(nals) && |nals| >= 2 && k < |nals|
    requires SpanNames(init, sps, nals[0]) && SpanNames(init, pps, nals[1])
    requires target == TargetOf(nals[k], cursor, sps, pps)
    ensures target.InInit? <==> Kind(nals[k][0]) == 7 || Kind(nals[k][0]) == 8
    ensures target.InInit? ==>
      (SpanNames(init, target.at, nals[k]) <==> nals[k] == if Kind(nals[k][0]) == 7 then nals[0] else nals[1])
  {
  }
}
