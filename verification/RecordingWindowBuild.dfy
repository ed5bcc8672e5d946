/** scripts/check_recording_window_fixture.py, `build` as a whole: the five retained objects, each named by the
    digests in the others. */
module RecordingWindowBuild {
  import opened Bytes
  import opened Wire
  import opened Sorting
  import opened RecordingWindow
  import opened RecordingWindowLaws
  import opened RecordingWindowObjects
  import Mp4
  import Mp4Walk

  datatype Objects = Objects(source: bytes, initialization: bytes, media: bytes, index: bytes, manifest: bytes)

  function Digest(sha: bytes -> bytes, data: bytes): bytes {
    [1] + sha(data)
  }

  /** The fixed beginnings of the source object, the index and the manifest. */
  datatype Heads = Heads(source: bytes, index: bytes, manifest: bytes)

  /** Those of the fixture: the formats' names, and the sensor, stream, authority, clock and RTP parameters. */
  function FixtureHeads(sha: bytes -> bytes): Heads {
    Heads(Text(Ascii("fss.recording_window.source.v1")),
          Text(Ascii("fss.recording_window.index.v1")) + Text(Ascii("sensor-fixture")) + Text(Ascii("stream-fixture")) +
          BE(8, 1) + Digest(sha, Ascii("owner-authority-anchor")) + Digest(sha, Ascii("host-clock-epoch")) +
          BE(4, 7) + BE(4, 96) + BE(4, 90000),
          Text(Ascii("fss.object_manifest.v1")) + Text(Ascii("avc_recording_window_v1")) + BE(8, 4))
  }

  /** The one sample: its place, times, duration, RTP time, that it is an IDR, its boundary and its NALs. */
  function SampleEntry(media: nat, nals: nat): bytes {
    BE(8, 1) + SpanBytes(Span(112, media)) + BE(8, 0) + BE(8, 0) + BE(4, 3600) + BE(4, 90000) + [1] + BE(8, 3) +
    SpanBytes(Span(0, nals))
  }

  /** What follows the head of an index: the digests of three objects, the spans of the parameter sets, the sample and
      the maps. */
  function IndexBody(w: Window, sps: Span, pps: Span, source: bytes, sha: bytes -> bytes): bytes {
    Digest(sha, source) + (Digest(sha, w.initialization) + (Digest(sha, w.media) + IndexTail(w, sps, pps)))
  }

  function IndexTail(w: Window, sps: Span, pps: Span): bytes {
    SpanBytes(sps) + SpanBytes(pps) + SampleEntry(|w.media|, |w.maps|) + MapTable(w.maps)
  }

  function ObjectsOf(w: Window, sps: Span, pps: Span, h: Heads, sha: bytes -> bytes): Objects {
    var source := h.source + PacketTable(w.packets);
    var index := h.index + IndexBody(w, sps, pps, source, sha);
    var children := [Digest(sha, source), Digest(sha, w.initialization), Digest(sha, w.media), Digest(sha, index)];
    Objects(source, w.initialization, w.media, index,
            (h.manifest + Join(Sort(BytesLeq, children)) + [1]) + Digest(sha, index))
  }

  /** What is retained of a window: its objects, with the spans of its first two NALs, and the number of packets. */
  function Retained(w: Window, nals: seq<bytes>, h: Heads, sha: bytes -> bytes): (Objects, nat)
    requires |nals| >= 2
  {
    var init := w.initialization;
    (ObjectsOf(w, SpanOf(init, nals[0]), SpanOf(init, nals[1]), h, sha), |w.packets|)
  }

  /** The source's own assertions: where the media's payload begins and ends, and that the last target ends there. */
  predicate AssertionsHold(media: bytes, payload: bytes, cursor: nat) {
    Holds(media, 108, Tag("mdat")) && |media| == 112 + |payload| && cursor == |media|
  }

  /** The window and the final cursor, with the assertions on the media. */
  method BuildWindow(nals: seq<bytes>, fragmented: bool, l: Layout) returns (r: Result<(Window, nat), Refusal>)
    ensures r.Ok? <==> Buildable(nals, fragmented)
    ensures r.Ok? ==> r.value.0 == Built(nals, fragmented, l)
    ensures r.Ok? ==> AssertionsHold(r.value.0.media, Mp4.SampleOf(Mp4.Kept(nals)), r.value.1)
  {
    if |nals| < 2 || !NonEmpty(nals) || |nals[0]| < 4 {
      return Refused(MissingNal);
    }
    if |nals[0]| >= TWO16 || |nals[1]| >= TWO16 {
      return Refused(Unpackable);
    }
    var init := InitSegment(l, nals[0], nals[1]);
    var sps, pps := SpanOf(init, nals[0]), SpanOf(init, nals[1]);
    var payload := Mp4.JoinSample(nals);
    if |payload.value| + 8 >= TWO32 {
      return Refused(Unpackable);
    }
    SenderIsSender(fragmented);
    var built := BuildMaps(SenderOf(fragmented), nals, fragmented, sps, pps);
    if built.None? {
      return Refused(Unpackable);
    }
    MediaAsserted(nals, SenderOf(fragmented), sps, pps);
    r := Ok((Window(built.value.0, init, Media(payload.value), built.value.1), built.value.2));
  }

  lemma MediaAsserted(nals: seq<bytes>, send: Sender, sps: Span, pps: Span)
    requires NonEmpty(nals) && |Mp4.SampleOf(Mp4.Kept(nals))| + 8 < TWO32
    ensures var payload := Mp4.SampleOf(Mp4.Kept(nals)); AssertionsHold(Media(payload), payload, Cursor(nals, |nals|))
  {
    MediaTiled(send, nals, sps, pps);
    TagStands(Mp4.SampleOf(Mp4.Kept(nals)));
  }

  method Build(nals: seq<bytes>, fragmented: bool, l: Layout, h: Heads, sha: bytes -> bytes)
    returns (r: Result<(Objects, nat), Refusal>, ghost cursor: nat)
    ensures r.Ok? <==> Buildable(nals, fragmented)
    ensures r.Ok? ==> r.value == Retained(Built(nals, fragmented, l), nals, h, sha)
    ensures r.Ok? ==> AssertionsHold(Built(nals, fragmented, l).media, Mp4.SampleOf(Mp4.Kept(nals)), cursor)
  {
    var built := BuildWindow(nals, fragmented, l);
    cursor := if built.Ok? then built.value.1 else 0;
    r := if built.Ok? then Ok(Retained(built.value.0, nals, h, sha)) else Refused(built.why);
  }

  lemma BoxTag(tag: Mp4.Tag, data: bytes)
    ensures |Mp4.Box(tag, data)| == 8 + |data| && Mp4.Box(tag, data)[4..8] == tag
  {
  }

  lemma Middle(a: bytes, b: bytes, i: nat, j: nat)
    requires i <= j <= |b|
    ensures (a + b)[|a| + i..|a| + j] == b[i..j]
  {
  }

  lemma TagStands(payload: bytes)
    requires |payload| + 8 < TWO32
    ensures Holds(Media(payload), 108, Tag("mdat"))
  {
    var rows := Mp4.Row(|payload|, 0x0200_0000, 0);
    var moof, box := Mp4.Moof(1, rows, 1, 0), Mp4.Box(Tag("mdat"), payload);
    Mp4.MoofLength(1, rows, 1, 0);
    BoxTag(Tag("mdat"), payload);
    Middle(moof, box, 4, 8);
  }

  // ---------------------------------------------------------------- what the objects say of each other

  ghost predicate Injective(sha: bytes -> bytes) {
    && (forall b :: |sha(b)| == 32)
    && forall a, b :: sha(a) == sha(b) ==> a == b
  }

  lemma SameDigest(sha: bytes -> bytes, a: bytes, b: bytes)
    requires Injective(sha) && Digest(sha, a) == Digest(sha, b)
    ensures a == b
  {
    assert Digest(sha, a)[1..] == sha(a) && Digest(sha, b)[1..] == sha(b);
  }

  lemma SameParts(a: bytes, x: bytes, b: bytes, y: bytes)
    requires |a| == |b| && a + x == b + y
    ensures a == b && x == y
  {
    assert (a + x)[..|a|] == a && (b + y)[..|b|] == b;
    assert (a + x)[|a|..] == x && (b + y)[|b|..] == y;
  }

  lemma SameEnds(a: bytes, x: bytes, b: bytes, y: bytes)
    requires |x| == |y| && a + x == b + y
    ensures x == y
  {
    assert |a| == |b|;
    SameParts(a, x, b, y);
  }

  /** The manifest names everything: windows with the same manifest have the same five objects. */
  lemma ManifestDeterminesObjects(
    v: Window, w: Window, a: Span, b: Span, c: Span, d: Span, h: Heads, sha: bytes -> bytes)
    requires Injective(sha) && ObjectsOf(v, a, b, h, sha).manifest == ObjectsOf(w, c, d, h, sha).manifest
    ensures ObjectsOf(v, a, b, h, sha) == ObjectsOf(w, c, d, h, sha)
  {
    var o, q := ObjectsOf(v, a, b, h, sha), ObjectsOf(w, c, d, h, sha);
    ManifestEnds(v, a, b, h, sha);
    ManifestEnds(w, c, d, h, sha);
    assert o.manifest[|o.manifest| - 33..] == q.manifest[|q.manifest| - 33..];
    SameDigest(sha, o.index, q.index);
    SameParts(h.index, IndexBody(v, a, b, o.source, sha), h.index, IndexBody(w, c, d, q.source, sha));
    IndexDeterminesObjects(v, w, a, b, c, d, o.source, q.source, sha);
  }

  lemma ManifestEnds(w: Window, sps: Span, pps: Span, h: Heads, sha: bytes -> bytes)
    requires Injective(sha)
    ensures var o := ObjectsOf(w, sps, pps, h, sha);
      |o.manifest| >= 33 && o.manifest[|o.manifest| - 33..] == Digest(sha, o.index)
  {
  }

  lemma IndexDeterminesObjects(
    v: Window, w: Window, a: Span, b: Span, c: Span, d: Span, s: bytes, t: bytes, sha: bytes -> bytes)
    requires Injective(sha) && IndexBody(v, a, b, s, sha) == IndexBody(w, c, d, t, sha)
    ensures s == t && v.initialization == w.initialization && v.media == w.media
  {
    var x, y := Digest(sha, v.media) + IndexTail(v, a, b), Digest(sha, w.media) + IndexTail(w, c, d);
    SameParts(Digest(sha, s), Digest(sha, v.initialization) + x, Digest(sha, t), Digest(sha, w.initialization) + y);
    SameParts(Digest(sha, v.initialization), x, Digest(sha, w.initialization), y);
    SameParts(Digest(sha, v.media), IndexTail(v, a, b), Digest(sha, w.media), IndexTail(w, c, d));
    SameDigest(sha, s, t);
    SameDigest(sha, v.initialization, w.initialization);
    SameDigest(sha, v.media, w.media);
  }

  lemma TailLengths(w: Window, sps: Span, pps: Span)
    ensures |SpanBytes(sps)| == 16 && |SpanBytes(pps)| == 16 && |SampleEntry(|w.media|, |w.maps|)| == 73
    ensures |IndexTail(w, sps, pps)| == 105 + |MapTable(w.maps)| && IndexTail(w, sps, pps)[105..] == MapTable(w.maps)
  {
  }

  lemma Behind(a: bytes, b: bytes, n: nat)
    requires n <= |b|
    ensures (a + b)[|a| + n..] == b[n..]
  {
  }

  lemma IndexEnds(w: Window, sps: Span, pps: Span, source: bytes, head: bytes, sha: bytes -> bytes)
    requires forall b :: |sha(b)| == 32
    ensures var index := head + IndexBody(w, sps, pps, source, sha);
      |index| >= |head| + 204 && index[|head| + 204..] == MapTable(w.maps)
  {
    var a, b, c := Digest(sha, source), Digest(sha, w.initialization), Digest(sha, w.media);
    var tail := IndexTail(w, sps, pps);
    TailLengths(w, sps, pps);
    Behind(head, a + (b + (c + tail)), 204);
    Behind(a, b + (c + tail), 171);
    Behind(b, c + tail, 138);
    Behind(c, tail, 105);
  }

  /** Behind their heads the source object and the index of every window that is built give back its packets and
      maps. */
  lemma ObjectsReadBack(nals: seq<bytes>, fragmented: bool, l: Layout, h: Heads, sha: bytes -> bytes)
    requires Buildable(nals, fragmented) && Fits(|InitSegment(l, nals[0], nals[1])|) && forall b :: |sha(b)| == 32
    ensures var w := Built(nals, fragmented, l);
      var o := Retained(w, nals, h, sha).0;
      && |o.source| >= |h.source| && PacketsIn(o.source[|h.source|..]) == Some(w.packets)
      && |o.index| >= |h.index| + 204 && MapsIn(o.index[|h.index| + 204..]) == Some(w.maps)
  {
    WindowReadsBack(nals, fragmented, l);
    BehindHeads(Built(nals, fragmented, l), nals, h, sha);
  }

  lemma BehindHeads(w: Window, nals: seq<bytes>, h: Heads, sha: bytes -> bytes)
    requires |nals| >= 2 && forall b :: |sha(b)| == 32
    ensures var o := Retained(w, nals, h, sha).0;
      && |o.source| >= |h.source| && o.source[|h.source|..] == PacketTable(w.packets)
      && |o.index| >= |h.index| + 204 && o.index[|h.index| + 204..] == MapTable(w.maps)
  {
    var init, source := w.initialization, h.source + PacketTable(w.packets);
    IndexEnds(w, SpanOf(init, nals[0]), SpanOf(init, nals[1]), source, h.index, sha);
    assert source[|h.source|..] == PacketTable(w.packets);
  }

  /** A parameter set that differs from the first one of its kind is not where its map says. */
  lemma DifferingSetIsMisnamed(nals: seq<bytes>, fragmented: bool, l: Layout, k: nat)
    requires Buildable(nals, fragmented) && k < |nals| && (Kind(nals[k][0]) == 7 || Kind(nals[k][0]) == 8)
    requires nals[k] != Made(nals, k)
    ensures var w := Built(nals, fragmented, l);
      |w.maps| == |nals| && w.maps[k].target.InInit? && !SpanNames(w.initialization, w.maps[k].target.at, nals[k])
  {
    WindowIsAudited(nals, fragmented, l);
    var w := Built(nals, fragmented, l);
    assert MapAudited(w.packets, w.initialization, w.maps[k], nals, fragmented, k);
  }

  function TwoDifferentSets(): seq<bytes> {
    [[7, 1, 2, 3], [8], [7]]
  }

  /** Such a window is built. */
  lemma SecondParameterSetIsMisnamed(l: Layout)
    ensures Buildable(TwoDifferentSets(), false)
    ensures var w := Built(TwoDifferentSets(), false, l);
      |w.maps| == 3 && w.maps[2].target.InInit? && !SpanNames(w.initialization, w.maps[2].target.at, [7])
  {
    var nals := TwoDifferentSets();
    SetsAreBuildable(nals);
    assert nals[2] == [7] && Made(nals, 2) == nals[0] == [7, 1, 2, 3];
    DifferingSetIsMisnamed(nals, false, l, 2);
  }

  lemma SetsAreBuildable(nals: seq<bytes>)
    requires |nals| == 3 && |nals[0]| == 4 && |nals[1]| == 1 && |nals[2]| == 1
    requires Kind(nals[0][0]) == 7 && Kind(nals[1][0]) == 8 && Kind(nals[2][0]) == 7
    ensures Buildable(nals, false)
  {
    NothingIsKept(nals);
    ThreePackets(nals);
  }

  lemma NothingIsKept(nals: seq<bytes>)
    requires |nals| == 3 && NonEmpty(nals) && Kind(nals[0][0]) == 7 && Kind(nals[1][0]) == 8 && Kind(nals[2][0]) == 7
    ensures Mp4.SampleOf(Mp4.Kept(nals)) == []
  {
    assert nals[1..][1..] == nals[2..] && nals[2..][1..] == [];
    assert Mp4.Kept(nals[2..]) == [] && Mp4.Kept(nals[1..]) == [];
  }

  lemma ThreePackets(nals: seq<bytes>)
    requires |nals| == 3
    ensures |Packets(SenderOf(false), nals, 3)| == 3
  {
    var send := SenderOf(false);
    assert |Packets(send, nals, 1)| == 1 && |Packets(send, nals, 2)| == 2;
  }
}
