/** The headers of the packets in a recording window, in terms of the NALs and their maps. */
module RecordingWindowFields {
  import opened Bytes
  import opened RtpHeader
  import opened RecordingWindow
  import opened RecordingWindowLaws

  /** The marker stands on the last packet of each picture and on no other. */
  predicate HeaderOk(raw: bytes, number: nat, nal: bytes, i: nat, count: nat)
    requires nal != []
  {
    Headed(raw, number, 90000, Kind(nal[0]) in {1, 5} && i + 1 == count)
  }

  lemma PacketHeaded(nal: bytes, fragmented: bool, i: nat, sn: nat)
    requires nal != [] && sn < 0x1_0000
    ensures HeaderOk(PacketOf(nal, fragmented, i, sn), sn, nal, i, PartCount(nal, fragmented))
  {
    var marker := IsVcl(nal[0]) && i == PartCount(nal, fragmented) - 1;
    HeaderReads(if marker then 224 else 96, sn, 90000, marker, PayloadOf(nal, fragmented, i));
  }

  ghost predicate Heads(send: Sender) {
    forall nal: bytes, i: nat, sn: nat :: PartHeaded(send, nal, i, sn)
  }

  predicate PartHeaded(send: Sender, nal: bytes, i: nat, sn: nat) {
    nal != [] && sn < 0x1_0000 ==> HeaderOk(send.packet(nal, i, sn), sn, nal, i, send.parts(nal))
  }

  lemma SenderHeads(fragmented: bool)
    ensures Heads(SenderOf(fragmented))
  {
    var send := SenderOf(fragmented);
    forall nal: bytes, i: nat, sn: nat ensures PartHeaded(send, nal, i, sn) {
      if nal != [] && sn < 0x1_0000 {
        PacketHeaded(nal, fragmented, i, sn);
      }
    }
  }

  lemma NalHeaded(
    send: Sender, fragmented: bool, nal: bytes, packets: seq<bytes>, before: nat, sources: seq<Source>, i: nat)
    requires Heads(send) && Faithful(send, fragmented) && nal != [] && before + send.parts(nal) <= |packets| < 0x1_0000
    requires packets[before..before + send.parts(nal)] == PacketsOf(send, nal, before + 1, send.parts(nal))
    requires sources == SourcesOf(send, nal, before + 1, send.parts(nal)) && i < |sources|
    ensures 1 <= sources[i].packet <= |packets|
    ensures HeaderOk(packets[sources[i].packet - 1], sources[i].packet, nal, i, |sources|)
  {
    var n, sn := send.parts(nal), before + 1 + i;
    PartAt(send, nal, before + 1, n, i);
    assert packets[before + i] == packets[before..before + n][i];
    assert PartHeaded(send, nal, i, sn);
    PartNumbered(send, fragmented, nal, i, sn);
  }

  lemma PartNumbered(send: Sender, fragmented: bool, nal: bytes, i: nat, sn: nat)
    requires Faithful(send, fragmented) && nal != [] && i < send.parts(nal)
    ensures send.source(nal, i, sn).packet == sn
  {
    assert PartFaithful(send.packet(nal, i, sn), send.source(nal, i, sn), nal, Splits(nal, fragmented), i, sn);
  }

  lemma SourceHeaded(send: Sender, fragmented: bool, nals: seq<bytes>, sps: Span, pps: Span, k: nat, i: nat)
    requires Heads(send) && Faithful(send, fragmented) && NonEmpty(nals) && k < |nals|
    requires |Packets(send, nals, |nals|)| < 0x1_0000 && i < |Maps(send, nals, |nals|, sps, pps)[k].sources|
    ensures var all, sources := Packets(send, nals, |nals|), Maps(send, nals, |nals|, sps, pps)[k].sources;
      && 1 <= sources[i].packet <= |all|
      && HeaderOk(all[sources[i].packet - 1], sources[i].packet, nals[k], i, |sources|)
  {
    MapAt(send, nals, |nals|, sps, pps, k);
    AroundNal(send, nals, k);
    NalHeaded(send, fragmented, nals[k], Packets(send, nals, |nals|), |Packets(send, nals, k)|,
              Maps(send, nals, |nals|, sps, pps)[k].sources, i);
  }

  /** In a window that is built, every source of every NAL names a packet that is headed with that name as its number,
      the fixed time and source, and the marker where the picture ends. */
  lemma EveryHeaderIsWritten(nals: seq<bytes>, fragmented: bool, l: Layout, k: nat, i: nat)
    requires Buildable(nals, fragmented) && k < |nals|
    ensures |Built(nals, fragmented, l).maps| == |nals|
    ensures var w := Built(nals, fragmented, l);
      var sources := w.maps[k].sources;
      i < |sources| ==>
        && 1 <= sources[i].packet <= |w.packets|
        && HeaderOk(w.packets[sources[i].packet - 1], sources[i].packet, nals[k], i, |sources|)
  {
    var w := Built(nals, fragmented, l);
    SenderHeads(fragmented);
    SenderFaithful(fragmented);
    if i < |w.maps[k].sources| {
      SourceHeaded(SenderOf(fragmented), fragmented, nals, SpanOf(w.initialization, nals[0]),
                   SpanOf(w.initialization, nals[1]), k, i);
    }
  }
}
