/** A reader of movie fragments that knows only the box structure of section 8.8 of ISO/IEC 14496-12, and the
    proof that it gets back from a written fragment what went in. */
module Mp4Walk {
  import opened Bytes
  import opened Wire
  import opened Mp4

  // ---------------------------------------------------------------- boxes

  datatype Part = Part(tag: bytes, body: nat, end: nat)

  function U32At(data: bytes, at: nat): nat {
    if at + 4 <= |data| then FromBE(data[at..at + 4]) else 0
  }

  function BoxAt(data: bytes, at: nat): Option<Part> {
    if at + 8 > |data| then None
    else
      var size := U32At(data, at);
      if size < 8 || at + size > |data| then None else Some(Part(data[at + 4..at + 8], at + 8, at + size))
  }

  /** The boxes of a file by their place. */
  type Boxes = nat -> Option<Part>

  function BoxesOf(data: bytes): Boxes {
    (at: nat) => BoxAt(data, at)
  }

  /** The first box with a tag among those that fill `from` to `to`. */
  function Find(boxes: Boxes, from: nat, to: nat, tag: bytes): Option<Part>
    decreases to - from
  {
    var p := boxes(from);
    if from >= to || p.None? || p.value.end > to || p.value.end <= from then None
    else if p.value.tag == tag then p
    else Find(boxes, p.value.end, to, tag)
  }

  lemma U32Reads(data: bytes, at: nat, n: nat)
    requires n < 0x1_0000_0000 && Holds(data, at, BE(4, n))
    ensures U32At(data, at) == n
  {
    Reads32(n);
  }

  lemma BoxReads(data: bytes, at: nat, tag: Tag, body: bytes)
    requires |body| + 8 < 0x1_0000_0000 && Holds(data, at, Box(tag, body))
    ensures BoxAt(data, at) == Some(Part(tag, at + 8, at + 8 + |body|)) && Holds(data, at + 8, body)
  {
    HoldsApart(data, at, BE(4, |body| + 8), tag + body);
    HoldsApart(data, at + 4, tag, body);
    U32Reads(data, at, |body| + 8);
  }

  /** A box stands at `at`. */
  predicate BoxStands(boxes: Boxes, at: nat, tag: bytes, size: nat) {
    boxes(at) == Some(Part(tag, at + 8, at + 8 + size))
  }

  lemma Stands(data: bytes, at: nat, tag: Tag, body: bytes)
    requires |body| + 8 < 0x1_0000_0000 && Holds(data, at, Box(tag, body))
    ensures BoxStands(BoxesOf(data), at, tag, |body|) && Holds(data, at + 8, body)
  {
    BoxReads(data, at, tag, body);
  }

  /** Of two boxes with different tags both are found. */
  lemma FindsTwo(boxes: Boxes, at: nat, to: nat, s: Tag, m: nat, t: Tag, n: nat)
    requires s != t && BoxStands(boxes, at, s, m) && BoxStands(boxes, at + 8 + m, t, n) && at + 16 + m + n <= to
    ensures Find(boxes, at, to, s) == boxes(at) && Find(boxes, at, to, t) == boxes(at + 8 + m)
  {
  }

  lemma TagsDiffer()
    ensures TagOf("moof") != TagOf("mdat") && TagOf("mfhd") != TagOf("traf")
    ensures TagOf("tfhd") != TagOf("tfdt") && TagOf("tfhd") != TagOf("trun") && TagOf("tfdt") != TagOf("trun")
  {
    assert TagOf("moof")[1] != TagOf("mdat")[1] && TagOf("mfhd")[0] != TagOf("traf")[0];
    assert TagOf("tfhd")[2] != TagOf("tfdt")[2] && TagOf("tfhd")[1] != TagOf("trun")[1];
    assert TagOf("tfdt")[1] != TagOf("trun")[1];
  }

  // ---------------------------------------------------------------- the run of a fragment

  /** Where the rows and the media begin, how many there are, and the first decode time. */
  datatype Run = Run(base: nat, count: nat, media: nat, rows: nat)

  function U64At(data: bytes, at: nat): nat {
    if at + 8 <= |data| then FromBE(data[at..at + 8]) else 0
  }

  function RunOf(data: bytes): Option<Run> {
    var moof := Find(BoxesOf(data), 0, |data|, TagOf("moof"));
    if moof.None? then None
    else
      var traf := Find(BoxesOf(data), moof.value.body, moof.value.end, TagOf("traf"));
      if traf.None? then None else RunIn(data, moof.value.body - 8, traf.value)
  }

  function RunIn(data: bytes, origin: int, traf: Part): Option<Run> {
    var tfdt := Find(BoxesOf(data), traf.body, traf.end, TagOf("tfdt"));
    var trun := Find(BoxesOf(data), traf.body, traf.end, TagOf("trun"));
    if tfdt.None? || trun.None? || origin < 0 then None
    else
      var at := trun.value.body;
      Some(Run(U64At(data, tfdt.value.body + 4), U32At(data, at + 4), origin + U32At(data, at + 8), at + 12))
  }

  lemma TrafReads(data: bytes, at: nat, end: nat, n: nat, rows: bytes, start: nat)
    requires |rows| == 16 * n && 96 + 16 * n < 0x1_0000_0000 && start < 0x1_0000_0000_0000_0000
    requires Holds(data, at, Traf(n, rows, start)) && end == at + |Traf(n, rows, start)|
    ensures end == at + 56 + 16 * n && Holds(data, at + 56, rows)
    ensures RunIn(data, 0, Part(TagOf("traf"), at, end)) == Some(Run(start, n, 96 + 16 * n, at + 56))
  {
    var time: bytes := BE(4, 0x1000000) + BE(8, start);
    var run: bytes := BE(4, 0x1000f01) + (BE(4, n) + (BE(4, 96 + 16 * n) + rows));
    TrafFinds(data, at, end, BE(4, 0x20000) + BE(4, 1), time, run);
    TimeReads(data, at + 24, start);
    RunReads(data, at + 44, n, rows);
  }

  lemma TrafFinds(data: bytes, at: nat, end: nat, head: bytes, time: bytes, run: bytes)
    requires |head| == 8 && |time| == 12 && |run| + 8 < 0x1_0000_0000 && end == at + 44 + |run|
    requires Holds(data, at, Box(TagOf("tfhd"), head) + (Box(TagOf("tfdt"), time) + Box(TagOf("trun"), run)))
    ensures Find(BoxesOf(data), at, end, TagOf("tfdt")) == Some(Part(TagOf("tfdt"), at + 24, at + 36))
    ensures Holds(data, at + 24, time)
    ensures Find(BoxesOf(data), at, end, TagOf("trun")) == Some(Part(TagOf("trun"), at + 44, end))
    ensures Holds(data, at + 44, run)
  {
    TagsDiffer();
    StandThree(data, at, TagOf("tfhd"), head, TagOf("tfdt"), time, TagOf("trun"), run);
    FoundThree(BoxesOf(data), at, end, TagOf("tfhd"), |head|, TagOf("tfdt"), |time|, TagOf("trun"), |run|);
  }

  lemma FoundThree(boxes: Boxes, at: nat, end: nat, s: Tag, k: nat, t: Tag, m: nat, u: Tag, n: nat)
    requires s != t && s != u && t != u && end == at + 24 + k + m + n
    requires BoxStands(boxes, at, s, k) && BoxStands(boxes, at + 8 + k, t, m) && BoxStands(boxes, at + 16 + k + m, u, n)
    ensures var p, q := at + 8 + k, at + 16 + k + m;
      Find(boxes, at, end, t) == Some(Part(t, p + 8, q)) && Find(boxes, at, end, u) == Some(Part(u, q + 8, end))
  {
    FindsThree(boxes, at, end, s, k, t, m, u, n);
  }

  lemma StandThree(data: bytes, at: nat, s: Tag, a: bytes, t: Tag, b: bytes, u: Tag, c: bytes)
    requires |a| + 8 < 0x1_0000_0000 && |b| + 8 < 0x1_0000_0000 && |c| + 8 < 0x1_0000_0000
    requires Holds(data, at, Box(s, a) + (Box(t, b) + Box(u, c)))
    ensures var p, q, boxes := at + 8 + |a|, at + 16 + |a| + |b|, BoxesOf(data);
      && BoxStands(boxes, at, s, |a|) && BoxStands(boxes, p, t, |b|) && BoxStands(boxes, q, u, |c|)
      && Holds(data, p + 8, b) && Holds(data, q + 8, c)
  {
    HoldsThree(data, at, Box(s, a), Box(t, b), Box(u, c));
    Stands(data, at, s, a);
    Stands(data, at + 8 + |a|, t, b);
    Stands(data, at + 16 + |a| + |b|, u, c);
  }

  lemma FindsThree(boxes: Boxes, at: nat, end: nat, s: Tag, k: nat, t: Tag, m: nat, u: Tag, n: nat)
    requires s != t && s != u && t != u && at + 24 + k + m + n <= end
    requires BoxStands(boxes, at, s, k) && BoxStands(boxes, at + 8 + k, t, m) && BoxStands(boxes, at + 16 + k + m, u, n)
    ensures Find(boxes, at, end, t) == Some(Part(t, at + 16 + k, at + 16 + k + m))
    ensures Find(boxes, at, end, u) == Some(Part(u, at + 24 + k + m, at + 24 + k + m + n))
  {
    FindsTwo(boxes, at, end, s, k, t, m);
    FindsTwo(boxes, at + 8 + k, end, t, m, u, n);
    assert Find(boxes, at, end, u) == Find(boxes, at + 8 + k, end, u);
  }

  lemma HoldsThree(data: bytes, at: nat, a: bytes, b: bytes, c: bytes)
    requires Holds(data, at, a + (b + c))
    ensures Holds(data, at, a) && Holds(data, at + |a|, b) && Holds(data, at + |a| + |b|, c)
  {
    HoldsApart(data, at, a, b + c);
    HoldsApart(data, at + |a|, b, c);
  }

  lemma TimeReads(data: bytes, at: nat, start: nat)
    requires start < 0x1_0000_0000_0000_0000 && Holds(data, at, BE(4, 0x1000000) + BE(8, start))
    ensures U64At(data, at + 4) == start
  {
    HoldsApart(data, at, BE(4, 0x1000000), BE(8, start));
    Reads64(start);
  }

  lemma RunReads(data: bytes, at: nat, n: nat, rows: bytes)
    requires 96 + 16 * n < 0x1_0000_0000
    requires Holds(data, at, BE(4, 0x1000f01) + (BE(4, n) + (BE(4, 96 + 16 * n) + rows)))
    ensures U32At(data, at + 4) == n && U32At(data, at + 8) == 96 + 16 * n && Holds(data, at + 12, rows)
  {
    HoldsApart(data, at, BE(4, 0x1000f01), BE(4, n) + (BE(4, 96 + 16 * n) + rows));
    HoldsApart(data, at + 4, BE(4, n), BE(4, 96 + 16 * n) + rows);
    HoldsApart(data, at + 8, BE(4, 96 + 16 * n), rows);
    U32Reads(data, at + 4, n);
    U32Reads(data, at + 8, 96 + 16 * n);
  }

  /** The reader finds the run, and the data offset lands on the first byte of the media. */
  lemma FragmentReads(n: nat, rows: bytes, media: bytes, number: nat, start: nat)
    requires |rows| == 16 * n && 96 + 16 * n < 0x1_0000_0000 && |media| + 8 < 0x1_0000_0000
    requires start < 0x1_0000_0000_0000_0000
    ensures var data := Fragment(n, rows, media, number, start);
      && |data| == 96 + 16 * n + |media|
      && RunOf(data) == Some(Run(start, n, 96 + 16 * n, 88))
      && Holds(data, 88, rows) && Holds(data, 96 + 16 * n, media)
      && Find(BoxesOf(data), 0, |data|, TagOf("mdat")) == Some(Part(TagOf("mdat"), 96 + 16 * n, |data|))
  {
    MoofLength(n, rows, number, start);
    var body := Full(TagOf("mfhd"), 0, BE(4, number)) + Box(TagOf("traf"), Traf(n, rows, start));
    OuterReads(body, media);
    InnerReads(Fragment(n, rows, media, number, start), number, Traf(n, rows, start), 88 + 16 * n);
    TrafReads(Fragment(n, rows, media, number, start), 32, 88 + 16 * n, n, rows, start);
  }

  lemma OuterReads(body: bytes, media: bytes)
    requires |body| + 8 < 0x1_0000_0000 && |media| + 8 < 0x1_0000_0000
    ensures var data := Box(TagOf("moof"), body) + Box(TagOf("mdat"), media);
      var end := 8 + |body|;
      && |data| == end + 8 + |media| && Holds(data, 8, body) && Holds(data, end + 8, media)
      && Find(BoxesOf(data), 0, |data|, TagOf("moof")) == Some(Part(TagOf("moof"), 8, end))
      && Find(BoxesOf(data), 0, |data|, TagOf("mdat")) == Some(Part(TagOf("mdat"), end + 8, |data|))
  {
    TagsDiffer();
    TwoBoxes(TagOf("moof"), body, TagOf("mdat"), media);
  }

  lemma TwoBoxes(s: Tag, a: bytes, t: Tag, b: bytes)
    requires s != t && |a| + 8 < 0x1_0000_0000 && |b| + 8 < 0x1_0000_0000
    ensures var data := Box(s, a) + Box(t, b);
      var end := 8 + |a|;
      && |data| == end + 8 + |b| && Holds(data, 8, a) && Holds(data, end + 8, b)
      && Find(BoxesOf(data), 0, |data|, s) == Some(Part(s, 8, end))
      && Find(BoxesOf(data), 0, |data|, t) == Some(Part(t, end + 8, |data|))
  {
    var data := Box(s, a) + Box(t, b);
    WholeIsHeld(data, data);
    HoldsApart(data, 0, Box(s, a), Box(t, b));
    Stands(data, 0, s, a);
    Stands(data, 8 + |a|, t, b);
    FoundTwo(BoxesOf(data), |data|, s, |a|, t, |b|);
  }

  lemma FoundTwo(boxes: Boxes, to: nat, s: Tag, m: nat, t: Tag, n: nat)
    requires s != t && BoxStands(boxes, 0, s, m) && BoxStands(boxes, 8 + m, t, n) && to == 16 + m + n
    ensures Find(boxes, 0, to, s) == Some(Part(s, 8, 8 + m)) && Find(boxes, 0, to, t) == Some(Part(t, 16 + m, to))
  {
    FindsTwo(boxes, 0, to, s, m, t, n);
  }

  lemma InnerReads(data: bytes, number: nat, traf: bytes, end: nat)
    requires |traf| + 8 < 0x1_0000_0000 && end == 32 + |traf|
    requires Holds(data, 8, Full(TagOf("mfhd"), 0, BE(4, number)) + Box(TagOf("traf"), traf))
    ensures Find(BoxesOf(data), 8, end, TagOf("traf")) == Some(Part(TagOf("traf"), 32, end)) && Holds(data, 32, traf)
  {
    TagsDiffer();
    SecondBox(data, 8, TagOf("mfhd"), BE(4, 0) + BE(4, number), TagOf("traf"), traf, end);
  }

  lemma SecondBox(data: bytes, at: nat, s: Tag, a: bytes, t: Tag, b: bytes, end: nat)
    requires s != t && |a| + 8 < 0x1_0000_0000 && |b| + 8 < 0x1_0000_0000 && end == at + 16 + |a| + |b|
    requires Holds(data, at, Box(s, a) + Box(t, b))
    ensures Find(BoxesOf(data), at, end, t) == Some(Part(t, at + 16 + |a|, end)) && Holds(data, at + 16 + |a|, b)
  {
    HoldsApart(data, at, Box(s, a), Box(t, b));
    Stands(data, at, s, a);
    Stands(data, at + 8 + |a|, t, b);
    FindsTwo(BoxesOf(data), at, end, s, |a|, t, |b|);
  }
}
