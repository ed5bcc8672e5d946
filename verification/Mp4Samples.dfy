/** The samples of a fragment walked row by row and length by length: times, sync flags and NALs come back as
    they were given. */
module Mp4Samples {
  import opened Bytes
  import opened Wire
  import opened Mp4
  import opened Mp4Walk

  // ---------------------------------------------------------------- the reader

  datatype Sample = Sample(dts: int, pts: int, sync: bool, nals: seq<bytes>)

  /** Walks four-byte lengths. */
  function Nals(s: bytes): Option<seq<bytes>> {
    if s == [] then Some([])
    else if |s| < 4 || 4 + U32At(s, 0) > |s| then None
    else
      var n := U32At(s, 0);
      var rest := Nals(s[4 + n..]);
      if rest.None? then None else Some([s[4..4 + n]] + rest.value)
  }

  function Signed32(n: nat): int {
    if n >= TWO31 then n - TWO32 else n
  }

  /** The 32-bit numbers of a fragment by their place. */
  type Fields = nat -> nat

  function FieldsOf(data: bytes): Fields {
    (at: nat) => U32At(data, at)
  }

  /** Where sample `i` begins, after the sizes of those before it. */
  function MediaAt(u: Fields, run: Run, i: nat): nat {
    if i == 0 then run.media else MediaAt(u, run, i - 1) + u(run.rows + 16 * (i - 1) + 4)
  }

  /** When sample `i` is decoded, after the durations of those before it. */
  function DecodeAt(u: Fields, run: Run, i: nat): nat {
    if i == 0 then run.base else DecodeAt(u, run, i - 1) + u(run.rows + 16 * (i - 1))
  }

  /** The NALs of a sample. */
  type Walk = bytes -> Option<seq<bytes>>

  function SampleAt(data: bytes, u: Fields, walk: Walk, run: Run, i: nat): Option<Sample> {
    var row, at, dts := run.rows + 16 * i, MediaAt(u, run, i), DecodeAt(u, run, i);
    if at + u(row + 4) > |data| then None
    else
      var nals := walk(data[at..at + u(row + 4)]);
      if nals.None? then None
      else Some(Sample(dts, dts + Signed32(u(row + 12)), u(row + 8) / 0x10000 % 2 == 0, nals.value))
  }

  function SamplesAt(data: bytes, u: Fields, walk: Walk, run: Run, n: nat): Option<seq<Sample>> {
    if n == 0 then Some([])
    else
      var front, last := SamplesAt(data, u, walk, run, n - 1), SampleAt(data, u, walk, run, n - 1);
      if front.None? || last.None? then None else Some(front.value + [last.value])
  }

  function Demuxed(data: bytes): Option<seq<Sample>> {
    var run := RunOf(data);
    if run.None? then None else SamplesAt(data, FieldsOf(data), Nals, run.value, run.value.count)
  }

  // ---------------------------------------------------------------- what it must find

  function Expected(groups: seq<seq<bytes>>, pts: seq<int>, start: int, n: nat): seq<Sample>
    requires n <= |groups| && n <= |pts|
  {
    if n == 0 then []
    else
      var last := Sample(start + 3600 * (n - 1), pts[n - 1], HasIdr(groups[n - 1]), Kept(groups[n - 1]));
      Expected(groups, pts, start, n - 1) + [last]
  }

  lemma {:induction false} LengthsReadBack(nals: seq<bytes>)
    requires |SampleOf(nals)| < 0x1_0000_0000
    ensures Nals(SampleOf(nals)) == Some(nals)
  {
    if nals != [] {
      var nal, rest := nals[0], SampleOf(nals[1..]);
      LengthsReadBack(nals[1..]);
      FirstNal(nal, rest);
      assert nals == [nal] + nals[1..];
    }
  }

  lemma FirstNal(nal: bytes, rest: bytes)
    requires |nal| < 0x1_0000_0000
    ensures var s := (BE(4, |nal|) + nal) + rest;
      Nals(s) == if Nals(rest).None? then None else Some([nal] + Nals(rest).value)
  {
    var s := (BE(4, |nal|) + nal) + rest;
    WholeIsHeld(s, s);
    HoldsApart(s, 0, BE(4, |nal|) + nal, rest);
    HoldsApart(s, 0, BE(4, |nal|), nal);
    U32Reads(s, 0, |nal|);
    assert s[4 + |nal|..] == rest && s[4..4 + |nal|] == nal;
  }

  lemma RowReads(data: bytes, at: nat, size: nat, flags: nat, offset: int)
    requires size < 0x1_0000_0000 && flags < 0x1_0000_0000 && OffsetFits(offset)
    requires Holds(data, at, Row(size, flags, offset))
    ensures U32At(data, at) == 3600 && U32At(data, at + 4) == size && U32At(data, at + 8) == flags
    ensures Signed32(U32At(data, at + 12)) == offset
  {
    var n := if 0 <= offset then offset else offset + TWO32;
    HoldsApart(data, at, BE(4, 3600), BE(4, size) + (BE(4, flags) + BE(4, n)));
    HoldsApart(data, at + 4, BE(4, size), BE(4, flags) + BE(4, n));
    HoldsApart(data, at + 8, BE(4, flags), BE(4, n));
    U32Reads(data, at, 3600);
    U32Reads(data, at + 4, size);
    U32Reads(data, at + 8, flags);
    U32Reads(data, at + 12, n);
  }

  lemma FlagsTellSync(group: seq<bytes>)
    ensures Flags(group) < 0x1_0000_0000 && (Flags(group) / 0x10000 % 2 == 0 <==> HasIdr(group))
  {
  }

  /** Part `i` of joined parts stands behind the parts before it. */
  lemma {:induction false} JoinAt(data: bytes, at: nat, parts: seq<bytes>, i: nat)
    requires i < |parts| && Holds(data, at, Join(parts))
    ensures Holds(data, at + |Join(parts[..i])|, parts[i]) && |Join(parts[..i])| + |parts[i]| <= |Join(parts)|
    decreases |parts|
  {
    var n := |parts| - 1;
    HoldsApart(data, at, Join(parts[..n]), parts[n]);
    if i < n {
      JoinAt(data, at, parts[..n], i);
      assert parts[..n][..i] == parts[..i];
    }
  }

  lemma {:induction false} RowsLength(groups: seq<seq<bytes>>, pts: seq<int>, start: int, n: nat)
    requires n <= |groups| && n <= |pts|
    ensures |Join(RowsOf(groups, pts, start, n))| == 16 * n
  {
    if n > 0 {
      RowsLength(groups, pts, start, n - 1);
      var front := RowsOf(groups, pts, start, n - 1);
      JoinSnoc(front, RowsOf(groups, pts, start, n)[n - 1]);
    }
  }

  lemma {:induction false} RowsPrefix(groups: seq<seq<bytes>>, pts: seq<int>, start: int, n: nat, i: nat)
    requires i <= n <= |groups| && n <= |pts|
    ensures RowsOf(groups, pts, start, n)[..i] == RowsOf(groups, pts, start, i)
  {
    if i < n {
      RowsPrefix(groups, pts, start, n - 1, i);
    }
  }

  lemma {:induction false} SamplesPrefix(groups: seq<seq<bytes>>, n: nat, i: nat)
    requires i <= n <= |groups|
    ensures SamplesOf(groups, n)[..i] == SamplesOf(groups, i)
  {
    if i < n {
      SamplesPrefix(groups, n - 1, i);
    }
  }

  // ---------------------------------------------------------------- and does

  /** The fragment's rows and media stand where the run says. */
  predicate Laid(data: bytes, run: Run, groups: seq<seq<bytes>>, pts: seq<int>, start: nat) {
    && |pts| == |groups| && OffsetsFit(pts, start, |pts|) && |Media(groups)| < TWO32
    && run.base == start && run.count == |groups|
    && Holds(data, run.rows, Join(RowsOf(groups, pts, start, |groups|)))
    && Holds(data, run.media, Media(groups))
  }

  lemma MediaHolds(data: bytes, run: Run, groups: seq<seq<bytes>>, pts: seq<int>, start: nat, i: nat)
    requires Laid(data, run, groups, pts, start) && i < |groups|
    ensures var s := SampleOf(Kept(groups[i]));
      && Holds(data, run.media + |Join(SamplesOf(groups, i))|, s) && |s| < TWO32
      && |Join(SamplesOf(groups, i + 1))| == |Join(SamplesOf(groups, i))| + |s|
  {
    var n := |groups|;
    JoinAt(data, run.media, SamplesOf(groups, n), i);
    SamplesPrefix(groups, n, i);
    Mp4.SamplesAt(groups, n, i);
    JoinSnoc(SamplesOf(groups, i), SampleOf(Kept(groups[i])));
  }

  lemma RowAt(data: bytes, run: Run, groups: seq<seq<bytes>>, pts: seq<int>, start: nat, i: nat)
    requires Laid(data, run, groups, pts, start) && i < |groups|
    ensures var row := run.rows + 16 * i;
      && U32At(data, row) == 3600 && U32At(data, row + 4) == |SampleOf(Kept(groups[i]))|
      && U32At(data, row + 8) == Flags(groups[i]) && Signed32(U32At(data, row + 12)) == Offset(pts[i], start, i)
  {
    RowStands(data, run.rows, groups, pts, start, i);
    MediaHolds(data, run, groups, pts, start, i);
    FlagsTellSync(groups[i]);
    assert OffsetFits(Offset(pts[i], start, i));
    RowReads(data, run.rows + 16 * i, |SampleOf(Kept(groups[i]))|, Flags(groups[i]), Offset(pts[i], start, i));
  }

  lemma RowStands(data: bytes, rows: nat, groups: seq<seq<bytes>>, pts: seq<int>, start: int, i: nat)
    requires |pts| == |groups| && i < |groups| && Holds(data, rows, Join(RowsOf(groups, pts, start, |groups|)))
    ensures Holds(data, rows + 16 * i, Row(|SampleOf(Kept(groups[i]))|, Flags(groups[i]), Offset(pts[i], start, i)))
  {
    var n := |groups|;
    JoinAt(data, rows, RowsOf(groups, pts, start, n), i);
    RowsPrefix(groups, pts, start, n, i);
    RowsLength(groups, pts, start, i);
    RowsAt(groups, pts, start, n, i);
  }

  /** A sample as it was given: its bytes and NALs, its presentation time, and whether it is a sync sample. */
  datatype Given = Given(sample: bytes, nals: seq<bytes>, pts: int, sync: bool)

  /** What stands in row `i` and in the media, when the samples before it take `place` bytes. */
  predicate RowOk(data: bytes, u: Fields, walk: Walk, run: Run, g: Given, place: nat, i: nat) {
    var row := run.rows + 16 * i;
    && u(row) == 3600 && u(row + 4) == |g.sample| && (g.sync <==> u(row + 8) / 0x10000 % 2 == 0)
    && Signed32(u(row + 12)) == Offset(g.pts, run.base, i)
    && Holds(data, run.media + place, g.sample) && walk(g.sample) == Some(g.nals)
  }

  /** The samples stand one behind the other, each as its row says. */
  ghost predicate AllRowsOk(
    data: bytes, u: Fields, walk: Walk, run: Run, given: nat -> Given, place: nat -> nat, n: nat) {
    && place(0) == 0
    && forall i: nat :: i < n ==>
      RowOk(data, u, walk, run, given(i), place(i), i) && place(i + 1) == place(i) + |given(i).sample|
  }

  /** Row `i` leads from the place of its sample to the place of the next. */
  predicate StepOk(u: Fields, run: Run, place: nat -> nat, i: nat) {
    u(run.rows + 16 * i) == 3600 && place(i + 1) == place(i) + u(run.rows + 16 * i + 4)
  }

  /** Sizes and durations add up to the place and the time of each sample. */
  lemma {:induction false} PlaceAndTime(u: Fields, run: Run, place: nat -> nat, i: nat)
    requires place(0) == 0 && forall k: nat :: k < i ==> StepOk(u, run, place, k)
    ensures MediaAt(u, run, i) == run.media + place(i) && DecodeAt(u, run, i) == run.base + 3600 * i
    decreases i
  {
    if i > 0 {
      PlaceAndTime(u, run, place, i - 1);
      assert StepOk(u, run, place, i - 1);
    }
  }

  lemma RowsLead(data: bytes, u: Fields, walk: Walk, run: Run, given: nat -> Given, place: nat -> nat, n: nat, i: nat)
    requires AllRowsOk(data, u, walk, run, given, place, n) && i <= n
    ensures MediaAt(u, run, i) == run.media + place(i) && DecodeAt(u, run, i) == run.base + 3600 * i
  {
    forall k: nat | k < i ensures StepOk(u, run, place, k) {
      assert RowOk(data, u, walk, run, given(k), place(k), k);
    }
    PlaceAndTime(u, run, place, i);
  }

  function SampleOfGiven(g: Given, base: nat, i: nat): Sample {
    Sample(base + 3600 * i, g.pts, g.sync, g.nals)
  }

  function AllGiven(given: nat -> Given, base: nat, n: nat): seq<Sample> {
    if n == 0 then [] else AllGiven(given, base, n - 1) + [SampleOfGiven(given(n - 1), base, n - 1)]
  }

  lemma SampleReads(data: bytes, u: Fields, walk: Walk, run: Run, g: Given, place: nat, i: nat)
    requires RowOk(data, u, walk, run, g, place, i)
    requires MediaAt(u, run, i) == run.media + place && DecodeAt(u, run, i) == run.base + 3600 * i
    ensures SampleAt(data, u, walk, run, i) == Some(SampleOfGiven(g, run.base, i))
  {
  }

  lemma {:induction false} AllSamplesRead(
    data: bytes, u: Fields, walk: Walk, run: Run, given: nat -> Given, place: nat -> nat, n: nat, m: nat)
    requires AllRowsOk(data, u, walk, run, given, place, n) && m <= n
    ensures SamplesAt(data, u, walk, run, m) == Some(AllGiven(given, run.base, m))
    decreases m
  {
    if m > 0 {
      AllSamplesRead(data, u, walk, run, given, place, n, m - 1);
      RowsLead(data, u, walk, run, given, place, n, m - 1);
      SampleReads(data, u, walk, run, given(m - 1), place(m - 1), m - 1);
    }
  }

  // ---------------------------------------------------------------- written fragments

  function GivenBy(groups: seq<seq<bytes>>, pts: seq<int>): nat -> Given {
    (i: nat) =>
      if i < |groups| && i < |pts| then Given(SampleOf(Kept(groups[i])), Kept(groups[i]), pts[i], HasIdr(groups[i]))
      else Given([], [], 0, false)
  }

  function PlacedBy(groups: seq<seq<bytes>>): nat -> nat {
    (i: nat) => if i <= |groups| then |Join(SamplesOf(groups, i))| else 0
  }

  lemma RowsOk(data: bytes, run: Run, groups: seq<seq<bytes>>, pts: seq<int>, start: nat, i: nat)
    requires Laid(data, run, groups, pts, start) && i < |groups|
    ensures RowOk(data, FieldsOf(data), Nals, run, GivenBy(groups, pts)(i), |Join(SamplesOf(groups, i))|, i)
    ensures |Join(SamplesOf(groups, i + 1))| == |Join(SamplesOf(groups, i))| + |SampleOf(Kept(groups[i]))|
  {
    MediaHolds(data, run, groups, pts, start, i);
    RowOfGroup(data, run, groups, pts, start, i, |Join(SamplesOf(groups, i))|);
  }

  lemma RowOfGroup(data: bytes, run: Run, groups: seq<seq<bytes>>, pts: seq<int>, start: nat, i: nat, place: nat)
    requires Laid(data, run, groups, pts, start) && i < |groups|
    requires Holds(data, run.media + place, SampleOf(Kept(groups[i]))) && |SampleOf(Kept(groups[i]))| < TWO32
    ensures RowOk(data, FieldsOf(data), Nals, run, GivenBy(groups, pts)(i), place, i)
  {
    RowAt(data, run, groups, pts, start, i);
    FlagsTellSync(groups[i]);
    LengthsReadBack(Kept(groups[i]));
    RowFrom(data, run, GivenBy(groups, pts)(i), Flags(groups[i]), place, i);
  }

  lemma RowFrom(data: bytes, run: Run, g: Given, flags: nat, place: nat, i: nat)
    requires var row := run.rows + 16 * i;
      && U32At(data, row) == 3600 && U32At(data, row + 4) == |g.sample| && U32At(data, row + 8) == flags
      && Signed32(U32At(data, row + 12)) == Offset(g.pts, run.base, i)
    requires g.sync <==> flags / 0x10000 % 2 == 0
    requires Holds(data, run.media + place, g.sample) && Nals(g.sample) == Some(g.nals)
    ensures RowOk(data, FieldsOf(data), Nals, run, g, place, i)
  {
  }

  lemma {:induction false} ExpectedIsGiven(groups: seq<seq<bytes>>, pts: seq<int>, start: nat, n: nat)
    requires n <= |groups| && n <= |pts|
    ensures AllGiven(GivenBy(groups, pts), start, n) == Expected(groups, pts, start, n)
  {
    if n > 0 {
      ExpectedIsGiven(groups, pts, start, n - 1);
    }
  }

  lemma LaidReads(data: bytes, run: Run, groups: seq<seq<bytes>>, pts: seq<int>, start: nat)
    requires Laid(data, run, groups, pts, start)
    ensures SamplesAt(data, FieldsOf(data), Nals, run, |groups|) == Some(Expected(groups, pts, start, |groups|))
    ensures MediaAt(FieldsOf(data), run, |groups|) == run.media + |Media(groups)|
  {
    var n, given, place := |groups|, GivenBy(groups, pts), PlacedBy(groups);
    LaidRows(data, run, groups, pts, start);
    AllSamplesRead(data, FieldsOf(data), Nals, run, given, place, n, n);
    RowsLead(data, FieldsOf(data), Nals, run, given, place, n, n);
    ExpectedIsGiven(groups, pts, start, n);
  }

  lemma LaidRows(data: bytes, run: Run, groups: seq<seq<bytes>>, pts: seq<int>, start: nat)
    requires Laid(data, run, groups, pts, start)
    ensures AllRowsOk(data, FieldsOf(data), Nals, run, GivenBy(groups, pts), PlacedBy(groups), |groups|)
  {
    var n, given, place := |groups|, GivenBy(groups, pts), PlacedBy(groups);
    forall i: nat | i < n
      ensures RowOk(data, FieldsOf(data), Nals, run, given(i), place(i), i)
      ensures place(i + 1) == place(i) + |given(i).sample|
    {
      OneRowOk(data, run, groups, pts, start, i, given, place);
    }
    assert SamplesOf(groups, 0) == [];
  }

  lemma OneRowOk(
    data: bytes, run: Run, groups: seq<seq<bytes>>, pts: seq<int>, start: nat, i: nat,
    given: nat -> Given, place: nat -> nat)
    requires Laid(data, run, groups, pts, start) && i < |groups| && given == GivenBy(groups, pts)
    requires place == PlacedBy(groups)
    ensures RowOk(data, FieldsOf(data), Nals, run, given(i), place(i), i)
    ensures place(i + 1) == place(i) + |given(i).sample|
  {
    RowsOk(data, run, groups, pts, start, i);
    assert place(i) == |Join(SamplesOf(groups, i))| && place(i + 1) == |Join(SamplesOf(groups, i + 1))|;
    assert given(i).sample == SampleOf(Kept(groups[i]));
  }

  /** Whatever `fragment` accepts is read back: every sample with its decode time, its presentation time, its
      sync flag and its NALs without parameter sets, and the last sample ends where the fragment does. */
  lemma FragmentReadsBack(groups: seq<seq<bytes>>, pts: seq<int>, number: nat, start: nat)
    requires Packable(groups, pts, number, start)
    ensures var n := |groups|;
      var data := Fragment(n, Join(RowsOf(groups, pts, start, n)), Media(groups), number, start);
      && Demuxed(data) == Some(Expected(groups, pts, start, n))
      && RunOf(data) == Some(Run(start, n, 96 + 16 * n, 88))
      && MediaAt(FieldsOf(data), RunOf(data).value, n) == |data|
  {
    var n := |groups|;
    var rows, media := Join(RowsOf(groups, pts, start, n)), Media(groups);
    RowsLength(groups, pts, start, n);
    FragmentReads(n, rows, media, number, start);
    DataReadsBack(Fragment(n, rows, media, number, start), groups, pts, start);
  }

  lemma DataReadsBack(data: bytes, groups: seq<seq<bytes>>, pts: seq<int>, start: nat)
    requires var run := Run(start, |groups|, 96 + 16 * |groups|, 88);
      RunOf(data) == Some(run) && Laid(data, run, groups, pts, start) && |data| == run.media + |Media(groups)|
    ensures Demuxed(data) == Some(Expected(groups, pts, start, |groups|))
    ensures MediaAt(FieldsOf(data), RunOf(data).value, |groups|) == |data|
  {
    LaidReads(data, RunOf(data).value, groups, pts, start);
  }
}
