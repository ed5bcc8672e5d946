/** scripts/check_mp4_fixtures.py, `box`, `full` and `fragment`: one movie fragment as bytes. */
module Mp4 {
  import opened Bytes
  import opened Wire

  datatype Refusal = EmptyNal | Unpackable | UnequalLengths

  /** A four-letter tag. */
  type Tag = t: bytes | |t| == 4 witness [0, 0, 0, 0]

  function TagOf(s: string): Tag
    requires |s| == 4
  {
    Ascii(s)
  }

  function Box(tag: Tag, data: bytes): bytes {
    BE(4, |data| + 8) + (tag + data)
  }

  function Full(tag: Tag, flags: nat, data: bytes): bytes {
    Box(tag, BE(4, flags) + data)
  }

  /** A 32-bit two's complement number; only used where it fits. */
  function Signed(n: int): (r: bytes)
    ensures |r| == 4
  {
    BE(4, if 0 <= n then n else if -TWO31 <= n then n + TWO32 else 0)
  }

  // ---------------------------------------------------------------- samples

  predicate AllPresent(group: seq<bytes>) {
    forall i :: 0 <= i < |group| ==> group[i] != []
  }

  /** Neither a sequence nor a picture parameter set. */
  predicate IsKept(nal: bytes) {
    nal != [] && Kind(nal[0]) != 7 && Kind(nal[0]) != 8
  }

  function Kept(group: seq<bytes>): seq<bytes> {
    if group == [] then []
    else (if IsKept(group[0]) then [group[0]] else []) + Kept(group[1..])
  }

  /** The NALs behind their lengths. */
  function SampleOf(nals: seq<bytes>): bytes {
    if nals == [] then [] else (BE(4, |nals[0]|) + nals[0]) + SampleOf(nals[1..])
  }

  predicate IsIdr(nal: bytes) {
    nal != [] && Kind(nal[0]) == 5
  }

  predicate HasIdr(group: seq<bytes>) {
    exists i :: 0 <= i < |group| && IsIdr(group[i])
  }

  function Flags(group: seq<bytes>): nat {
    if HasIdr(group) then 0x0200_0000 else 0x0101_0000
  }

  /** The first `n` samples. */
  function SamplesOf(groups: seq<seq<bytes>>, n: nat): (r: seq<bytes>)
    requires n <= |groups|
    ensures |r| == n
  {
    if n == 0 then [] else SamplesOf(groups, n - 1) + [SampleOf(Kept(groups[n - 1]))]
  }

  function Media(groups: seq<seq<bytes>>): bytes {
    Join(SamplesOf(groups, |groups|))
  }

  /** Presentation time relative to decode time. */
  function Offset(pt: int, start: int, i: nat): int {
    pt - start - i * 3600
  }

  predicate OffsetFits(offset: int) {
    -TWO31 <= offset < TWO31
  }

  /** One row of the track run: duration, size, flags, offset. */
  function Row(size: nat, flags: nat, offset: int): (r: bytes)
    ensures |r| == 16
  {
    BE(4, 3600) + (BE(4, size) + (BE(4, flags) + Signed(offset)))
  }

  /** The first `n` rows. */
  function RowsOf(groups: seq<seq<bytes>>, pts: seq<int>, start: int, n: nat): (r: seq<bytes>)
    requires n <= |groups| && n <= |pts|
    ensures |r| == n
  {
    if n == 0 then []
    else
      var row := Row(|SampleOf(Kept(groups[n - 1]))|, Flags(groups[n - 1]), Offset(pts[n - 1], start, n - 1));
      RowsOf(groups, pts, start, n - 1) + [row]
  }

  predicate OffsetsFit(pts: seq<int>, start: int, n: nat)
    requires n <= |pts|
  {
    forall i: nat :: i < n ==> OffsetFits(Offset(pts[i], start, i))
  }

  /** What `struct.pack` and `zip(strict=True)` accept. */
  predicate Packable(groups: seq<seq<bytes>>, pts: seq<int>, number: int, start: int) {
    && (forall i :: 0 <= i < |groups| ==> AllPresent(groups[i])) && |pts| == |groups|
    && OffsetsFit(pts, start, |pts|)
    && 0 <= number < TWO32 && 0 <= start < TWO64 && 96 + 16 * |groups| < TWO32
    && |Media(groups)| + 8 < TWO32
  }

  function Traf(n: nat, rows: bytes, start: nat): bytes {
    Full(TagOf("tfhd"), 0x20000, BE(4, 1)) +
    (Full(TagOf("tfdt"), 0x1000000, BE(8, start)) +
     Full(TagOf("trun"), 0x1000f01, BE(4, n) + (BE(4, 96 + 16 * n) + rows)))
  }

  function Moof(n: nat, rows: bytes, number: nat, start: nat): bytes {
    Box(TagOf("moof"), Full(TagOf("mfhd"), 0, BE(4, number)) + Box(TagOf("traf"), Traf(n, rows, start)))
  }

  function Fragment(n: nat, rows: bytes, media: bytes, number: nat, start: nat): bytes {
    Moof(n, rows, number, start) + Box(TagOf("mdat"), media)
  }

  /** Where the source asserts the media to begin. */
  lemma MoofLength(n: nat, rows: bytes, number: nat, start: nat)
    requires |rows| == 16 * n
    ensures |Moof(n, rows, number, start)| == 88 + 16 * n
  {
  }

  // ---------------------------------------------------------------- the writer

  /** One sample; `None` for a NAL without a first byte. */
  method JoinSample(group: seq<bytes>) returns (r: Option<bytes>)
    ensures r.Some? <==> AllPresent(group)
    ensures r.Some? ==> r.value == SampleOf(Kept(group))
  {
    var out: bytes := [];
    for i := 0 to |group|
      invariant AllPresent(group[..i])
      invariant out + SampleOf(Kept(group[i..])) == SampleOf(Kept(group))
    {
      if group[i] == [] {
        return None;
      }
      KeptStep(group, i, out);
      if Kind(group[i][0]) != 7 && Kind(group[i][0]) != 8 {
        out := out + (BE(4, |group[i]|) + group[i]);
      }
    }
    assert out + [] == out;
    r := Some(out);
  }

  lemma KeptStep(group: seq<bytes>, i: nat, out: bytes)
    requires i < |group|
    ensures var nal := group[i];
      out + SampleOf(Kept(group[i..])) ==
      (if IsKept(nal) then out + (BE(4, |nal|) + nal) else out) + SampleOf(Kept(group[i + 1..]))
  {
    var nal, rest := group[i], Kept(group[i + 1..]);
    assert group[i..][0] == nal && group[i..][1..] == group[i + 1..];
    if IsKept(nal) {
      assert ([nal] + rest)[1..] == rest;
      var own: bytes := BE(4, |nal|) + nal;
      assert out + (own + SampleOf(rest)) == (out + own) + SampleOf(rest);
    } else {
      assert [] + rest == rest;
    }
  }

  method AnyIdr(group: seq<bytes>) returns (any: bool)
    ensures any <==> HasIdr(group)
  {
    any := exists i :: 0 <= i < |group| && IsIdr(group[i]);
  }

  /** The fragment, and its part in front of the media. */
  method WriteFragment(groups: seq<seq<bytes>>, pts: seq<int>, number: int, start: int)
    returns (r: Result<(bytes, bytes), Refusal>)
    ensures r.Ok? <==> Packable(groups, pts, number, start)
    ensures r.Ok? ==> var n := |groups|;
      && r.value.0 == Fragment(n, Join(RowsOf(groups, pts, start, n)), Media(groups), number, start)
      && 96 + 16 * n <= |r.value.0| && r.value.1 == r.value.0[..96 + 16 * n]
  {
    var n := |groups|;
    var samples := WriteSamples(groups);
    if samples.Refused? {
      return Refused(samples.why);
    }
    if |pts| != n {
      return Refused(UnequalLengths);
    }
    var rows := WriteRows(groups, samples.value, pts, start);
    if rows.Refused? {
      return Refused(rows.why);
    }
    var media := JoinAll(samples.value);
    if !(0 <= number < TWO32 && 0 <= start < TWO64 && 96 + 16 * n < TWO32 && |media| + 8 < TWO32) {
      return Refused(Unpackable);
    }
    var moof := Moof(n, rows.value, number, start);
    MoofLength(n, rows.value, number, start);
    var data := moof + Box(TagOf("mdat"), media);
    r := Ok((data, data[..96 + 16 * n]));
  }

  method JoinAll(parts: seq<bytes>) returns (r: bytes)
    ensures r == Join(parts)
  {
    r := [];
    for i := 0 to |parts|
      invariant r == Join(parts[..i])
    {
      assert parts[..i + 1][..i] == parts[..i];
      r := r + parts[i];
    }
    assert parts[..|parts|] == parts;
  }

  method WriteSamples(groups: seq<seq<bytes>>) returns (r: Result<seq<bytes>, Refusal>)
    ensures r.Ok? <==> forall i :: 0 <= i < |groups| ==> AllPresent(groups[i])
    ensures r.Ok? ==> r.value == SamplesOf(groups, |groups|)
  {
    var samples: seq<bytes> := [];
    for i := 0 to |groups|
      invariant samples == SamplesOf(groups, i)
      invariant forall k :: 0 <= k < i ==> AllPresent(groups[k])
    {
      var sample := JoinSample(groups[i]);
      if sample.None? {
        r := Refused(EmptyNal);
        return;
      }
      samples := samples + [sample.value];
    }
    r := Ok(samples);
  }

  method WriteRow(group: seq<bytes>, size: nat, pt: int, start: int, i: nat) returns (r: Option<bytes>)
    ensures r.Some? <==> OffsetFits(Offset(pt, start, i))
    ensures r.Some? ==> r.value == Row(size, Flags(group), Offset(pt, start, i))
  {
    var idr := AnyIdr(group);
    var offset := pt - start - i * 3600;
    if !(-TWO31 <= offset < TWO31) {
      return None;
    }
    var flags := if idr then 0x0200_0000 else 0x0101_0000;
    r := Some(BE(4, 3600) + (BE(4, size) + (BE(4, flags) + Signed(offset))));
  }

  lemma {:induction false} SamplesAt(groups: seq<seq<bytes>>, n: nat, i: nat)
    requires i < n <= |groups|
    ensures SamplesOf(groups, n)[i] == SampleOf(Kept(groups[i]))
  {
    if i < n - 1 {
      SamplesAt(groups, n - 1, i);
    }
  }

  lemma {:induction false} RowsAt(groups: seq<seq<bytes>>, pts: seq<int>, start: int, n: nat, i: nat)
    requires i < n <= |groups| && n <= |pts|
    ensures RowsOf(groups, pts, start, n)[i] ==
      Row(|SampleOf(Kept(groups[i]))|, Flags(groups[i]), Offset(pts[i], start, i))
  {
    if i < n - 1 {
      RowsAt(groups, pts, start, n - 1, i);
    }
  }

  method WriteRows(groups: seq<seq<bytes>>, samples: seq<bytes>, pts: seq<int>, start: int)
    returns (r: Result<bytes, Refusal>)
    requires |groups| == |pts| && samples == SamplesOf(groups, |groups|)
    ensures r.Ok? <==> OffsetsFit(pts, start, |pts|)
    ensures r.Ok? ==> r.value == Join(RowsOf(groups, pts, start, |groups|)) && |r.value| == 16 * |groups|
  {
    var rows: bytes := [];
    for i := 0 to |groups|
      invariant rows == Join(RowsOf(groups, pts, start, i)) && |rows| == 16 * i
      invariant OffsetsFit(pts, start, i)
    {
      SamplesAt(groups, |groups|, i);
      var row := WriteRow(groups[i], |samples[i]|, pts[i], start, i);
      if row.None? {
        return Refused(Unpackable);
      }
      RowsNext(groups, pts, start, i, row.value);
      rows := rows + row.value;
    }
    r := Ok(rows);
  }

  lemma RowsNext(groups: seq<seq<bytes>>, pts: seq<int>, start: int, i: nat, row: bytes)
    requires i < |groups| && i < |pts|
    requires row == Row(|SampleOf(Kept(groups[i]))|, Flags(groups[i]), Offset(pts[i], start, i))
    ensures Join(RowsOf(groups, pts, start, i + 1)) == Join(RowsOf(groups, pts, start, i)) + row
  {
    JoinSnoc(RowsOf(groups, pts, start, i), row);
  }

  lemma JoinSnoc(parts: seq<bytes>, part: bytes)
    ensures Join(parts + [part]) == Join(parts) + part
  {
    assert (parts + [part])[..|parts|] == parts;
  }
}
