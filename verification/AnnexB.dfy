/** scripts/check_recording_capture_fixture.py, `split`: Annex B start codes found, NALs cut out between
    them and stripped of trailing zeros. */
module AnnexB {
  import opened Bytes

  datatype Start = Start(code: nat, begin: nat)

  /** The length of the start code at `at`, the longer one first; zero when there is none. */
  function CodeLength(data: bytes, at: nat): nat {
    if at + 4 <= |data| && data[at] == 0 && data[at + 1] == 0 && data[at + 2] == 0 && data[at + 3] == 1 then 4
    else if at + 3 <= |data| && data[at] == 0 && data[at + 1] == 0 && data[at + 2] == 1 then 3
    else 0
  }

  function StartsFrom(data: bytes, at: nat): seq<Start>
    decreases |data| - at
  {
    if at + 3 > |data| then []
    else if CodeLength(data, at) > 0 then
      [Start(at, at + CodeLength(data, at))] + StartsFrom(data, at + CodeLength(data, at))
    else StartsFrom(data, at + 1)
  }

  /** `rstrip(b"\0")` */
  function Strip(nal: bytes): bytes {
    if nal != [] && nal[|nal| - 1] == 0 then Strip(nal[..|nal| - 1]) else nal
  }

  predicate Ordered(data: bytes, starts: seq<Start>) {
    starts != [] ==>
      && starts[0].code < starts[0].begin <= |data|
      && (|starts| > 1 ==> starts[0].begin <= starts[1].code <= |data|)
      && Ordered(data, starts[1..])
  }

  function Segments(data: bytes, starts: seq<Start>): (r: seq<bytes>)
    requires Ordered(data, starts)
    ensures |r| == |starts|
  {
    if starts == [] then [] else
      [Strip(data[starts[0].begin..FirstEnd(data, starts)])] + Segments(data, starts[1..])
  }

  /** Where the first NAL ends: at the next start code, or with the data. */
  function FirstEnd(data: bytes, starts: seq<Start>): nat {
    if |starts| > 1 then starts[1].code else |data|
  }

  lemma {:induction false} StartsAreOrdered(data: bytes, at: nat)
    ensures Ordered(data, StartsFrom(data, at))
    ensures StartsFrom(data, at) != [] ==> at <= StartsFrom(data, at)[0].code
    decreases |data| - at
  {
    if at + 3 <= |data| {
      StartsAreOrdered(data, if CodeLength(data, at) > 0 then at + CodeLength(data, at) else at + 1);
    }
  }

  function SplitNals(data: bytes): seq<bytes> {
    StartsAreOrdered(data, 0);
    Segments(data, StartsFrom(data, 0))
  }

  lemma {:induction false} SegmentAt(data: bytes, starts: seq<Start>, i: nat)
    requires Ordered(data, starts) && i < |starts|
    ensures var end := if i + 1 < |starts| then starts[i + 1].code else |data|;
            starts[i].begin <= end <= |data| && Segments(data, starts)[i] == Strip(data[starts[i].begin..end])
    decreases i
  {
    if i > 0 {
      SegmentAt(data, starts[1..], i - 1);
    }
  }

  method FindStarts(data: bytes) returns (starts: seq<Start>)
    ensures starts == StartsFrom(data, 0)
  {
    var at := 0;
    starts := [];
    ghost var all := StartsFrom(data, 0);
    while at + 3 <= |data|
      invariant all == starts + StartsFrom(data, at)
      decreases |data| - at
    {
      var length := CodeLength(data, at);
      if length > 0 {
        Assoc(starts, [Start(at, at + length)], StartsFrom(data, at + length));
        starts := starts + [Start(at, at + length)];
        at := at + length;
      } else {
        at := at + 1;
      }
    }
  }

  method CutNals(data: bytes, starts: seq<Start>) returns (nals: seq<bytes>)
    requires Ordered(data, starts)
    ensures nals == Segments(data, starts)
  {
    nals := [];
    ghost var all := Segments(data, starts);
    for i := 0 to |starts|
      invariant nals == all[..i]
    {
      SegmentAt(data, starts, i);
      var end := if i + 1 < |starts| then starts[i + 1].code else |data|;
      nals := nals + [Strip(data[starts[i].begin..end])];
    }
  }

  method Split(data: bytes) returns (nals: seq<bytes>)
    ensures nals == SplitNals(data)
  {
    var starts := FindStarts(data);
    StartsAreOrdered(data, 0);
    nals := CutNals(data, starts);
  }

  // ---------------------------------------------------------------- framing

  function Zeros(n: nat): (r: bytes)
    ensures |r| == n && forall i :: 0 <= i < n ==> r[i] == 0
  {
    seq(n, _ => 0)
  }

  /** A NAL behind any number of zeros, at least two, and a one. */
  datatype Unit = Unit(zeros: nat, nal: bytes)

  /** A byte stream of such units; zeros may end it. */
  function Frame(units: seq<Unit>, trailing: nat): bytes {
    if units == [] then Zeros(trailing)
    else Zeros(units[0].zeros) + [1] + units[0].nal + Frame(units[1..], trailing)
  }

  function NalsOf(units: seq<Unit>): (r: seq<bytes>)
    ensures |r| == |units|
  {
    if units == [] then [] else [units[0].nal] + NalsOf(units[1..])
  }

  predicate ShortCodeAt(s: bytes, k: nat) {
    k + 3 <= |s| && s[k] == 0 && s[k + 1] == 0 && s[k + 2] == 1
  }

  /** No start code inside, no zero at the end. */
  predicate Framable(nal: bytes) {
    && (forall k :: 0 <= k < |nal| ==> !ShortCodeAt(nal, k))
    && (nal != [] ==> nal[|nal| - 1] != 0)
  }

  /** Where the start code that ends `z` zeros begins. */
  function Lead(z: nat): nat {
    if z >= 3 then z - 3 else 0
  }

  function FrameStarts(units: seq<Unit>, p: nat): (r: seq<Start>)
    ensures |r| == |units|
  {
    if units == [] then [] else
      [Start(p + Lead(units[0].zeros), p + units[0].zeros + 1)] + FrameStarts(units[1..], After(p, units[0]))
  }

  function After(p: nat, u: Unit): nat {
    p + u.zeros + 1 + |u.nal|
  }

  lemma {:induction false} ScanNal(data: bytes, p: nat, end: nat)
    requires p <= end <= |data| && Framable(data[p..end])
    ensures StartsFrom(data, p) == StartsFrom(data, end)
    decreases end - p
  {
    if p < end {
      var nal := data[p..end];
      assert data[end - 1] == nal[|nal| - 1];
      assert nal[1..] == data[p + 1..end];
      forall k | 0 <= k < |nal[1..]| ensures !ShortCodeAt(nal[1..], k) {
        assert !ShortCodeAt(nal, k + 1);
      }
      assert !ShortCodeAt(nal, 0);
      assert |nal| > 1 ==> !ShortCodeAt(nal, 1);
      ScanNal(data, p + 1, end);
    }
  }

  lemma {:induction false} ScanCode(data: bytes, p: nat, z: nat)
    requires p + z < |data| && z >= 2
    requires (forall k :: p <= k < p + z ==> data[k] == 0) && data[p + z] == 1
    ensures StartsFrom(data, p) == [Start(p + Lead(z), p + z + 1)] + StartsFrom(data, p + z + 1)
    decreases z
  {
    if z > 3 {
      ScanCode(data, p + 1, z - 1);
    }
  }

  lemma {:induction false} ScanZeros(data: bytes, p: nat)
    requires p <= |data| && forall k :: p <= k < |data| ==> data[k] == 0
    ensures StartsFrom(data, p) == []
    decreases |data| - p
  {
    if p < |data| {
      ScanZeros(data, p + 1);
    }
  }

  predicate ZeroRun(data: bytes, from: nat, to: nat) {
    from <= to <= |data| && forall k :: from <= k < to ==> data[k] == 0
  }

  /** One start code and the NAL after it. */
  predicate OneFramed(data: bytes, p: nat, u: Unit) {
    && u.zeros >= 2 && Framable(u.nal)
    && ZeroRun(data, p, p + u.zeros) && After(p, u) <= |data| && data[p + u.zeros] == 1
    && data[p + u.zeros + 1..After(p, u)] == u.nal
  }

  /** From `p` on, the data is a framed stream of these NALs. */
  predicate FramedAt(data: bytes, p: nat, units: seq<Unit>)
    decreases |units|
  {
    if units == [] then ZeroRun(data, p, |data|)
    else OneFramed(data, p, units[0]) && FramedAt(data, After(p, units[0]), units[1..])
  }

  lemma ScanOne(data: bytes, p: nat, u: Unit)
    requires OneFramed(data, p, u)
    ensures StartsFrom(data, p) == [Start(p + Lead(u.zeros), p + u.zeros + 1)] + StartsFrom(data, After(p, u))
  {
    ScanCode(data, p, u.zeros);
    ScanNal(data, p + u.zeros + 1, After(p, u));
  }

  lemma ZeroSlice(data: bytes, from: nat, to: nat)
    requires ZeroRun(data, from, to)
    ensures data[from..to] == Zeros(to - from)
  {
    var a, b := data[from..to], Zeros(to - from);
    forall k | 0 <= k < |a| ensures a[k] == b[k] {
      assert a[k] == data[from + k];
    }
  }

  lemma Halves(data: bytes, a: nat, b: nat, c: nat)
    requires a <= b <= c <= |data|
    ensures data[a..c] == data[a..b] + data[b..c]
  {
  }

  lemma FramedSlice(data: bytes, p: nat, u: Unit, end: nat)
    requires OneFramed(data, p, u) && ZeroRun(data, After(p, u), end)
    ensures data[p + u.zeros + 1..end] == u.nal + Zeros(end - After(p, u))
  {
    ZeroSlice(data, After(p, u), end);
    Halves(data, p + u.zeros + 1, After(p, u), end);
  }

  lemma CutOne(data: bytes, p: nat, u: Unit, end: nat)
    requires OneFramed(data, p, u) && ZeroRun(data, After(p, u), end)
    ensures Strip(data[p + u.zeros + 1..end]) == u.nal
  {
    FramedSlice(data, p, u, end);
    StripZeros(u.nal, end - After(p, u));
  }

  lemma Peel(data: bytes, p: nat, z: nat, nal: bytes, rest: bytes)
    requires p <= |data| && data[p..] == Zeros(z) + [1] + nal + rest
    ensures |data| == p + z + 1 + |nal| + |rest|
    ensures (forall k :: p <= k < p + z ==> data[k] == 0) && data[p + z] == 1
    ensures data[p + z + 1..p + z + 1 + |nal|] == nal
    ensures data[p + z + 1 + |nal|..] == rest
  {
    var tail := data[p..];
    forall k | p <= k < p + z ensures data[k] == 0 {
      assert data[k] == tail[k - p];
    }
    assert data[p + z] == tail[z];
    assert data[p + z + 1..p + z + 1 + |nal|] == tail[z + 1..z + 1 + |nal|];
    assert data[p + z + 1 + |nal|..] == tail[z + 1 + |nal|..];
  }

  predicate AllFramable(units: seq<Unit>) {
    forall i :: 0 <= i < |units| ==> Framable(units[i].nal) && units[i].zeros >= 2
  }

  lemma {:induction false} FrameIsFramed(data: bytes, p: nat, units: seq<Unit>, trailing: nat)
    requires p <= |data| && data[p..] == Frame(units, trailing) && AllFramable(units)
    ensures FramedAt(data, p, units)
    decreases |units|
  {
    if units == [] {
      forall k | p <= k < |data| ensures data[k] == 0 {
        assert data[k] == data[p..][k - p];
      }
    } else {
      Peel(data, p, units[0].zeros, units[0].nal, Frame(units[1..], trailing));
      FrameIsFramed(data, After(p, units[0]), units[1..], trailing);
    }
  }

  /** What a scanner does with framed data. */
  ghost predicate Scans(data: bytes, starts: nat -> seq<Start>) {
    && (forall p: nat, u :: OneFramed(data, p, u) ==> ScansOne(starts, p, u))
    && forall p: nat :: ZeroRun(data, p, |data|) ==> starts(p) == []
  }

  predicate ScansOne(starts: nat -> seq<Start>, p: nat, u: Unit) {
    starts(p) == [Start(p + Lead(u.zeros), p + u.zeros + 1)] + starts(After(p, u))
  }

  lemma {:induction false} ScanFrameBy(data: bytes, starts: nat -> seq<Start>, p: nat, units: seq<Unit>)
    requires Scans(data, starts) && FramedAt(data, p, units)
    ensures starts(p) == FrameStarts(units, p)
    decreases |units|
  {
    if units != [] {
      assert ScansOne(starts, p, units[0]);
      ScanFrameBy(data, starts, After(p, units[0]), units[1..]);
    }
  }

  lemma ScanFrame(data: bytes, p: nat, units: seq<Unit>)
    requires FramedAt(data, p, units)
    ensures StartsFrom(data, p) == FrameStarts(units, p)
  {
    var starts := (q: nat) => StartsFrom(data, q);
    forall q: nat, u | OneFramed(data, q, u) ensures ScansOne(starts, q, u) {
      ScanOne(data, q, u);
    }
    forall q: nat | ZeroRun(data, q, |data|) ensures starts(q) == [] {
      ScanZeros(data, q);
    }
    ScanFrameBy(data, starts, p, units);
  }

  lemma {:induction false} StripZeros(nal: bytes, n: nat)
    requires nal != [] ==> nal[|nal| - 1] != 0
    ensures Strip(nal + Zeros(n)) == nal
    decreases n
  {
    if n > 0 {
      assert (nal + Zeros(n))[..|nal + Zeros(n)| - 1] == nal + Zeros(n - 1);
      StripZeros(nal, n - 1);
    } else {
      assert nal + Zeros(0) == nal;
    }
  }

  lemma {:induction false} FrameSegments(data: bytes, p: nat, units: seq<Unit>)
    requires FramedAt(data, p, units) && Ordered(data, FrameStarts(units, p))
    ensures Segments(data, FrameStarts(units, p)) == NalsOf(units)
    decreases |units|
  {
    if units != [] {
      HeadOfFrame(data, p, units);
      FrameSegments(data, After(p, units[0]), units[1..]);
      assert FrameStarts(units, p)[1..] == FrameStarts(units[1..], After(p, units[0]));
    }
  }

  lemma HeadOfFrame(data: bytes, p: nat, units: seq<Unit>)
    requires FramedAt(data, p, units) && units != [] && Ordered(data, FrameStarts(units, p))
    ensures var starts := FrameStarts(units, p);
            Strip(data[starts[0].begin..FirstEnd(data, starts)]) == units[0].nal
  {
    var starts, rest := FrameStarts(units, p), FrameStarts(units[1..], After(p, units[0]));
    assert |units| > 1 ==> starts[1] == rest[0];
    CutOne(data, p, units[0], FirstEnd(data, starts));
  }

  lemma FramedSplits(units: seq<Unit>, trailing: nat)
    requires AllFramable(units)
    ensures SplitNals(Frame(units, trailing)) == NalsOf(units)
  {
    var data := Frame(units, trailing);
    assert data[0..] == data;
    FrameIsFramed(data, 0, units, trailing);
    ScanFrame(data, 0, units);
    StartsAreOrdered(data, 0);
    FrameSegments(data, 0, units);
  }

  // ---------------------------------------------------------------- what comes out

  predicate NoCode(nal: bytes) {
    forall k :: 0 <= k < |nal| ==> !ShortCodeAt(nal, k)
  }

  /** The scanner passes no start code by. */
  lemma {:induction false} NoCodeBefore(data: bytes, at: nat, k: nat)
    requires var starts := StartsFrom(data, at); at <= k && k + 3 <= if starts == [] then |data| else starts[0].code
    ensures !ShortCodeAt(data, k)
    decreases |data| - at
  {
    if at + 3 <= |data| && CodeLength(data, at) == 0 && at < k {
      NoCodeBefore(data, at + 1, k);
    }
  }

  lemma {:induction false} StripFramable(nal: bytes)
    requires NoCode(nal)
    ensures Framable(Strip(nal))
    decreases |nal|
  {
    if nal != [] && nal[|nal| - 1] == 0 {
      var front := nal[..|nal| - 1];
      forall k | 0 <= k < |front| ensures !ShortCodeAt(front, k) {
        assert !ShortCodeAt(nal, k);
      }
      StripFramable(front);
    }
  }

  /** What lies between two start codes that were found has none inside. */
  lemma CutHasNoCode(data: bytes, at: nat, end: nat)
    requires at <= end <= |data|
    requires var starts := StartsFrom(data, at); end == if starts == [] then |data| else starts[0].code
    ensures NoCode(data[at..end])
  {
    var cut := data[at..end];
    forall k | 0 <= k < |cut| ensures !ShortCodeAt(cut, k) {
      if ShortCodeAt(cut, k) {
        NoCodeBefore(data, at, at + k);
        assert ShortCodeAt(data, at + k);
      }
    }
  }

  lemma {:induction false} SegmentsFramable(data: bytes, at: nat)
    requires Ordered(data, StartsFrom(data, at))
    ensures forall i :: 0 <= i < |StartsFrom(data, at)| ==> Framable(Segments(data, StartsFrom(data, at))[i])
    decreases |data| - at
  {
    if at + 3 <= |data| {
      var n := CodeLength(data, at);
      if n == 0 {
        SegmentsFramable(data, at + 1);
      } else {
        var starts := StartsFrom(data, at);
        assert starts[1..] == StartsFrom(data, at + n);
        SegmentsFramable(data, at + n);
        CutHasNoCode(data, at + n, FirstEnd(data, starts));
        StripFramable(data[at + n..FirstEnd(data, starts)]);
      }
    }
  }

  /** Whatever is split, no NAL that comes out contains a start code or ends in zero. */
  lemma SplitNalsAreFramable(data: bytes)
    ensures forall i :: 0 <= i < |SplitNals(data)| ==> Framable(SplitNals(data)[i])
  {
    StartsAreOrdered(data, 0);
    SegmentsFramable(data, 0);
  }

  lemma {:induction false} NalAt(units: seq<Unit>, i: nat)
    requires i < |units|
    ensures NalsOf(units)[i] == units[i].nal
    decreases i
  {
    if i > 0 {
      NalAt(units[1..], i - 1);
    }
  }

  /** `split` undoes framing, whatever the start codes' lengths and the zeros before and after them, exactly for NALs
      without a start code inside or a zero at the end. */
  lemma SplitUndoesFraming(units: seq<Unit>, trailing: nat)
    requires forall i :: 0 <= i < |units| ==> units[i].zeros >= 2
    ensures SplitNals(Frame(units, trailing)) == NalsOf(units) <==>
            forall i :: 0 <= i < |units| ==> Framable(units[i].nal)
  {
    if AllFramable(units) {
      FramedSplits(units, trailing);
    }
    if SplitNals(Frame(units, trailing)) == NalsOf(units) {
      SplitNalsAreFramable(Frame(units, trailing));
      forall i | 0 <= i < |units| ensures Framable(units[i].nal) {
        NalAt(units, i);
      }
    }
  }
}
