/** scripts/check_recording_capture_fixture.py, `independent_windows`: a NAL stream cut before each IDR
    picture that follows another picture, together with the parameter sets and delimiters in front of it. */
module Windows {
  import opened Bytes

  predicate Vcl(nals: seq<bytes>, i: nat)
    requires i < |nals| && nals[i] != []
  {
    Kind(nals[i][0]) == 1 || Kind(nals[i][0]) == 5
  }

  predicate Idr(nals: seq<bytes>, i: nat)
    requires i < |nals| && nals[i] != []
  {
    Kind(nals[i][0]) == 5
  }

  /** SEI, parameter sets and access unit delimiters. */
  predicate Leading(nals: seq<bytes>, i: nat)
    requires i < |nals| && nals[i] != []
  {
    6 <= Kind(nals[i][0]) <= 9
  }

  /** Some picture comes before `i`. */
  predicate Seen(nals: seq<bytes>, i: nat)
    requires NonEmpty(nals) && i <= |nals|
  {
    exists v :: 0 <= v < i && Vcl(nals, v)
  }

  /** The last picture before `i`. */
  function LastVcl(nals: seq<bytes>, i: nat): (v: nat)
    requires NonEmpty(nals) && i <= |nals| && Seen(nals, i)
    ensures v < i && Vcl(nals, v) && forall k :: v < k < i ==> !Vcl(nals, k)
  {
    if Vcl(nals, i - 1) then i - 1 else LastVcl(nals, i - 1)
  }

  /** The first leading NAL from `from` on, before `i`; `i` when there is none. */
  function FirstLeading(nals: seq<bytes>, from: nat, i: nat): (p: nat)
    requires NonEmpty(nals) && from <= i <= |nals|
    ensures from <= p <= i && (p < i ==> Leading(nals, p)) && forall k :: from <= k < p ==> !Leading(nals, k)
    decreases i - from
  {
    if from == i || Leading(nals, from) then from else FirstLeading(nals, from + 1, i)
  }

  /** Where the window of an IDR picture at `i` begins: with the leading NALs after the last picture. */
  function Cut(nals: seq<bytes>, i: nat): nat
    requires NonEmpty(nals) && i < |nals| && Seen(nals, i)
  {
    FirstLeading(nals, LastVcl(nals, i) + 1, i)
  }

  /** The beginnings of the windows opened by the first `i` NALs. */
  function Begins(nals: seq<bytes>, i: nat): (r: seq<nat>)
    requires NonEmpty(nals) && i <= |nals|
    ensures r != []
  {
    if i == 0 then [0]
    else if Idr(nals, i - 1) && Seen(nals, i - 1) then Begins(nals, i - 1) + [Cut(nals, i - 1)]
    else Begins(nals, i - 1)
  }

  function Range(a: nat, b: nat): (r: seq<nat>)
    requires a <= b
    ensures |r| == b - a && forall k :: 0 <= k < |r| ==> r[k] == a + k
  {
    seq(b - a, k => a + k)
  }

  predicate Ascending(begins: seq<nat>, n: nat) {
    && begins != [] && begins[0] == 0 && begins[|begins| - 1] <= n
    && forall i, j :: 0 <= i < j < |begins| ==> begins[i] < begins[j]
  }

  function End(begins: seq<nat>, n: nat, k: nat): nat
    requires k < |begins|
  {
    if k + 1 < |begins| then begins[k + 1] else n
  }

  /** Every window after the first begins after a picture, at or before its own IDR. */
  lemma {:induction false} BeginsAscend(nals: seq<bytes>, i: nat)
    requires NonEmpty(nals) && i <= |nals|
    ensures Ascending(Begins(nals, i), i)
    ensures Seen(nals, i) ==> Begins(nals, i)[|Begins(nals, i)| - 1] <= LastVcl(nals, i)
    decreases i
  {
    if i > 0 {
      BeginsAscend(nals, i - 1);
      if Seen(nals, i) && !Vcl(nals, i - 1) {
        assert LastVcl(nals, i) == LastVcl(nals, i - 1);
      }
    }
  }

  /** The variables of the loop. */
  datatype Scan = Scan(windows: seq<seq<nat>>, begin: nat, prefix: Option<nat>, hasPicture: bool)

  function Last(begins: seq<nat>): nat
    requires begins != []
  {
    begins[|begins| - 1]
  }

  /** The windows closed so far. */
  function Closed(begins: seq<nat>): seq<seq<nat>> {
    if |begins| <= 1 then []
    else Closed(begins[..|begins| - 1]) + [Between(begins[|begins| - 2], begins[|begins| - 1])]
  }

  function Between(a: nat, b: nat): seq<nat> {
    if a <= b then Range(a, b) else []
  }

  /** The variables before NAL `i`, from what the stream says. */
  function ScanAt(nals: seq<bytes>, i: nat): Scan
    requires NonEmpty(nals) && i <= |nals|
  {
    Scan(Closed(Begins(nals, i)), Last(Begins(nals, i)),
         if Seen(nals, i) then PendingPrefix(nals, i) else None, Seen(nals, i))
  }

  lemma ClosedSnoc(begins: seq<nat>, cut: nat)
    requires begins != []
    ensures Closed(begins + [cut]) == Closed(begins) + [Between(Last(begins), cut)]
  {
    var now := begins + [cut];
    assert now[..|now| - 1] == begins;
  }

  lemma CutIsPending(nals: seq<bytes>, i: nat)
    requires NonEmpty(nals) && i < |nals| && Seen(nals, i) && !Leading(nals, i)
    ensures Cut(nals, i) == if PendingPrefix(nals, i).None? then i else PendingPrefix(nals, i).value
  {
  }

  function WindowsFrom(begins: seq<nat>, n: nat): seq<seq<nat>>
    requires begins != []
  {
    Closed(begins) + [Between(Last(begins), n)]
  }

  function WindowsOf(nals: seq<bytes>): seq<seq<nat>>
    requires NonEmpty(nals)
  {
    WindowsFrom(Begins(nals, |nals|), |nals|)
  }

  /** `None` is the IndexError that an empty NAL raises. */
  method IndependentWindows(nals: seq<bytes>) returns (r: Option<seq<seq<nat>>>)
    ensures r == if NonEmpty(nals) then Some(WindowsOf(nals)) else None
  {
    if !NonEmpty(nals) {
      return None;
    }
    var windows: seq<seq<nat>>, begin: nat, prefix: Option<nat>, hasPicture := [], 0, None, false;
    for i := 0 to |nals|
      invariant Scan(windows, begin, prefix, hasPicture) == ScanAt(nals, i)
    {
      ScanNext(nals, i);
      if hasPicture && Leading(nals, i) && prefix == None {
        prefix := Some(i);
      }
      if !Vcl(nals, i) {
        continue;
      }
      if Idr(nals, i) && hasPicture {
        var cut := if prefix == None then i else prefix.value;
        windows := windows + [Between(begin, cut)];
        begin := cut;
      }
      hasPicture := true;
      prefix := None;
    }
    return Some(windows + [Between(begin, |nals|)]);
  }

  /** One NAL later. */
  lemma ScanNext(nals: seq<bytes>, i: nat)
    requires NonEmpty(nals) && i < |nals|
    ensures var s := ScanAt(nals, i);
            ScanAt(nals, i + 1) ==
            if !Vcl(nals, i) then
              s.(prefix := if s.hasPicture && Leading(nals, i) && s.prefix.None? then Some(i) else s.prefix)
            else if Idr(nals, i) && s.hasPicture then
              var cut := if s.prefix.None? then i else s.prefix.value;
              Scan(s.windows + [Between(s.begin, cut)], cut, None, true)
            else Scan(s.windows, s.begin, None, true)
  {
    SeenNext(nals, i);
    if Idr(nals, i) && Seen(nals, i) {
      CutIsPending(nals, i);
      ClosedSnoc(Begins(nals, i), Cut(nals, i));
    }
  }

  /** The first leading NAL since the last picture. */
  function PendingPrefix(nals: seq<bytes>, i: nat): Option<nat>
    requires NonEmpty(nals) && i <= |nals| && Seen(nals, i)
  {
    var p := FirstLeading(nals, LastVcl(nals, i) + 1, i);
    if p < i then Some(p) else None
  }

  lemma SeenNext(nals: seq<bytes>, i: nat)
    requires NonEmpty(nals) && i < |nals|
    ensures Seen(nals, i + 1) <==> Seen(nals, i) || Vcl(nals, i)
    ensures Vcl(nals, i) ==> LastVcl(nals, i + 1) == i && PendingPrefix(nals, i + 1) == None
    ensures !Vcl(nals, i) && Seen(nals, i) ==>
      PendingPrefix(nals, i + 1) ==
      if PendingPrefix(nals, i) == None && Leading(nals, i) then Some(i) else PendingPrefix(nals, i)
  {
    if Vcl(nals, i) {
      assert Seen(nals, i + 1);
    }
    if !Vcl(nals, i) && Seen(nals, i) {
      FirstLeadingNext(nals, LastVcl(nals, i) + 1, i);
    }
  }

  lemma {:induction false} FirstLeadingNext(nals: seq<bytes>, from: nat, i: nat)
    requires NonEmpty(nals) && from <= i < |nals|
    ensures FirstLeading(nals, from, i + 1) ==
            var p := FirstLeading(nals, from, i); if p < i || Leading(nals, i) then p else i + 1
    decreases i - from
  {
    if from < i && !Leading(nals, from) {
      FirstLeadingNext(nals, from + 1, i);
    }
  }

  // ---------------------------------------------------------------- what the windows are

  function Concat(windows: seq<seq<nat>>): seq<nat> {
    if windows == [] then [] else windows[0] + Concat(windows[1..])
  }

  lemma {:induction false} ConcatSnoc(windows: seq<seq<nat>>, w: seq<nat>)
    ensures Concat(windows + [w]) == Concat(windows) + w
  {
    if windows == [] {
      assert windows + [w] == [w];
      assert Concat([w]) == w + Concat([]);
    } else {
      assert (windows + [w])[1..] == windows[1..] + [w];
      ConcatSnoc(windows[1..], w);
      assert windows[0] + (Concat(windows[1..]) + w) == (windows[0] + Concat(windows[1..])) + w;
    }
  }

  lemma RangesJoin(a: nat, b: nat, c: nat)
    requires a <= b <= c
    ensures Range(a, b) + Range(b, c) == Range(a, c)
  {
  }

  lemma ClosedIsWindows(begins: seq<nat>)
    requires |begins| > 1
    ensures Closed(begins) == WindowsFrom(begins[..|begins| - 1], begins[|begins| - 1])
  {
    var before := begins[..|begins| - 1];
    assert before[|before| - 1] == begins[|begins| - 2];
  }

  lemma {:induction false} ConcatClosed(begins: seq<nat>, n: nat)
    requires Ascending(begins, n)
    ensures Concat(WindowsFrom(begins, n)) == Range(0, n)
    decreases |begins|
  {
    var m := |begins| - 1;
    ConcatSnoc(Closed(begins), Between(begins[m], n));
    if m > 0 {
      ConcatClosed(begins[..m], begins[m]);
      ClosedIsWindows(begins);
      RangesJoin(0, begins[m], n);
    }
  }

  lemma {:induction false} WindowsAt(begins: seq<nat>, n: nat)
    requires Ascending(begins, n)
    ensures |WindowsFrom(begins, n)| == |begins|
    ensures forall k :: 0 <= k < |begins| ==>
      begins[k] <= End(begins, n, k) && WindowsFrom(begins, n)[k] == Range(begins[k], End(begins, n, k))
    decreases |begins|
  {
    var m := |begins| - 1;
    if m > 0 {
      var before := begins[..m];
      WindowsAt(before, begins[m]);
      ClosedIsWindows(begins);
      forall k | 0 <= k < m
        ensures begins[k] <= End(begins, n, k) && Closed(begins)[k] == Range(begins[k], End(begins, n, k))
      {
        assert before[k] == begins[k] && End(before, begins[m], k) == End(begins, n, k);
      }
    }
  }

  /** The windows put together are the whole stream in order. */
  lemma WindowsCoverTheStream(nals: seq<bytes>)
    requires NonEmpty(nals)
    ensures Concat(WindowsOf(nals)) == Range(0, |nals|)
  {
    BeginsAscend(nals, |nals|);
    ConcatClosed(Begins(nals, |nals|), |nals|);
  }

  /** What the beginnings up to `i` say: each later one starts a run of non-pictures that ends in the IDR
      that opened it, and no IDR follows another picture of its window. */
  ghost predicate Independent(nals: seq<bytes>, begins: seq<nat>, i: nat)
    requires NonEmpty(nals) && i <= |nals| && Ascending(begins, i)
  {
    forall k :: 0 <= k < |begins| ==> WindowOk(nals, begins[k], End(begins, i, k), k == 0, k + 1 < |begins|)
  }

  /** The window from `a` to `b`: every one but the first opens with an IDR, an IDR is only ever the first
      picture, and a closed one holds a picture. */
  ghost predicate WindowOk(nals: seq<bytes>, a: nat, b: nat, first: bool, closed: bool)
    requires NonEmpty(nals) && b <= |nals|
  {
    && (first || OpensWithIdr(nals, a, b))
    && OnlyFirstIdr(nals, a, b)
    && (closed ==> HasPicture(nals, a, b))
  }

  ghost predicate OpensWithIdr(nals: seq<bytes>, a: nat, b: nat)
    requires NonEmpty(nals) && b <= |nals|
  {
    exists v :: a <= v < b && Idr(nals, v) && forall k :: a <= k < v ==> !Vcl(nals, k)
  }

  predicate OnlyFirstIdr(nals: seq<bytes>, a: nat, b: nat)
    requires NonEmpty(nals) && b <= |nals|
  {
    forall v, k :: a <= k < v < b && Idr(nals, v) ==> !Vcl(nals, k)
  }

  predicate HasPicture(nals: seq<bytes>, a: nat, b: nat)
    requires NonEmpty(nals) && b <= |nals|
  {
    exists v :: a <= v < b && Vcl(nals, v)
  }

  lemma {:induction false} BeginsAreIndependent(nals: seq<bytes>, i: nat)
    requires NonEmpty(nals) && i <= |nals|
    ensures Ascending(Begins(nals, i), i) && Independent(nals, Begins(nals, i), i)
    decreases i
  {
    if i == 0 {
      FirstWindow(nals);
    } else {
      BeginsAreIndependent(nals, i - 1);
      BeginsAscend(nals, i - 1);
      if Idr(nals, i - 1) && Seen(nals, i - 1) {
        NextOpens(nals, i - 1);
      } else {
        NextExtends(nals, i - 1);
      }
    }
  }

  lemma FirstWindow(nals: seq<bytes>)
    requires NonEmpty(nals)
    ensures Ascending(Begins(nals, 0), 0) && Independent(nals, Begins(nals, 0), 0)
  {
    BeginsAscend(nals, 0);
  }

  lemma NextExtends(nals: seq<bytes>, i: nat)
    requires NonEmpty(nals) && i < |nals| && !(Idr(nals, i) && Seen(nals, i))
    requires Ascending(Begins(nals, i), i) && Independent(nals, Begins(nals, i), i)
    ensures Ascending(Begins(nals, i + 1), i + 1) && Independent(nals, Begins(nals, i + 1), i + 1)
  {
    assert Begins(nals, i + 1) == Begins(nals, i);
    ExtendWindow(nals, Begins(nals, i), i);
  }

  lemma NextOpens(nals: seq<bytes>, i: nat)
    requires NonEmpty(nals) && i < |nals| && Idr(nals, i) && Seen(nals, i)
    requires Ascending(Begins(nals, i), i) && Independent(nals, Begins(nals, i), i)
    requires Begins(nals, i)[|Begins(nals, i)| - 1] <= LastVcl(nals, i)
    ensures Ascending(Begins(nals, i + 1), i + 1) && Independent(nals, Begins(nals, i + 1), i + 1)
  {
    var begins, v, cut := Begins(nals, i), LastVcl(nals, i), Cut(nals, i);
    assert Begins(nals, i + 1) == begins + [cut];
    OpenWindow(nals, begins, i, v, cut);
  }

  lemma OpenWindow(nals: seq<bytes>, begins: seq<nat>, i: nat, v: nat, cut: nat)
    requires NonEmpty(nals) && i < |nals| && Idr(nals, i)
    requires Ascending(begins, i) && Independent(nals, begins, i) && begins[|begins| - 1] <= v < cut <= i
    requires Vcl(nals, v) && forall k :: v < k < i ==> !Vcl(nals, k)
    ensures Ascending(begins + [cut], i + 1) && Independent(nals, begins + [cut], i + 1)
  {
    var now, m := begins + [cut], |begins| - 1;
    OpenedEnds(begins, i, cut);
    forall k | 0 <= k < |now| ensures WindowOk(nals, now[k], End(now, i + 1, k), k == 0, k + 1 < |now|) {
      if k < m {
        assert WindowOk(nals, begins[k], End(begins, i, k), k == 0, true);
      } else if k == m {
        assert WindowOk(nals, begins[m], i, m == 0, false);
        CloseWindow(nals, begins[m], i, v, cut, m == 0);
      } else {
        assert Idr(nals, i);
      }
    }
  }

  /** A new window ends the last one at the cut. */
  lemma OpenedEnds(begins: seq<nat>, i: nat, cut: nat)
    requires Ascending(begins, i) && begins[|begins| - 1] < cut <= i
    ensures Ascending(begins + [cut], i + 1)
    ensures forall k :: 0 <= k < |begins| ==> End(begins + [cut], i + 1, k) <= End(begins, i, k)
    ensures forall k :: 0 <= k < |begins| - 1 ==> End(begins + [cut], i + 1, k) == End(begins, i, k)
    ensures End(begins + [cut], i + 1, |begins| - 1) == cut && End(begins, i, |begins| - 1) == i
    ensures End(begins + [cut], i + 1, |begins|) == i + 1
  {
  }

  lemma CloseWindow(nals: seq<bytes>, a: nat, i: nat, v: nat, cut: nat, first: bool)
    requires NonEmpty(nals) && i <= |nals| && a <= v < cut <= i && WindowOk(nals, a, i, first, false)
    requires Vcl(nals, v) && forall k :: v < k < i ==> !Vcl(nals, k)
    ensures WindowOk(nals, a, cut, first, true)
  {
    if !first {
      var w :| a <= w < i && Idr(nals, w) && forall j :: a <= j < w ==> !Vcl(nals, j);
      assert Vcl(nals, w);
    }
  }

  lemma ExtendWindow(nals: seq<bytes>, begins: seq<nat>, i: nat)
    requires NonEmpty(nals) && i < |nals| && (Idr(nals, i) ==> !Seen(nals, i))
    requires Ascending(begins, i) && Independent(nals, begins, i)
    ensures Ascending(begins, i + 1) && Independent(nals, begins, i + 1)
  {
    forall k | 0 <= k < |begins|
      ensures WindowOk(nals, begins[k], End(begins, i + 1, k), k == 0, k + 1 < |begins|)
    {
      assert WindowOk(nals, begins[k], End(begins, i, k), k == 0, k + 1 < |begins|);
      if k + 1 == |begins| {
        GrowWindow(nals, begins[k], i, k == 0);
      }
    }
  }

  lemma GrowWindow(nals: seq<bytes>, a: nat, i: nat, first: bool)
    requires NonEmpty(nals) && i < |nals| && (Idr(nals, i) ==> !Seen(nals, i))
    requires WindowOk(nals, a, i, first, false)
    ensures WindowOk(nals, a, i + 1, first, false)
  {
    if !first {
      var w :| a <= w < i && Idr(nals, w) && forall j :: a <= j < w ==> !Vcl(nals, j);
      assert a <= w < i + 1;
    }
  }

  /** An IDR is only ever the first picture of its window, every window after the first opens with one,
      and every closed window holds a picture. */
  lemma WindowsAreIndependent(nals: seq<bytes>)
    requires NonEmpty(nals)
    ensures var begins := Begins(nals, |nals|);
            && Ascending(begins, |nals|) && Independent(nals, begins, |nals|)
            && |WindowsOf(nals)| == |begins|
            && forall k :: 0 <= k < |begins| ==>
                 begins[k] <= End(begins, |nals|, k) && WindowsOf(nals)[k] == Range(begins[k], End(begins, |nals|, k))
  {
    BeginsAreIndependent(nals, |nals|);
    WindowsAt(Begins(nals, |nals|), |nals|);
  }
}
