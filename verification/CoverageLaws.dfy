/** `compress` builds the coarsest partition of its labels, and `project` relabels a partition without
    moving a range. */
module CoverageLaws {
  import opened Bytes
  import opened Sorting
  import opened Coverage

  // ---------------------------------------------------------------- compress

  /** A new range begins at label `i`. */
  predicate Break(labels: seq<string>, i: nat)
    requires i < |labels|
  {
    i == 0 || labels[i] != labels[i - 1] || labels[i] == "entry"
  }

  predicate IsolatedWitness(labels: seq<string>, i: nat)
    requires i < |labels|
  {
    && labels[i] == "witness" && (i == 0 || labels[i - 1] != "witness")
    && (i == |labels| - 1 || labels[i + 1] != "witness")
  }

  /** What the label of an index becomes. */
  function Renamed(labels: seq<string>, i: nat): string
    requires i < |labels|
  {
    if IsolatedWitness(labels, i) then "too_short" else labels[i]
  }

  /** `r` is a run of equal labels that begins at a break and has none inside. */
  predicate IsRun(labels: seq<string>, offset: int, r: Range) {
    && offset <= r.lo <= r.hi < offset + |labels| && Break(labels, r.lo - offset)
    && (forall i: nat :: r.lo - offset <= i <= r.hi - offset ==> labels[i] == r.tag)
    && (forall i: nat :: r.lo - offset < i <= r.hi - offset ==> !Break(labels, i))
  }

  predicate AreRuns(labels: seq<string>, offset: int, s: seq<Range>) {
    forall k :: 0 <= k < |s| ==> IsRun(labels, offset, s[k])
  }

  function Rename(r: Range): Range {
    if r.lo == r.hi && r.tag == "witness" then r.(tag := "too_short") else r
  }

  /** A run with the name its labels get. */
  predicate IsNamedRun(labels: seq<string>, offset: int, r: Range) {
    && offset <= r.lo <= r.hi < offset + |labels| && Break(labels, r.lo - offset)
    && (forall i: nat :: r.lo - offset <= i <= r.hi - offset ==> Renamed(labels, i) == r.tag)
    && (forall i: nat :: r.lo - offset < i <= r.hi - offset ==> !Break(labels, i))
  }

  /** The ranges are the maximal runs of the labels, in order (`entry` never joins its neighbour), and expand
      index by index to the labels with isolated witnesses renamed. */
  predicate Compresses(labels: seq<string>, offset: int, s: seq<Range>) {
    if labels == [] then s == []
    else Tiles(s, offset, offset + |labels| - 1) && forall k :: 0 <= k < |s| ==> IsNamedRun(labels, offset, s[k])
  }

  /** The list after one more label. */
  function Extended(out: seq<Range>, at: int, tag: string): seq<Range> {
    if out != [] && out[|out| - 1].tag == tag && tag != "entry" then
      out[..|out| - 1] + [Range(out[|out| - 1].lo, at, tag)]
    else out + [Range(at, at, tag)]
  }

  predicate RunsSoFar(labels: seq<string>, offset: int, out: seq<Range>, i: nat) {
    && AreRuns(labels, offset, out)
    && if i == 0 then out == [] else Tiles(out, offset, offset + i - 1)
  }

  lemma ExtendedRuns(labels: seq<string>, offset: int, out: seq<Range>, i: nat)
    requires i < |labels| && RunsSoFar(labels, offset, out, i)
    ensures RunsSoFar(labels, offset, Extended(out, offset + i, labels[i]), i + 1)
  {
    if out != [] {
      var n := |out| - 1;
      assert IsRun(labels, offset, out[n]);
      RunMeets(labels, offset, out[n], i);
      TilesCover(out, offset, offset + i - 1, offset);
      if out[n].tag == labels[i] && labels[i] != "entry" {
        RunsSnoc(labels, offset, out[..n], Range(out[n].lo, offset + i, labels[i]));
      } else {
        RunsSnoc(labels, offset, out, Range(offset + i, offset + i, labels[i]));
      }
    } else {
      RunsSnoc(labels, offset, out, Range(offset, offset, labels[i]));
    }
  }

  lemma RunsSnoc(labels: seq<string>, offset: int, front: seq<Range>, r: Range)
    requires AreRuns(labels, offset, front) && IsRun(labels, offset, r)
    requires if front == [] then r.lo == offset else offset < r.lo && Tiles(front, offset, r.lo - 1)
    ensures AreRuns(labels, offset, front + [r]) && Tiles(front + [r], offset, r.hi)
  {
    assert (front + [r])[..|front|] == front;
  }

  /** The label behind a run lengthens it or begins a new one. */
  lemma RunMeets(labels: seq<string>, offset: int, last: Range, i: nat)
    requires 0 < i < |labels| && IsRun(labels, offset, last) && last.hi == offset + i - 1
    ensures if last.tag == labels[i] && labels[i] != "entry"
            then IsRun(labels, offset, Range(last.lo, offset + i, labels[i]))
            else IsRun(labels, offset, Range(offset + i, offset + i, labels[i]))
  {
    assert labels[i - 1] == last.tag;
  }

  method Compress(labels: seq<string>, offset: int) returns (r: seq<Range>)
    ensures Compresses(labels, offset, r)
  {
    var out: seq<Range> := [];
    for i := 0 to |labels|
      invariant RunsSoFar(labels, offset, out, i)
    {
      ExtendedRuns(labels, offset, out, i);
      if out != [] && out[|out| - 1].tag == labels[i] && labels[i] != "entry" {
        out := out[..|out| - 1] + [Range(out[|out| - 1].lo, offset + i, labels[i])];
      } else {
        out := out + [Range(offset + i, offset + i, labels[i])];
      }
    }
    RunsAreNamed(labels, offset, out);
    r := seq(|out|, k requires 0 <= k < |out| => Rename(out[k]));
  }

  lemma RunsAreNamed(labels: seq<string>, offset: int, out: seq<Range>)
    requires RunsSoFar(labels, offset, out, |labels|)
    ensures Compresses(labels, offset, seq(|out|, k requires 0 <= k < |out| => Rename(out[k])))
  {
    var r := seq(|out|, k requires 0 <= k < |out| => Rename(out[k]));
    if labels != [] {
      SameBoundsTile(out, r, offset, offset + |labels| - 1);
      forall k | 0 <= k < |out| ensures IsNamedRun(labels, offset, r[k]) {
        RunEnds(labels, offset, out, k);
        NameOfRun(labels, offset, out[k]);
      }
    }
  }

  /** A run of a full tiling ends where the labels do or where the next run begins. */
  lemma RunEnds(labels: seq<string>, offset: int, out: seq<Range>, k: nat)
    requires labels != [] && RunsSoFar(labels, offset, out, |labels|) && k < |out|
    ensures IsRun(labels, offset, out[k])
    ensures out[k].hi == offset + |labels| - 1 || Break(labels, out[k].hi + 1 - offset)
  {
    if k < |out| - 1 {
      TilesAt(out, offset, offset + |labels| - 1, k + 1);
      assert IsRun(labels, offset, out[k + 1]);
    }
  }

  lemma NameOfRun(labels: seq<string>, offset: int, r: Range)
    requires IsRun(labels, offset, r)
    requires r.hi == offset + |labels| - 1 || Break(labels, r.hi + 1 - offset)
    ensures IsNamedRun(labels, offset, Rename(r))
  {
    forall i: nat | r.lo - offset <= i <= r.hi - offset ensures Renamed(labels, i) == Rename(r).tag {
      NameInRun(labels, r.lo - offset, r.hi - offset, r.tag, i);
    }
  }

  lemma NameInRun(labels: seq<string>, lo: nat, hi: nat, tag: string, i: nat)
    requires lo <= i <= hi < |labels| && Break(labels, lo) && (hi == |labels| - 1 || Break(labels, hi + 1))
    requires forall j: nat :: lo <= j <= hi ==> labels[j] == tag
    ensures Renamed(labels, i) == if lo == hi && tag == "witness" then "too_short" else tag
  {
    assert labels[i] == tag;
    if lo < hi {
      assert i < hi ==> labels[i + 1] == tag;
      assert i > lo ==> labels[i - 1] == tag;
    }
  }

  predicate SameBounds(s: seq<Range>, t: seq<Range>) {
    |s| == |t| && forall k :: 0 <= k < |s| ==> s[k].lo == t[k].lo && s[k].hi == t[k].hi
  }

  lemma {:induction false} SameBoundsTile(s: seq<Range>, t: seq<Range>, first: int, last: int)
    requires SameBounds(s, t)
    ensures Tiles(s, first, last) <==> Tiles(t, first, last)
    decreases |s|
  {
    if |s| > 1 {
      var n := |s| - 1;
      SameBoundsTile(s[..n], t[..n], first, s[n].lo - 1);
    }
  }

  lemma TilesPartition(s: seq<Range>, first: int, last: int)
    requires Tiles(s, first, last) && last <= MAX
    ensures Partitions(s, first, last)
  {
    forall at ensures Cover(s, at) == if first <= at <= last then 1 else 0 {
      TilesCover(s, first, last, at);
    }
    TilesCover(s, first, last, first);
  }

  /** What `compress` returns for 64-bit indices is accepted. */
  lemma CompressedIsAccepted(labels: seq<string>, offset: int, s: seq<Range>)
    requires labels != [] && Compresses(labels, offset, s) && offset + |labels| - 1 <= MAX
    ensures Partitions(s, offset, offset + |labels| - 1)
  {
    TilesPartition(s, offset, offset + |labels| - 1);
  }

  /** And it is the only list of ranges that compresses the labels. */
  lemma {:induction false} CompressionIsUnique(labels: seq<string>, offset: int, s: seq<Range>, t: seq<Range>)
    requires Compresses(labels, offset, s) && Compresses(labels, offset, t)
    ensures s == t
  {
    if labels != [] {
      SameTiling(labels, offset, offset + |labels| - 1, s, t);
    }
  }

  lemma {:induction false} SameTiling(labels: seq<string>, offset: int, last: int, s: seq<Range>, t: seq<Range>)
    requires offset <= last < offset + |labels|
    requires Tiles(s, offset, last) && forall k :: 0 <= k < |s| ==> IsNamedRun(labels, offset, s[k])
    requires Tiles(t, offset, last) && forall k :: 0 <= k < |t| ==> IsNamedRun(labels, offset, t[k])
    ensures s == t
    decreases |s|
  {
    var m, n := |s| - 1, |t| - 1;
    var a, b := s[m], t[n];
    assert IsNamedRun(labels, offset, a) && IsNamedRun(labels, offset, b);
    assert a.lo == b.lo;
    assert Renamed(labels, last - offset) == a.tag == b.tag;
    assert (m == 0) == (n == 0);
    if m > 0 {
      SameTiling(labels, offset, a.lo - 1, s[..m], t[..n]);
    }
    assert s == s[..m] + [a] && t == t[..n] + [b];
  }

  // ---------------------------------------------------------------- project

  /** The ranges that are witnesses, or those that are not. */
  function Select(s: seq<Range>, seen: bool): seq<Range> {
    if s == [] then []
    else
      var r := s[|s| - 1];
      Select(s[..|s| - 1], seen) + if (r.tag == "witness") == seen then [r] else []
  }

  /** The range without evidence. */
  function Doubted(r: Range): Range {
    Range(r.lo, r.hi, "calibration_uncertainty")
  }

  function AllDoubted(s: seq<Range>): (t: seq<Range>)
    ensures |t| == |s| && forall i :: 0 <= i < |s| ==> t[i] == Doubted(s[i])
  {
    seq(|s|, i requires 0 <= i < |s| => Doubted(s[i]))
  }

  function Project(ranges: seq<Range>, reject: bool): seq<Range> {
    var witnesses, gaps := Select(ranges, true), Select(ranges, false);
    if reject then Sorted(gaps + AllDoubted(witnesses)) else Sorted(witnesses + gaps)
  }

  /** What one range becomes. */
  function Projected(r: Range, reject: bool): Range {
    if reject && r.tag == "witness" then Doubted(r) else r
  }

  function AllProjected(s: seq<Range>, reject: bool): (t: seq<Range>)
    ensures |t| == |s| && forall i :: 0 <= i < |s| ==> t[i] == Projected(s[i], reject)
  {
    seq(|s|, i requires 0 <= i < |s| => Projected(s[i], reject))
  }

  lemma {:induction false} SelectionsMakeAll(s: seq<Range>)
    ensures multiset(s) == multiset(Select(s, true)) + multiset(Select(s, false))
  {
    if s != [] {
      var front, r := s[..|s| - 1], s[|s| - 1];
      SelectionsMakeAll(front);
      LastApart(s);
      SelectSnoc(s, true);
      SelectSnoc(s, false);
    }
  }

  lemma SelectSnoc(s: seq<Range>, seen: bool)
    requires s != []
    ensures var front, r := s[..|s| - 1], s[|s| - 1];
      Select(s, seen) == if (r.tag == "witness") == seen then Select(front, seen) + [r] else Select(front, seen)
  {
  }

  lemma {:induction false} DoubtedSelections(s: seq<Range>)
    ensures multiset(AllProjected(s, true)) == multiset(AllDoubted(Select(s, true))) + multiset(Select(s, false))
    decreases |s|
  {
    if s != [] {
      var front, r := s[..|s| - 1], s[|s| - 1];
      DoubtedSelections(front);
      ProjectedSnoc(s);
      SelectSnoc(s, true);
      SelectSnoc(s, false);
      DoubtedSnoc(Select(front, true), r);
    }
  }

  lemma ProjectedSnoc(s: seq<Range>)
    requires s != []
    ensures var front, r := s[..|s| - 1], s[|s| - 1];
      multiset(AllProjected(s, true)) == multiset(AllProjected(front, true)) + multiset{Projected(r, true)}
  {
    var front, r := s[..|s| - 1], s[|s| - 1];
    assert AllProjected(s, true) == AllProjected(front, true) + [Projected(r, true)];
  }

  lemma DoubtedSnoc(w: seq<Range>, r: Range)
    ensures multiset(AllDoubted(w + [r])) == multiset(AllDoubted(w)) + multiset{Doubted(r)}
  {
    assert AllDoubted(w + [r]) == AllDoubted(w) + [Doubted(r)];
  }

  /** `project` is the pointwise relabelling, sorted. */
  lemma ProjectRelabels(s: seq<Range>, reject: bool)
    ensures Project(s, reject) == Sorted(AllProjected(s, reject))
    ensures multiset(Project(s, reject)) == multiset(AllProjected(s, reject))
    ensures Ordered(Leq, Project(s, reject))
  {
    var w, g := Select(s, true), Select(s, false);
    if reject {
      DoubtedSelections(s);
    } else {
      SelectionsMakeAll(s);
      assert AllProjected(s, reject) == s;
    }
    var all := if reject then g + AllDoubted(w) else w + g;
    assert multiset(all) == multiset(AllProjected(s, reject));
    RangeOrder();
    SortOfSame(Leq, all, AllProjected(s, reject));
    SortSorts(Leq, AllProjected(s, reject));
  }

  lemma NothingToRelabel(s: seq<Range>, p: seq<Range>, reject: bool)
    requires multiset(p) == multiset(AllProjected(s, reject))
    ensures AllProjected(p, reject) == p
  {
    var all, again := AllProjected(s, reject), AllProjected(p, reject);
    forall i | 0 <= i < |p| ensures again[i] == p[i] {
      assert p[i] in multiset(p);
      assert p[i] in all;
    }
  }

  /** Projecting twice is projecting once. */
  lemma ProjectIsIdempotent(s: seq<Range>, reject: bool)
    ensures Project(Project(s, reject), reject) == Project(s, reject)
  {
    var p := Project(s, reject);
    ProjectRelabels(s, reject);
    ProjectRelabels(p, reject);
    NothingToRelabel(s, p, reject);
    RangeOrder();
    SortOfOrdered(Leq, p);
  }

  lemma PartitionOfSorted(s: seq<Range>, first: int, last: int)
    ensures Partitions(Sorted(s), first, last) <==> Partitions(s, first, last)
  {
    SortedPartition(s, first, last);
    SortedPartition(Sorted(s), first, last);
    RangeOrder();
    SortSorts(Leq, s);
    SortOfOrdered(Leq, Sorted(s));
  }

  lemma {:induction false} SameBoundsCover(s: seq<Range>, t: seq<Range>, at: int)
    requires SameBounds(s, t)
    ensures Cover(s, at) == Cover(t, at)
    decreases |s|
  {
    if s != [] {
      SameBoundsCover(s[..|s| - 1], t[..|t| - 1], at);
    }
  }

  /** A projection is a partition exactly when its source is. */
  lemma ProjectKeepsPartitions(s: seq<Range>, reject: bool, first: int, last: int)
    ensures Partitions(Project(s, reject), first, last) <==> Partitions(s, first, last)
  {
    var t := AllProjected(s, reject);
    ProjectRelabels(s, reject);
    PartitionOfSorted(t, first, last);
    if Partitions(s, first, last) {
      SameBoundsPartition(s, t, first, last);
    }
    if Partitions(t, first, last) {
      SameBoundsPartition(t, s, first, last);
    }
  }

  lemma SameBoundsPartition(s: seq<Range>, t: seq<Range>, first: int, last: int)
    requires SameBounds(s, t) && Partitions(s, first, last)
    ensures Partitions(t, first, last)
  {
    forall at ensures Cover(s, at) == Cover(t, at) {
      SameBoundsCover(s, t, at);
    }
  }

  /** How often each range occurs afterwards: nothing that is not a witness is lost, an accepted projection
      changes nothing, and a rejected one turns every witness into a gap of the same bounds. */
  lemma {:induction false} ProjectCounts(s: seq<Range>, reject: bool, r: Range)
    ensures multiset(Project(s, reject))[r] ==
      if !reject then multiset(s)[r]
      else if r.tag == "witness" then 0
      else multiset(s)[r] + if r == Doubted(r) then multiset(s)[Range(r.lo, r.hi, "witness")] else 0
  {
    ProjectRelabels(s, reject);
    CountProjected(s, reject, r);
  }

  lemma {:induction false} CountProjected(s: seq<Range>, reject: bool, r: Range)
    ensures multiset(AllProjected(s, reject))[r] ==
      if !reject then multiset(s)[r]
      else if r.tag == "witness" then 0
      else multiset(s)[r] + if r == Doubted(r) then multiset(s)[Range(r.lo, r.hi, "witness")] else 0
    decreases |s|
  {
    if s != [] {
      var front, x := s[..|s| - 1], s[|s| - 1];
      CountProjected(front, reject, r);
      assert AllProjected(s, reject) == AllProjected(front, reject) + [Projected(x, reject)];
      assert s == front + [x];
    }
  }

  /** A partition stops being one when a range is repeated or left out. */
  lemma RepeatsAndHolesAreRefused(s: seq<Range>, k: nat, first: int, last: int)
    requires Partitions(s, first, last) && k < |s|
    ensures !Partitions(s[..k] + [s[k], s[k]] + s[k + 1..], first, last)
    ensures !Partitions(s[..k] + s[k + 1..], first, last)
  {
    var at, r := s[k].lo, [s[k]];
    CoverAround(s[..k], r, s[k + 1..], at);
    CoverAround(s[..k], r + r, s[k + 1..], at);
    CoverIsAdditive(s[..k], s[k + 1..], at);
    CoverIsAdditive(r, r, at);
    assert s == s[..k] + r + s[k + 1..] && r + r == [s[k], s[k]];
    assert Cover(r, at) == 1 by {
      assert r[..0] == [];
    }
    assert Cover(s, at) == 1;
    assert Cover(s[..k] + [s[k], s[k]] + s[k + 1..], at) == 2;
    assert Cover(s[..k] + s[k + 1..], at) == 0;
  }

  lemma CoverAround(a: seq<Range>, b: seq<Range>, c: seq<Range>, at: int)
    ensures Cover(a + b + c, at) == Cover(a, at) + Cover(b, at) + Cover(c, at)
  {
    CoverIsAdditive(a + b, c, at);
    CoverIsAdditive(a, b, at);
  }
}
