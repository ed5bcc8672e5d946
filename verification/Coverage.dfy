/** scripts/calibration_coverage_receipt_model.py, `partition`, `compress` and `project`: labelled index ranges
    that cover an interval exactly once. */
module Coverage {
  import opened Bytes
  import opened Sorting

  datatype Range = Range(lo: int, hi: int, tag: string)

  const MAX: int := 0xFFFF_FFFF_FFFF_FFFF

  // ---------------------------------------------------------------- Python's order of ranges

  predicate Leq(a: Range, b: Range) {
    a.lo < b.lo || (a.lo == b.lo && (a.hi < b.hi || (a.hi == b.hi && TextLeq(a.tag, b.tag))))
  }

  lemma RangeOrder()
    ensures IsOrder(Leq)
  {
    forall a, b, c ensures OrderAt(Leq, a, b, c) {
      TextOrder(a.tag, b.tag, c.tag);
    }
  }

  /** `sorted(ranges)`. */
  function Sorted(s: seq<Range>): seq<Range> {
    Sort(Leq, s)
  }

  // ---------------------------------------------------------------- covering an interval once

  predicate Within(s: seq<Range>, first: int, last: int) {
    forall i :: 0 <= i < |s| ==> first <= s[i].lo <= s[i].hi <= last
  }

  function Covers(r: Range, at: int): nat {
    if r.lo <= at <= r.hi then 1 else 0
  }

  /** How many ranges contain an index. */
  function Cover(s: seq<Range>, at: int): nat {
    if s == [] then 0 else Cover(s[..|s| - 1], at) + Covers(s[|s| - 1], at)
  }

  predicate CoversOnce(s: seq<Range>, first: int, last: int) {
    forall at :: first <= at <= last ==> Cover(s, at) == 1
  }

  /** Every range is a proper part of the interval, every index lies in exactly one of them, and none ends
      at the largest 64-bit index unless the interval does. */
  predicate Partitions(s: seq<Range>, first: int, last: int) {
    && first <= last && Within(s, first, last) && CoversOnce(s, first, last)
    && (last != MAX ==> forall i :: 0 <= i < |s| ==> s[i].hi != MAX)
  }

  /** Each range begins right behind the one before. */
  predicate Tiles(s: seq<Range>, first: int, last: int) {
    s != [] &&
    var r := s[|s| - 1];
    r.lo <= r.hi == last && if |s| == 1 then r.lo == first else first < r.lo && Tiles(s[..|s| - 1], first, r.lo - 1)
  }

  lemma {:induction false} TilesCover(s: seq<Range>, first: int, last: int, at: int)
    requires Tiles(s, first, last)
    ensures first <= last && Within(s, first, last)
    ensures Cover(s, at) == if first <= at <= last then 1 else 0
  {
    var front := s[..|s| - 1];
    if |s| > 1 {
      TilesCover(front, first, s[|s| - 1].lo - 1, at);
    } else {
      assert Cover(front, at) == 0;
    }
    assert forall i :: 0 <= i < |front| ==> s[i] == front[i];
  }

  lemma {:induction false} CoverBound(s: seq<Range>, k: nat, at: int)
    requires k < |s| && s[k].lo <= at <= s[k].hi
    ensures Cover(s, at) >= 1
  {
    if k < |s| - 1 {
      CoverBound(s[..|s| - 1], k, at);
    }
  }

  lemma {:induction false} Covering(s: seq<Range>, at: int) returns (k: nat)
    requires Cover(s, at) > 0
    ensures k < |s| && s[k].lo <= at <= s[k].hi
  {
    if Covers(s[|s| - 1], at) > 0 {
      k := |s| - 1;
    } else {
      k := Covering(s[..|s| - 1], at);
    }
  }

  /** Ordered ranges that cover an interval once tile it. */
  lemma {:induction false} OnceTiles(s: seq<Range>, first: int, last: int)
    requires Ordered(Leq, s) && first <= last && Within(s, first, last) && CoversOnce(s, first, last)
    ensures Tiles(s, first, last)
    decreases |s|
  {
    assert Cover(s, last) == 1;
    var k := Covering(s, last);
    var n := |s| - 1;
    var front, r := s[..n], s[n];
    assert Leq(s[k], r) || k == n;
    assert Cover(s, r.lo) == Cover(front, r.lo) + 1;
    if k < n {
      CoverBound(front, k, r.lo);
      assert false;
    }
    forall i | 0 <= i < n ensures front[i].hi < r.lo {
      if front[i].hi >= r.lo {
        assert Leq(s[i], r);
        CoverBound(front, i, r.lo);
      }
    }
    assert Cover(s, first) == 1;
    if n > 0 {
      assert first <= front[0].lo <= front[0].hi < r.lo;
      forall at | first <= at <= r.lo - 1 ensures Cover(front, at) == 1 {
        assert Cover(s, at) == 1;
      }
      OnceTiles(front, first, r.lo - 1);
    }
  }

  lemma {:induction false} CoverIsAdditive(a: seq<Range>, b: seq<Range>, at: int)
    ensures Cover(a + b, at) == Cover(a, at) + Cover(b, at)
    decreases |b|
  {
    if b == [] {
      assert a + b == a;
    } else {
      assert (a + b)[..|a + b| - 1] == a + b[..|b| - 1];
      CoverIsAdditive(a, b[..|b| - 1], at);
    }
  }

  lemma {:induction false} InsertCovers(r: Range, s: seq<Range>, at: int)
    ensures Cover(Insert(Leq, r, s), at) == Cover(s, at) + Covers(r, at)
    decreases |s|
  {
    if s != [] {
      if Leq(s[|s| - 1], r) {
        assert (s + [r])[..|s|] == s;
      } else {
        var t := Insert(Leq, r, s[..|s| - 1]);
        InsertCovers(r, s[..|s| - 1], at);
        assert (t + [s[|s| - 1]])[..|t|] == t;
      }
    } else {
      assert [r][..0] == s;
    }
  }

  /** Sorting moves ranges and nothing else. */
  lemma {:induction false} SortCovers(s: seq<Range>, at: int)
    ensures Cover(Sorted(s), at) == Cover(s, at)
    decreases |s|
  {
    if s != [] {
      SortCovers(s[..|s| - 1], at);
      InsertCovers(s[|s| - 1], Sorted(s[..|s| - 1]), at);
    }
  }

  /** A range that ends at `MAX` with others behind it. */
  predicate InnerMax(s: seq<Range>) {
    exists i :: 0 <= i < |s| - 1 && s[i].hi == MAX
  }

  /** The declarative reading of a partition, on the sorted list. */
  lemma SortedPartition(s: seq<Range>, first: int, last: int)
    ensures Partitions(s, first, last) <==> Tiles(Sorted(s), first, last) && !InnerMax(Sorted(s))
  {
    var t := Sorted(s);
    RangeOrder();
    SortSorts(Leq, s);
    forall at ensures Cover(t, at) == Cover(s, at) {
      SortCovers(s, at);
    }
    SameMembers(s, t, first, last);
    if first <= last && Within(t, first, last) && CoversOnce(t, first, last) {
      OnceTiles(t, first, last);
    }
    if Tiles(t, first, last) {
      forall at ensures Cover(t, at) == if first <= at <= last then 1 else 0 {
        TilesCover(t, first, last, at);
      }
      TilesCover(t, first, last, first);
      InnerMaxExactly(t, first, last);
    }
  }

  lemma SameMembers(s: seq<Range>, t: seq<Range>, first: int, last: int)
    requires multiset(s) == multiset(t)
    ensures Within(s, first, last) <==> Within(t, first, last)
    ensures (exists r <- s :: r.hi == MAX) <==> (exists r <- t :: r.hi == MAX)
  {
    assert forall r :: r in s <==> r in multiset(s);
    assert forall r :: r in t <==> r in multiset(t);
    assert Within(s, first, last) <==> forall r <- s :: first <= r.lo <= r.hi <= last;
    assert Within(t, first, last) <==> forall r <- t :: first <= r.lo <= r.hi <= last;
  }

  lemma {:induction false} InnerMaxExactly(s: seq<Range>, first: int, last: int)
    requires Tiles(s, first, last)
    ensures InnerMax(s) <==> last != MAX && exists r <- s :: r.hi == MAX
  {
    var n := |s| - 1;
    forall i | 0 <= i < n ensures s[i].hi < last {
      TilesCover(s[..n], first, s[n].lo - 1, first);
      assert s[..n][i] == s[i];
    }
    if last != MAX && exists r <- s :: r.hi == MAX {
      var r :| r in s && r.hi == MAX;
      var i :| 0 <= i < |s| && s[i] == r;
      assert i < n;
    }
  }

  /** Accepts exactly the collections that cover every index of the interval once. */
  method Partition(ranges: seq<Range>, first: int, last: int) returns (ok: bool)
    ensures ok <==> Partitions(ranges, first, last)
  {
    SortedPartition(ranges, first, last);
    var s := Sorted(ranges);
    var previous: Option<int> := None;
    for i := 0 to |s|
      invariant previous == if i == 0 then None else Some(s[i - 1].hi)
      invariant i > 0 ==> Tiles(s[..i], first, s[i - 1].hi) && first <= s[i - 1].hi <= last
      invariant forall j :: 0 <= j < i - 1 ==> s[j].hi != MAX
    {
      var r := s[i];
      if Tiles(s, first, last) {
        TilesAt(s, first, last, i);
      }
      if r.lo > r.hi || r.lo < first || r.hi > last {
        return false;
      }
      if previous.None? {
        if r.lo != first {
          return false;
        }
      } else if previous.value == MAX || r.lo != previous.value + 1 {
        return false;
      }
      previous := Some(r.hi);
      assert s[..i + 1][..i] == s[..i];
    }
    assert s[..|s|] == s;
    ok := previous == Some(last);
  }

  /** Tiling seen range by range. */
  lemma {:induction false} TilesAt(s: seq<Range>, first: int, last: int, i: nat)
    requires Tiles(s, first, last) && i < |s|
    ensures first <= s[i].lo <= s[i].hi <= last
    ensures s[i].lo == if i == 0 then first else s[i - 1].hi + 1
  {
    TilesCover(s, first, last, first);
    var n := |s| - 1;
    if i < n {
      TilesAt(s[..n], first, s[n].lo - 1, i);
    }
  }
}
