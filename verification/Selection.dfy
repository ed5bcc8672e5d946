/** scripts/check_recording_catalog_fixture.py, `selection`: the parts of a query interval that catalogued
    ranges cover, and the gaps between them. Intervals are half-open. */
module Selection {
  import opened Bytes

  datatype Interval = Interval(lo: int, hi: int)

  function Max(a: int, b: int): int {
    if a < b then b else a
  }

  function Min(a: int, b: int): int {
    if a < b then a else b
  }

  function Holds(p: Interval, t: int): nat {
    if p.lo <= t < p.hi then 1 else 0
  }

  /** How many intervals hold a tick. */
  function Count(ps: seq<Interval>, t: int): nat {
    if ps == [] then 0 else Count(ps[..|ps| - 1], t) + Holds(ps[|ps| - 1], t)
  }

  /** What `decode` promises of the ranges: none is empty, and each ends before the next begins. */
  predicate Chained(ranges: seq<Interval>) {
    && (forall i :: 0 <= i < |ranges| ==> ranges[i].lo < ranges[i].hi)
    && (forall i, j :: 0 <= i < j < |ranges| ==> ranges[i].hi <= ranges[j].lo)
  }

  /** The selected pieces and the gaps meet every tick of the query once and no other tick. */
  ghost predicate Partitions(selected: seq<Interval>, gaps: seq<Interval>, start: int, end: int) {
    forall t :: Count(selected, t) + Count(gaps, t) == if start <= t < end then 1 else 0
  }

  /** A tick is selected exactly when the query and some catalogued range hold it. */
  ghost predicate SelectsExactly(selected: seq<Interval>, ranges: seq<Interval>, start: int, end: int) {
    forall t :: Count(selected, t) == if start <= t < end then Count(ranges, t) else 0
  }

  /** No gap ends where another one begins, and no gap is empty. */
  predicate GapsApart(gaps: seq<Interval>) {
    && (forall i :: 0 <= i < |gaps| ==> gaps[i].lo < gaps[i].hi)
    && (forall i, j :: 0 <= i < j < |gaps| ==> gaps[i].hi < gaps[j].lo)
  }

  lemma CountSnoc(ps: seq<Interval>, p: Interval, t: int)
    ensures Count(ps + [p], t) == Count(ps, t) + Holds(p, t)
  {
    assert (ps + [p])[..|ps|] == ps;
  }

  /** What holds of the pieces after the ranges in `done`, up to `cursor`. */
  ghost predicate Progress(
    selected: seq<Interval>, gaps: seq<Interval>, done: seq<Interval>, start: int, end: int, cursor: int) {
    && start <= cursor <= end
    && Partitions(selected, gaps, start, cursor) && SelectsExactly(selected, done, start, end)
    && GapsApart(gaps) && (forall i :: 0 <= i < |gaps| ==> gaps[i].hi < cursor)
    && (forall i :: 0 <= i < |done| ==> done[i].lo < done[i].hi)
    && cursor <= (if done == [] then start else Max(start, done[|done| - 1].hi))
  }

  /** A range outside the query adds nothing. */
  lemma Skips(
    selected: seq<Interval>, gaps: seq<Interval>, done: seq<Interval>, r: Interval, start: int, end: int, cursor: int)
    requires Progress(selected, gaps, done, start, end, cursor) && r.lo < r.hi
    requires done != [] ==> done[|done| - 1].hi <= r.lo
    requires Max(start, r.lo) >= Min(end, r.hi)
    ensures Progress(selected, gaps, done + [r], start, end, cursor)
  {
    SkippedSelects(selected, done, r, start, end);
    var now := done + [r];
    assert forall i :: 0 <= i < |done| ==> now[i] == done[i];
    assert now[|done|] == r;
  }

  lemma SkippedSelects(selected: seq<Interval>, done: seq<Interval>, r: Interval, start: int, end: int)
    requires SelectsExactly(selected, done, start, end) && r.lo < r.hi && Max(start, r.lo) >= Min(end, r.hi)
    ensures SelectsExactly(selected, done + [r], start, end)
  {
    forall t ensures Count(selected, t) == if start <= t < end then Count(done + [r], t) else 0 {
      CountSnoc(done, r, t);
    }
  }

  /** The gap in front of the next piece, if there is one. */
  function WithGap(gaps: seq<Interval>, cursor: int, a: int): seq<Interval> {
    if cursor < a then gaps + [Interval(cursor, a)] else gaps
  }

  lemma Advances(
    selected: seq<Interval>, gaps: seq<Interval>, done: seq<Interval>, r: Interval, start: int, end: int, cursor: int)
    requires Progress(selected, gaps, done, start, end, cursor) && r.lo < r.hi
    requires done != [] ==> done[|done| - 1].hi <= r.lo
    requires Max(start, r.lo) < Min(end, r.hi)
    ensures var a, b := Max(start, r.lo), Min(end, r.hi);
      Progress(selected + [Interval(a, b)], WithGap(gaps, cursor, a), done + [r], start, end, b)
  {
    var a, b := Max(start, r.lo), Min(end, r.hi);
    PieceSelects(selected, done, r, start, end, Interval(a, b));
    PieceExtends(selected, gaps, start, cursor, Interval(a, b));
    GapExtends(gaps, cursor, a, b);
  }

  lemma PieceSelects(selected: seq<Interval>, done: seq<Interval>, r: Interval, start: int, end: int, p: Interval)
    requires SelectsExactly(selected, done, start, end) && p == Interval(Max(start, r.lo), Min(end, r.hi))
    ensures SelectsExactly(selected + [p], done + [r], start, end)
  {
    forall t ensures Count(selected + [p], t) == if start <= t < end then Count(done + [r], t) else 0 {
      CountSnoc(done, r, t);
      CountSnoc(selected, p, t);
    }
  }

  lemma PieceExtends(selected: seq<Interval>, gaps: seq<Interval>, start: int, cursor: int, p: Interval)
    requires Partitions(selected, gaps, start, cursor) && start <= cursor <= p.lo < p.hi
    ensures Partitions(selected + [p], WithGap(gaps, cursor, p.lo), start, p.hi)
  {
    var g := WithGap(gaps, cursor, p.lo);
    forall t ensures Count(selected + [p], t) + Count(g, t) == if start <= t < p.hi then 1 else 0 {
      CountSnoc(selected, p, t);
      CountSnoc(gaps, Interval(cursor, p.lo), t);
      assert Count(selected, t) + Count(gaps, t) == if start <= t < cursor then 1 else 0;
    }
  }

  lemma GapExtends(gaps: seq<Interval>, cursor: int, a: int, b: int)
    requires GapsApart(gaps) && cursor <= a < b && forall i :: 0 <= i < |gaps| ==> gaps[i].hi < cursor
    ensures var g := WithGap(gaps, cursor, a); GapsApart(g) && forall i :: 0 <= i < |g| ==> g[i].hi < b
  {
  }

  /** Closing the query behind the last piece. */
  lemma Finishes(selected: seq<Interval>, gaps: seq<Interval>, done: seq<Interval>, start: int, end: int, cursor: int)
    requires Progress(selected, gaps, done, start, end, cursor)
    ensures Partitions(selected, WithGap(gaps, cursor, end), start, end) && GapsApart(WithGap(gaps, cursor, end))
  {
    forall t ensures Count(selected, t) + Count(WithGap(gaps, cursor, end), t) == if start <= t < end then 1 else 0 {
      CountSnoc(gaps, Interval(cursor, end), t);
    }
  }

  method Select(ranges: seq<Interval>, start: int, end: int) returns (r: Result<(seq<Interval>, seq<Interval>), string>)
    ensures r.Ok? <==> start < end
    ensures r.Ok? && Chained(ranges) ==>
      && Partitions(r.value.0, r.value.1, start, end)
      && SelectsExactly(r.value.0, ranges, start, end) && GapsApart(r.value.1)
  {
    if start >= end {
      return Refused("query interval");
    }
    var selected: seq<Interval>, gaps: seq<Interval>, cursor := [], [], start;
    for i := 0 to |ranges|
      invariant Chained(ranges) ==> Progress(selected, gaps, ranges[..i], start, end, cursor)
    {
      var a, b := Max(start, ranges[i].lo), Min(end, ranges[i].hi);
      ghost var was := (selected, gaps, cursor);
      assert ranges[..i + 1] == ranges[..i] + [ranges[i]];
      if a < b {
        if cursor < a {
          gaps := gaps + [Interval(cursor, a)];
        }
        selected := selected + [Interval(a, b)];
        cursor := b;
        if Chained(ranges) {
          Advances(was.0, was.1, ranges[..i], ranges[i], start, end, was.2);
        }
      } else if Chained(ranges) {
        Skips(selected, gaps, ranges[..i], ranges[i], start, end, cursor);
      }
    }
    assert ranges[..|ranges|] == ranges;
    if Chained(ranges) {
      Finishes(selected, gaps, ranges, start, end, cursor);
    }
    if cursor < end {
      gaps := gaps + [Interval(cursor, end)];
    }
    r := Ok((selected, gaps));
  }
}
