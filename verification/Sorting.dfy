/** Python's `sorted` over a total order, and the orders of texts and byte strings it is used with. */
module Sorting {
  import opened Bytes

  ghost predicate OrderAt<T(!new)>(leq: (T, T) -> bool, a: T, b: T, c: T) {
    && (leq(a, b) || leq(b, a))
    && (leq(a, b) && leq(b, a) ==> a == b)
    && (leq(a, b) && leq(b, c) ==> leq(a, c))
  }

  ghost predicate IsOrder<T(!new)>(leq: (T, T) -> bool) {
    forall a, b, c :: OrderAt(leq, a, b, c)
  }

  ghost predicate Ordered<T(!new)>(leq: (T, T) -> bool, s: seq<T>) {
    forall i, j :: 0 <= i < j < |s| ==> leq(s[i], s[j])
  }

  function Insert<T>(leq: (T, T) -> bool, x: T, s: seq<T>): seq<T> {
    if s == [] then [x]
    else if leq(s[|s| - 1], x) then s + [x]
    else Insert(leq, x, s[..|s| - 1]) + [s[|s| - 1]]
  }

  function Sort<T>(leq: (T, T) -> bool, s: seq<T>): seq<T> {
    if s == [] then [] else Insert(leq, s[|s| - 1], Sort(leq, s[..|s| - 1]))
  }

  lemma LastApart<T(!new)>(s: seq<T>)
    requires s != []
    ensures multiset(s) == multiset(s[..|s| - 1]) + multiset{s[|s| - 1]}
  {
    assert s == s[..|s| - 1] + [s[|s| - 1]];
  }

  lemma {:induction false} InsertKeeps<T(!new)>(leq: (T, T) -> bool, x: T, s: seq<T>)
    ensures multiset(Insert(leq, x, s)) == multiset(s) + multiset{x}
    decreases |s|
  {
    if s != [] {
      InsertKeeps(leq, x, s[..|s| - 1]);
      LastApart(s);
    }
  }

  lemma {:induction false} InsertOrders<T(!new)>(leq: (T, T) -> bool, x: T, s: seq<T>)
    requires IsOrder(leq) && Ordered(leq, s)
    ensures Ordered(leq, Insert(leq, x, s))
    decreases |s|
  {
    if s != [] {
      var front, last := s[..|s| - 1], s[|s| - 1];
      if leq(last, x) {
        forall i | 0 <= i < |s| ensures leq(s[i], x) {
          assert OrderAt(leq, s[i], last, x);
        }
      } else {
        InsertOrders(leq, x, front);
        InsertKeeps(leq, x, front);
        assert OrderAt(leq, last, x, x);
        var t := Insert(leq, x, front);
        forall i | 0 <= i < |t| ensures leq(t[i], last) {
          assert t[i] in multiset(t);
          assert t[i] == x || t[i] in multiset(front);
        }
      }
    }
  }

  /** The sorted list is ordered and holds the same elements equally often. */
  lemma {:induction false} SortSorts<T(!new)>(leq: (T, T) -> bool, s: seq<T>)
    requires IsOrder(leq)
    ensures Ordered(leq, Sort(leq, s)) && multiset(Sort(leq, s)) == multiset(s)
    decreases |s|
  {
    if s != [] {
      var front, x := s[..|s| - 1], s[|s| - 1];
      SortSorts(leq, front);
      InsertOrders(leq, x, Sort(leq, front));
      InsertKeeps(leq, x, Sort(leq, front));
      LastApart(s);
    }
  }

  lemma LastIsLargest<T(!new)>(leq: (T, T) -> bool, s: seq<T>, x: T)
    requires IsOrder(leq) && Ordered(leq, s) && x in multiset(s)
    ensures s != [] && leq(x, s[|s| - 1])
  {
    assert OrderAt(leq, x, x, x);
  }

  lemma LastsAgree<T(!new)>(leq: (T, T) -> bool, a: seq<T>, b: seq<T>)
    requires IsOrder(leq) && Ordered(leq, a) && Ordered(leq, b) && multiset(a) == multiset(b) && a != [] && b != []
    ensures a[|a| - 1] == b[|b| - 1] && multiset(a[..|a| - 1]) == multiset(b[..|b| - 1])
  {
    var x, y := a[|a| - 1], b[|b| - 1];
    LastApart(a);
    LastApart(b);
    LastIsLargest(leq, b, x);
    LastIsLargest(leq, a, y);
    assert OrderAt(leq, x, y, y);
    assert multiset(a[..|a| - 1]) == multiset(a) - multiset{x};
    assert multiset(b[..|b| - 1]) == multiset(b) - multiset{y};
  }

  /** A collection has one ordered list. */
  lemma {:induction false} OrderedIsUnique<T(!new)>(leq: (T, T) -> bool, a: seq<T>, b: seq<T>)
    requires IsOrder(leq) && Ordered(leq, a) && Ordered(leq, b) && multiset(a) == multiset(b)
    ensures a == b
    decreases |a|
  {
    assert |multiset(a)| == |a| && |multiset(b)| == |b|;
    if a != [] {
      var n := |a| - 1;
      LastsAgree(leq, a, b);
      OrderedIsUnique(leq, a[..n], b[..n]);
      assert a == a[..n] + [a[n]] && b == b[..n] + [b[n]];
    }
  }

  lemma SortOfSame<T(!new)>(leq: (T, T) -> bool, s: seq<T>, t: seq<T>)
    requires IsOrder(leq) && multiset(s) == multiset(t)
    ensures Sort(leq, s) == Sort(leq, t)
  {
    SortSorts(leq, s);
    SortSorts(leq, t);
    OrderedIsUnique(leq, Sort(leq, s), Sort(leq, t));
  }

  lemma SortOfOrdered<T(!new)>(leq: (T, T) -> bool, s: seq<T>)
    requires IsOrder(leq) && Ordered(leq, s)
    ensures Sort(leq, s) == s
  {
    SortSorts(leq, s);
    OrderedIsUnique(leq, Sort(leq, s), s);
  }

  // ---------------------------------------------------------------- texts and byte strings

  predicate TextLeq(a: string, b: string) {
    a == [] || (b != [] && (a[0] < b[0] || (a[0] == b[0] && TextLeq(a[1..], b[1..]))))
  }

  lemma {:induction false} TextOrder(a: string, b: string, c: string)
    ensures OrderAt(TextLeq, a, b, c)
    decreases |a|
  {
    if a != [] && b != [] {
      TextOrder(a[1..], b[1..], if c == [] then [] else c[1..]);
      assert a == [a[0]] + a[1..] && b == [b[0]] + b[1..];
    }
  }

  predicate BytesLeq(a: bytes, b: bytes) {
    a == [] || (b != [] && (a[0] < b[0] || (a[0] == b[0] && BytesLeq(a[1..], b[1..]))))
  }

  lemma {:induction false} BytesOrderAt(a: bytes, b: bytes, c: bytes)
    ensures OrderAt(BytesLeq, a, b, c)
    decreases |a|
  {
    if a != [] && b != [] {
      BytesOrderAt(a[1..], b[1..], if c == [] then [] else c[1..]);
      assert a == [a[0]] + a[1..] && b == [b[0]] + b[1..];
    }
  }

  lemma BytesOrder()
    ensures IsOrder(BytesLeq)
  {
    forall a, b, c ensures OrderAt(BytesLeq, a, b, c) {
      BytesOrderAt(a, b, c);
    }
  }
}
