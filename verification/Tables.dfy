/** Tables of entries of varying size, each checked against those before it: what a loop that reads them one
    by one accepts is what a writer of checked entries wrote. */
module Tables {
  import opened Bytes
  import opened Wire

  datatype Table<E> = Table(entries: seq<E>, end: nat)

  /** Every entry passes behind the ones before it. */
  predicate AllOk<E>(ok: (E, seq<E>) -> bool, es: seq<E>) {
    es == [] || (AllOk(ok, es[..|es| - 1]) && ok(es[|es| - 1], es[..|es| - 1]))
  }

  lemma {:induction false} AllOkAt<E>(ok: (E, seq<E>) -> bool, es: seq<E>, i: nat)
    requires AllOk(ok, es) && i < |es|
    ensures ok(es[i], es[..i])
    decreases |es|
  {
    if i < |es| - 1 {
      AllOkAt(ok, es[..|es| - 1], i);
      assert es[..|es| - 1][..i] == es[..i];
    }
  }

  function Written<E>(code: E -> bytes, es: seq<E>): bytes {
    if es == [] then [] else Written(code, es[..|es| - 1]) + code(es[|es| - 1])
  }

  /** The first `n` entries from `at` on. */
  function TableAt<E>(
    read: nat -> Option<E>, size: E -> nat, ok: (E, seq<E>) -> bool, at: nat, n: nat): Option<Table<E>> {
    if n == 0 then Some(Table([], at))
    else
      var front := TableAt(read, size, ok, at, n - 1);
      if front.None? then None else Extend(read, size, ok, front.value)
  }

  function Extend<E>(
    read: nat -> Option<E>, size: E -> nat, ok: (E, seq<E>) -> bool, front: Table<E>): Option<Table<E>> {
    var e := read(front.end);
    if e.Some? && ok(e.value, front.entries) then Some(Table(front.entries + [e.value], front.end + size(e.value)))
    else None
  }

  lemma {:induction false} Stuck<E>(
    read: nat -> Option<E>, size: E -> nat, ok: (E, seq<E>) -> bool, at: nat, i: nat, n: nat)
    requires i <= n && TableAt(read, size, ok, at, i).None?
    ensures TableAt(read, size, ok, at, n).None?
    decreases n
  {
    if i < n {
      Stuck(read, size, ok, at, i, n - 1);
    }
  }

  /** One round of the loop: the next entry decides whether the table goes on or ends here. */
  lemma TableStep<E>(
    read: nat -> Option<E>, size: E -> nat, ok: (E, seq<E>) -> bool, at: nat, i: nat, n: nat, t: Table<E>)
    requires i < n && TableAt(read, size, ok, at, i) == Some(t)
    ensures TableAt(read, size, ok, at, i + 1) == Extend(read, size, ok, t)
    ensures Extend(read, size, ok, t).None? ==> TableAt(read, size, ok, at, n).None?
  {
    if Extend(read, size, ok, t).None? {
      Stuck(read, size, ok, at, i + 1, n);
    }
  }

  lemma {:induction false} TableLength<E>(
    read: nat -> Option<E>, size: E -> nat, ok: (E, seq<E>) -> bool, at: nat, n: nat)
    ensures var t := TableAt(read, size, ok, at, n); t.Some? ==> |t.value.entries| == n && AllOk(ok, t.value.entries)
  {
    if n > 0 {
      TableLength(read, size, ok, at, n - 1);
      var front := TableAt(read, size, ok, at, n - 1);
      if front.Some? {
        var e := read(front.value.end);
        if e.Some? {
          assert (front.value.entries + [e.value])[..n - 1] == front.value.entries;
        }
      }
    }
  }

  lemma SnocEqual<E>(a: seq<E>, x: E, b: seq<E>, y: E)
    requires |a| == |b|
    ensures a + [x] == b + [y] <==> a == b && x == y
  {
    assert (a + [x])[..|a|] == a && (a + [x])[|a|] == x;
    assert (b + [y])[..|b|] == b && (b + [y])[|b|] == y;
  }

  /** Reading finds an entry that can pass exactly where its code stands. */
  ghost predicate Reads<E(!new)>(
    data: bytes, read: nat -> Option<E>, size: E -> nat, ok: (E, seq<E>) -> bool, code: E -> bytes) {
    forall e, before :: ok(e, before) ==> ReadsOne(data, read, size, code, e)
  }

  ghost predicate ReadsOne<E(!new)>(data: bytes, read: nat -> Option<E>, size: E -> nat, code: E -> bytes, e: E) {
    |code(e)| == size(e) && forall p: nat :: read(p) == Some(e) <==> Holds(data, p, code(e))
  }

  lemma TableSnoc<E>(
    read: nat -> Option<E>, size: E -> nat, ok: (E, seq<E>) -> bool, at: nat, front: seq<E>, e: E, end: nat)
    ensures TableAt(read, size, ok, at, |front| + 1) == Some(Table(front + [e], end)) <==>
      && TableAt(read, size, ok, at, |front|).Some?
      && Ends(read, size, ok, TableAt(read, size, ok, at, |front|).value, front, e, end)
  {
    TableLength(read, size, ok, at, |front|);
    var t := TableAt(read, size, ok, at, |front|);
    if t.Some? && read(t.value.end).Some? {
      SnocEqual(t.value.entries, read(t.value.end).value, front, e);
    }
  }

  predicate Ends<E(==)>(
    read: nat -> Option<E>, size: E -> nat, ok: (E, seq<E>) -> bool, t: Table<E>, front: seq<E>, e: E, end: nat) {
    t.entries == front && read(t.end) == Some(e) && ok(e, front) && end == t.end + size(e)
  }

  /** A table is read exactly where the code of a checked list stands. */
  lemma {:induction false} TableExactly<E(!new)>(data: bytes, read: nat -> Option<E>, size: E -> nat,
      ok: (E, seq<E>) -> bool, code: E -> bytes, at: nat, es: seq<E>, end: nat)
    requires at <= |data| && Reads(data, read, size, ok, code)
    ensures TableAt(read, size, ok, at, |es|) == Some(Table(es, end)) <==>
      AllOk(ok, es) && Holds(data, at, Written(code, es)) && end == at + |Written(code, es)|
    decreases |es|
  {
    if es != [] {
      var n := |es| - 1;
      var front, e := es[..n], es[n];
      var mid := at + |Written(code, front)|;
      TableExactly(data, read, size, ok, code, at, front, mid);
      HoldsApart(data, at, Written(code, front), code(e));
      TableSnoc(read, size, ok, at, front, e, end);
      assert es == front + [e];
      assert ok(e, front) ==> ReadsOne(data, read, size, code, e);
      var t := TableAt(read, size, ok, at, n);
      if t.Some? && t.value.entries == front {
        TableExactly(data, read, size, ok, code, at, front, t.value.end);
      }
    }
  }
}
