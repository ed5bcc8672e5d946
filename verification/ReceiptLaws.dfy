/** Receipts written and read back: canonical byte strings are exactly the layouts of well-formed fields,
    `decode` undoes `encode` exactly on canonical entries, and no receipt begins with another one. */
module ReceiptLaws {
  import opened Bytes
  import opened Wire
  import opened Receipt
  import Tables

  // ---------------------------------------------------------------- parts of a byte string

  predicate Wide(rows: seq<bytes>, width: nat) {
    forall i :: 0 <= i < |rows| ==> |rows[i]| == width
  }

  predicate IsTable(data: bytes, at: nat, width: nat, rows: seq<bytes>)
    requires at + width * |rows| <= |data|
  {
    forall i: nat :: i < |rows| ==> Row(data, at, width, i) == rows[i]
  }

  lemma {:induction false} JoinedExactly(data: bytes, at: nat, rows: seq<bytes>, width: nat)
    requires Wide(rows, width)
    ensures |Join(rows)| == width * |rows|
    ensures Holds(data, at, Join(rows)) <==>
      at + width * |rows| <= |data| && IsTable(data, at, width, rows)
    decreases |rows|
  {
    if rows != [] {
      var front, n := rows[..|rows| - 1], |rows| - 1;
      JoinedExactly(data, at, front, width);
      OneMoreRow(data, at, rows, width, width * n, Join(front));
    }
  }

  lemma OneMoreRow(data: bytes, at: nat, rows: seq<bytes>, width: nat, size: nat, front: bytes)
    requires rows != [] && Wide(rows, width) && size == width * (|rows| - 1) && |front| == size
    requires Holds(data, at, front) <==> at + size <= |data| && IsTable(data, at, width, rows[..|rows| - 1])
    ensures |front + rows[|rows| - 1]| == width * |rows|
    ensures Holds(data, at, front + rows[|rows| - 1]) <==>
      at + width * |rows| <= |data| && IsTable(data, at, width, rows)
  {
    assert width * |rows| == size + width;
    HoldsApart(data, at, front, rows[|rows| - 1]);
    if at + size + width <= |data| {
      RowsSnoc(data, at, rows, width);
    }
  }

  lemma RowsSnoc(data: bytes, at: nat, rows: seq<bytes>, width: nat)
    requires Wide(rows, width) && rows != []
    requires at + width * |rows| <= |data| && at + width * (|rows| - 1) + width <= |data|
    ensures IsTable(data, at, width, rows) <==>
      && IsTable(data, at, width, rows[..|rows| - 1])
      && data[at + width * (|rows| - 1)..at + width * (|rows| - 1) + width] == rows[|rows| - 1]
  {
    var front := rows[..|rows| - 1];
    assert Row(data, at, width, |rows| - 1) == data[at + width * (|rows| - 1)..at + width * (|rows| - 1) + width];
    assert forall i: nat :: i < |front| ==> front[i] == rows[i];
  }

  // ---------------------------------------------------------------- layouts

  /** Everything a receipt says in front of its entries; numbers and doubles as their eight bytes. */
  datatype Fields = Fields(digests: seq<bytes>, camera: seq<bytes>, mask: bytes, pose: seq<bytes>)

  predicate Shaped(f: Fields) {
    && |f.digests| == 7 && Wide(f.digests, 33) && |f.camera| == 3 && Wide(f.camera, 8)
    && |f.mask| == 8 && |f.pose| == 36 && Wide(f.pose, 8)
  }

  predicate GoodFields(f: Fields) {
    && Shaped(f)
    && (forall i :: 0 <= i < 7 ==> IsDigest(f.digests[i]))
    && (forall i :: 0 <= i < 3 ==> FromBE(f.camera[i]) != 0)
    && (forall i :: 0 <= i < 36 ==> IsFinite(f.pose[i]))
  }

  function Head(f: Fields, domain: bytes, policy: bytes): bytes {
    Text(domain) + (Text(policy) + (Join(f.digests) + (Join(f.camera) + (f.mask + Join(f.pose)))))
  }

  function CountRows(counts: seq<nat>): (r: seq<bytes>)
    ensures |r| == |counts| && Wide(r, 4)
  {
    seq(|counts|, i requires 0 <= i < |counts| => BE(4, counts[i]))
  }

  function EntryBytes(e: Entry): bytes {
    e.key + (e.base + Join(CountRows(e.counts)))
  }

  function EntriesBytes(es: seq<Entry>): bytes {
    if es == [] then [] else EntriesBytes(es[..|es| - 1]) + EntryBytes(es[|es| - 1])
  }

  function Layout(f: Fields, es: seq<Entry>, domain: bytes, policy: bytes): bytes
    requires |es| < 256
  {
    Head(f, domain, policy) + ([|es| as byte] + EntriesBytes(es))
  }

  /** The rows of `data` are those of `f`. */
  predicate HasRows(data: bytes, at: nat, f: Fields)
    requires Shaped(f) && at + 551 <= |data|
  {
    && IsTable(data, at, 33, f.digests) && IsTable(data, at + 231, 8, f.camera)
    && data[at + 255..at + 263] == f.mask && IsTable(data, at + 263, 8, f.pose)
  }

  lemma RowsExactly(data: bytes, at: nat, f: Fields)
    requires Shaped(f)
    ensures var rows := Join(f.digests) + (Join(f.camera) + (f.mask + Join(f.pose)));
      |rows| == 551 && (Holds(data, at, rows) <==> at + 551 <= |data| && HasRows(data, at, f))
  {
    JoinedExactly(data, at, f.digests, 33);
    JoinedExactly(data, at + 231, f.camera, 8);
    JoinedExactly(data, at + 263, f.pose, 8);
    HoldsApart(data, at, Join(f.digests), Join(f.camera) + (f.mask + Join(f.pose)));
    HoldsApart(data, at + 231, Join(f.camera), f.mask + Join(f.pose));
    HoldsApart(data, at + 255, f.mask, Join(f.pose));
  }

  lemma HeadExactly(data: bytes, f: Fields, domain: bytes, policy: bytes)
    requires Shaped(f)
    ensures var at := Start(domain, policy);
      && |Head(f, domain, policy)| == at + 551
      && (Holds(data, 0, Head(f, domain, policy)) <==>
          && at + 551 <= |data| && HoldsText(data, 0, domain) && HoldsText(data, 8 + |domain|, policy)
          && HasRows(data, at, f))
  {
    var at := Start(domain, policy);
    var rows := Join(f.digests) + (Join(f.camera) + (f.mask + Join(f.pose)));
    RowsExactly(data, at, f);
    HoldsApart(data, 0, Text(domain), Text(policy) + rows);
    HoldsApart(data, 8 + |domain|, Text(policy), rows);
    HoldsTextExactly(data, 0, domain);
    HoldsTextExactly(data, 8 + |domain|, policy);
  }

  lemma HeadLength(f: Fields, domain: bytes, policy: bytes)
    requires Shaped(f)
    ensures |Head(f, domain, policy)| == Start(domain, policy) + 551
  {
    HeadExactly([], f, domain, policy);
  }

  /** Rows that are there are well formed in the bytes exactly when they are in the fields. */
  lemma GoodRows(data: bytes, at: nat, f: Fields)
    requires Shaped(f) && at + 551 <= |data| && HasRows(data, at, f)
    ensures GoodFields(f) <==> DigestsAt(data, at, 7) && CameraAt(data, at + 231, 3) && PoseAt(data, at + 263, 36)
  {
    GoodCamera(data, at + 231, f.camera);
    GoodPose(data, at + 263, f.pose);
    assert DigestsAt(data, at, 7) <==> forall i: nat :: i < 7 ==> IsDigest(f.digests[i]);
  }

  lemma GoodCamera(data: bytes, at: nat, rows: seq<bytes>)
    requires at + 8 * |rows| <= |data| && IsTable(data, at, 8, rows)
    ensures CameraAt(data, at, |rows|) <==> forall i :: 0 <= i < |rows| ==> FromBE(rows[i]) != 0
  {
    assert forall i: nat :: i < |rows| ==> FromBE(rows[i]) == FromBE(Row(data, at, 8, i));
  }

  lemma GoodPose(data: bytes, at: nat, rows: seq<bytes>)
    requires at + 8 * |rows| <= |data| && IsTable(data, at, 8, rows)
    ensures PoseAt(data, at, |rows|) <==> forall i :: 0 <= i < |rows| ==> IsFinite(rows[i])
  {
    assert forall i: nat :: i < |rows| ==> IsFinite(rows[i]) == IsFinite(Row(data, at, 8, i));
  }

  lemma GoodHead(data: bytes, f: Fields, domain: bytes, policy: bytes)
    requires Shaped(f) && Holds(data, 0, Head(f, domain, policy))
    ensures CanonicalHead(data, domain, policy) <==> GoodFields(f)
  {
    HeadExactly(data, f, domain, policy);
    GoodRows(data, Start(domain, policy), f);
  }

  /** The head of a receipt is that of the fields read from it. */
  lemma GoodFieldsOf(data: bytes, domain: bytes, policy: bytes)
    requires CanonicalHead(data, domain, policy)
    ensures var f := FieldsOf(data, Start(domain, policy)); GoodFields(f) && Holds(data, 0, Head(f, domain, policy))
  {
    var f := FieldsOf(data, Start(domain, policy));
    HeadExactly(data, f, domain, policy);
    GoodRows(data, Start(domain, policy), f);
  }

  function FieldsOf(data: bytes, at: nat): (f: Fields)
    requires at + 551 <= |data|
    ensures Shaped(f) && HasRows(data, at, f)
  {
    Fields(seq(7, i requires 0 <= i < 7 => Row(data, at, 33, i)),
           seq(3, i requires 0 <= i < 3 => Row(data, at + 231, 8, i)),
           data[at + 255..at + 263],
           seq(36, i requires 0 <= i < 36 => Row(data, at + 263, 8, i)))
  }

  // ---------------------------------------------------------------- entries

  predicate EntryShaped(e: Entry) {
    |e.key| == 33 && |e.base| == 33 && |e.counts| == 7 && forall i :: 0 <= i < 7 ==> e.counts[i] < 0x1_0000_0000
  }

  predicate AllShaped(es: seq<Entry>) {
    es == [] || (AllShaped(es[..|es| - 1]) && EntryShaped(es[|es| - 1]))
  }

  lemma {:induction false} CountsExactly(data: bytes, at: nat, counts: seq<nat>)
    requires forall i :: 0 <= i < |counts| ==> counts[i] < 0x1_0000_0000
    requires at + 4 * |counts| <= |data|
    ensures IsTable(data, at, 4, CountRows(counts)) <==> CountsAt(data, at, |counts|) == counts
    decreases |counts|
  {
    if counts != [] {
      var n := |counts| - 1;
      CountsExactly(data, at, counts[..n]);
      WritesBack(data[at + 4 * n..at + 4 * n + 4]);
      Reads32(counts[n]);
      assert CountRows(counts)[..n] == CountRows(counts[..n]);
      RowsSnoc(data, at, CountRows(counts), 4);
      assert counts == counts[..n] + [counts[n]];
      assert CountsAt(data, at, n + 1)[..n] == CountsAt(data, at, n);
    }
  }

  lemma EntryExactly(data: bytes, at: nat, e: Entry)
    requires EntryShaped(e)
    ensures |EntryBytes(e)| == 94
    ensures Holds(data, at, EntryBytes(e)) <==> at + 94 <= |data| && EntryAt(data, at) == e
  {
    var counts := Join(CountRows(e.counts));
    JoinedExactly(data, at + 66, CountRows(e.counts), 4);
    HoldsApart(data, at, e.key, e.base + counts);
    HoldsApart(data, at + 33, e.base, counts);
    if at + 94 <= |data| {
      CountsExactly(data, at + 66, e.counts);
    }
  }

  lemma {:induction false} EntriesExactly(data: bytes, at: nat, es: seq<Entry>)
    requires AllShaped(es)
    ensures |EntriesBytes(es)| == 94 * |es|
    ensures Holds(data, at, EntriesBytes(es)) <==> at + 94 * |es| <= |data| && EntriesAt(data, at, |es|) == es
    decreases |es|
  {
    if es != [] {
      var n := |es| - 1;
      EntriesExactly(data, at, es[..n]);
      EntryExactly(data, at + 94 * n, es[n]);
      OneMoreEntry(data, at, n, EntriesBytes(es[..n]), EntryBytes(es[n]), es);
    }
  }

  lemma OneMoreEntry(data: bytes, at: nat, n: nat, front: bytes, last: bytes, es: seq<Entry>)
    requires |es| == n + 1 && |front| == 94 * n && |last| == 94
    requires Holds(data, at, front) <==> at + 94 * n <= |data| && EntriesAt(data, at, n) == es[..n]
    requires Holds(data, at + 94 * n, last) <==> at + 94 * n + 94 <= |data| && EntryAt(data, at + 94 * n) == es[n]
    ensures Holds(data, at, front + last) <==> at + 94 * (n + 1) <= |data| && EntriesAt(data, at, n + 1) == es
  {
    HoldsApart(data, at, front, last);
    if at + 94 * (n + 1) <= |data| {
      SnocByElements(es, es[..n], es[n]);
      Tables.SnocEqual(EntriesAt(data, at, n), EntryAt(data, at + 94 * n), es[..n], es[n]);
    }
  }
}
