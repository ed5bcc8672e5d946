/** What the receipt codec promises: which layouts are receipts, that every receipt is a layout, that
    `decode` undoes `encode`, and that receipts are prefix-free. */
module ReceiptTheorems {
  import opened Bytes
  import opened Sorting
  import opened Wire
  import opened Receipt
  import opened ReceiptLaws

  predicate GoodEntries(es: seq<Entry>) {
    1 <= |es| <= 16 && AreEntries(es)
  }

  lemma {:induction false} EntriesAreShaped(es: seq<Entry>)
    requires AreEntries(es)
    ensures AllShaped(es)
  {
    if es != [] {
      EntriesAreShaped(es[..|es| - 1]);
    }
  }

  lemma FramesExactly(data: bytes, head: bytes, count: byte, body: bytes)
    ensures data == head + ([count] + body) <==>
      && |data| == |head| + 1 + |body| && Holds(data, 0, head)
      && data[|head|] == count && Holds(data, |head| + 1, body)
  {
    HoldsApart(data, 0, head, [count] + body);
    HoldsApart(data, |head|, [count], body);
    WholeIsHeld(data, head + ([count] + body));
    if |head| < |data| {
      assert data[|head|..|head| + 1] == [data[|head|]];
    }
  }

  /** A byte string is a given layout exactly when its parts are. */
  lemma LayoutExactly(data: bytes, f: Fields, es: seq<Entry>, domain: bytes, policy: bytes)
    requires Shaped(f) && AllShaped(es) && |es| < 256
    ensures var at := Start(domain, policy);
      data == Layout(f, es, domain, policy) <==>
        && |data| == at + 552 + 94 * |es| && Holds(data, 0, Head(f, domain, policy))
        && data[at + 551] == |es| && EntriesAt(data, at + 552, |es|) == es
  {
    HeadLength(f, domain, policy);
    LayoutParts(data, Head(f, domain, policy), es);
  }

  lemma LayoutParts(data: bytes, head: bytes, es: seq<Entry>)
    requires AllShaped(es) && |es| < 256
    ensures data == head + ([|es| as byte] + EntriesBytes(es)) <==>
      && |data| == |head| + 1 + 94 * |es| && Holds(data, 0, head)
      && data[|head|] == |es| && EntriesAt(data, |head| + 1, |es|) == es
  {
    EntriesExactly(data, |head| + 1, es);
    FramesExactly(data, head, |es|, EntriesBytes(es));
  }

  /** A layout within the budget is accepted exactly when its fields and entries are good, and then decodes
      to those entries. */
  lemma LayoutsAreReceipts(f: Fields, es: seq<Entry>, domain: bytes, policy: bytes)
    requires Shaped(f) && AllShaped(es) && |es| < 256
    requires |Layout(f, es, domain, policy)| <= 8192
    ensures var data := Layout(f, es, domain, policy);
      && (Canonical(data, domain, policy) <==> GoodFields(f) && GoodEntries(es))
      && (Canonical(data, domain, policy) ==> Decoded(data, domain, policy) == es)
  {
    var data, at := Layout(f, es, domain, policy), Start(domain, policy);
    LayoutExactly(data, f, es, domain, policy);
    GoodHead(data, f, domain, policy);
  }

  /** Nothing else is accepted: a receipt is the layout of the fields and entries read from it. */
  lemma ReceiptsAreLayouts(data: bytes, domain: bytes, policy: bytes)
    requires Canonical(data, domain, policy)
    ensures var f, es := FieldsOf(data, Start(domain, policy)), Decoded(data, domain, policy);
      GoodFields(f) && GoodEntries(es) && data == Layout(f, es, domain, policy)
  {
    GoodFieldsOf(data, domain, policy);
    LayoutFrom(data, FieldsOf(data, Start(domain, policy)), domain, policy);
  }

  lemma LayoutFrom(data: bytes, f: Fields, domain: bytes, policy: bytes)
    requires Canonical(data, domain, policy) && Shaped(f) && Holds(data, 0, Head(f, domain, policy))
    ensures var es := Decoded(data, domain, policy); GoodEntries(es) && data == Layout(f, es, domain, policy)
  {
    var es := Decoded(data, domain, policy);
    EntriesAreShaped(es);
    LayoutExactly(data, f, es, domain, policy);
  }

  /** Every well-formed receipt fits the budget with room to spare. */
  lemma ReceiptsFitTheBudget(f: Fields, es: seq<Entry>)
    requires Shaped(f) && AllShaped(es) && |es| <= 16
    ensures |Layout(f, es, Domain(), Policy())| == 800 + 94 * |es| <= 2304
  {
    LayoutExactly(Layout(f, es, Domain(), Policy()), f, es, Domain(), Policy());
  }

  /** No receipt is a proper prefix of another one, so no cut and no extension of a receipt is accepted. */
  lemma ReceiptsArePrefixFree(a: bytes, b: bytes, domain: bytes, policy: bytes)
    requires Canonical(a, domain, policy) && Canonical(b, domain, policy) && a <= b
    ensures a == b
  {
    var at := Start(domain, policy) + 551;
    assert a[at] == b[at];
  }

  // ---------------------------------------------------------------- encode

  type double = b: bytes | |b| == 8 witness [0, 0, 0, 0, 0, 0, 0, 0]

  /** The seven digests `encode` writes, of the decimal digits 0 to 6. */
  function FixtureDigests(sha: bytes -> bytes): seq<bytes> {
    seq(7, i requires 0 <= i < 7 => [1] + sha([48 + i]))
  }

  function FixtureFields(pose: seq<double>, sha: bytes -> bytes): Fields {
    Fields(FixtureDigests(sha), [BE(8, 1), BE(8, 2), BE(8, 3)], BE(8, 0),
      seq(|pose|, i requires 0 <= i < |pose| => pose[i]))
  }

  /** `struct.pack` takes the counts. */
  predicate Packable(counts: seq<nat>) {
    |counts| == 7 && forall i :: 0 <= i < 7 ==> counts[i] < 0x1_0000_0000
  }

  predicate Encodable(es: seq<Entry>, pose: seq<double>) {
    |pose| == 36 && |es| < 256 && forall i :: 0 <= i < |es| ==> Packable(es[i].counts)
  }

  method JoinRows(rows: seq<bytes>) returns (r: bytes)
    ensures r == Join(rows)
  {
    r := [];
    for i := 0 to |rows|
      invariant r == Join(rows[..i])
    {
      assert rows[..i + 1][..i] == rows[..i];
      r := r + rows[i];
    }
    assert rows[..|rows|] == rows;
  }

  method EncodeEntries(es: seq<Entry>) returns (r: Result<bytes, Refusal>)
    ensures r.Ok? <==> forall i :: 0 <= i < |es| ==> Packable(es[i].counts)
    ensures r.Ok? ==> r.value == EntriesBytes(es)
  {
    var body: bytes := [];
    for i := 0 to |es|
      invariant body == EntriesBytes(es[..i]) && forall j :: 0 <= j < i ==> Packable(es[j].counts)
    {
      if |es[i].counts| != 7 || exists j :: 0 <= j < 7 && es[i].counts[j] >= 0x1_0000_0000 {
        return Refused(Unpackable);
      }
      var counts := JoinRows(CountRows(es[i].counts));
      assert es[..i + 1][..i] == es[..i];
      body := body + (es[i].key + (es[i].base + counts));
    }
    assert es[..|es|] == es;
    r := Ok(body);
  }

  method EncodeHead(f: Fields, domain: bytes, policy: bytes) returns (r: bytes)
    ensures r == Head(f, domain, policy)
  {
    var digests := JoinRows(f.digests);
    var camera := JoinRows(f.camera);
    var doubles := JoinRows(f.pose);
    r := Text(domain) + (Text(policy) + (digests + (camera + (f.mask + doubles))));
  }

  method Encode(es: seq<Entry>, pose: seq<double>, sha: bytes -> bytes) returns (r: Result<bytes, Refusal>)
    ensures r.Ok? <==> Encodable(es, pose)
    ensures r.Ok? ==> r.value == Layout(FixtureFields(pose, sha), es, Domain(), Policy())
  {
    if |pose| != 36 || |es| > 255 {
      return Refused(Unpackable);
    }
    r := EncodeUnder(FixtureFields(pose, sha), es, Domain(), Policy());
  }

  method EncodeUnder(f: Fields, es: seq<Entry>, domain: bytes, policy: bytes) returns (r: Result<bytes, Refusal>)
    requires |es| < 256
    ensures r.Ok? <==> forall i :: 0 <= i < |es| ==> Packable(es[i].counts)
    ensures r.Ok? ==> r.value == Layout(f, es, domain, policy)
  {
    var head := EncodeHead(f, domain, policy);
    var body := EncodeEntries(es);
    r := if body.Ok? then Ok(head + ([|es| as byte] + body.value)) else body;
  }

  lemma FixtureFieldsAreGood(pose: seq<double>, sha: bytes -> bytes)
    requires |pose| == 36 && forall b: bytes :: |sha(b)| == 32
    ensures Shaped(FixtureFields(pose, sha))
    ensures GoodFields(FixtureFields(pose, sha)) <==> forall i :: 0 <= i < 36 ==> IsFinite(pose[i])
  {
    var f := FixtureFields(pose, sha);
    Reads64(1);
    Reads64(2);
    Reads64(3);
    assert forall i :: 0 <= i < 7 ==> IsDigest(f.digests[i]);
    assert forall i :: 0 <= i < 36 ==> f.pose[i] == pose[i];
  }

  /** `decode(encode(entries, pose))` returns the entries exactly when there are 1 to 16 of them, they are
      canonical and every pose number is finite. */
  lemma RoundTripExactly(es: seq<Entry>, pose: seq<double>, sha: bytes -> bytes)
    requires Encodable(es, pose) && forall b: bytes :: |sha(b)| == 32
    ensures var data := Layout(FixtureFields(pose, sha), es, Domain(), Policy());
      Canonical(data, Domain(), Policy()) && Decoded(data, Domain(), Policy()) == es <==>
        GoodEntries(es) && forall i :: 0 <= i < 36 ==> IsFinite(pose[i])
  {
    var f := FixtureFields(pose, sha);
    var data := Layout(f, es, Domain(), Policy());
    FixtureFieldsAreGood(pose, sha);
    if GoodEntries(es) || (Canonical(data, Domain(), Policy()) && Decoded(data, Domain(), Policy()) == es) {
      EntriesAreShaped(es);
      ReceiptsFitTheBudget(f, es);
      LayoutsAreReceipts(f, es, Domain(), Policy());
    }
  }

  // ---------------------------------------------------------------- the order of keys

  lemma LessIsStrict(a: bytes, b: bytes, c: bytes)
    ensures Less(a, b) ==> a != b
    ensures Less(a, b) && Less(b, c) ==> Less(a, c)
  {
    BytesOrderAt(a, b, c);
    BytesOrderAt(b, a, a);
    BytesOrderAt(b, c, a);
    BytesOrderAt(c, a, b);
  }

  /** Keys ascend over any distance, so no key occurs twice. */
  lemma {:induction false} KeysAscend(es: seq<Entry>, i: nat, j: nat)
    requires AreEntries(es) && i < j < |es|
    ensures Less(es[i].key, es[j].key) && es[i].key != es[j].key
    decreases |es|
  {
    var front := es[..|es| - 1];
    if j < |es| - 1 {
      KeysAscend(front, i, j);
    } else if i < j - 1 {
      KeysAscend(front, i, j - 1);
      LessIsStrict(es[i].key, es[j - 1].key, es[j].key);
      LessIsStrict(es[i].key, es[j].key, []);
    } else {
      LessIsStrict(es[i].key, es[j].key, []);
    }
  }
}
