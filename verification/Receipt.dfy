/** scripts/calibration_coverage_receipt_model.py, `Decoder`, `encode` and `decode`: the receipt of a
    calibration-coverage decision as bytes. `Canonical` says which byte strings are receipts. */
module Receipt {
  import opened Bytes
  import opened Sorting
  import opened Wire

  datatype Entry = Entry(key: bytes, base: bytes, counts: seq<nat>)

  datatype Refusal = Truncated | TextBudget | DigestAlgorithm | ReceiptBudget | UnknownContract | ZeroCamera
                   | NonfiniteCovariance | ZoneBudget | NoncanonicalZone | TrailingBytes | Unpackable

  function Domain(): (r: bytes)
    ensures |r| == 35
  {
    Ascii("fss.calibration_coverage_receipt.v1")
  }

  function Policy(): (r: bytes)
    ensures |r| == 197
  {
    Ascii("fss.calibration_coverage_guard.v1:full-camera-marginal:" +
          "exact-ground-grid:radius-3:linearized-pixel-depth:half-open-image:" +
          "closed-contour-vs-half-open-mask:all-samples-inside-unmasked:abstention-only")
  }

  // ---------------------------------------------------------------- what a receipt is

  /** The bytes of row `i` in a table of rows of `width` bytes that begins at `at`. */
  function Row(data: bytes, at: nat, width: nat, i: nat): (r: bytes)
    requires at + width * (i + 1) <= |data|
    ensures |r| == width
  {
    data[at + width * i..at + width * i + width]
  }

  predicate IsDigest(b: bytes) {
    |b| == 33 && b[0] == 1
  }

  /** An IEEE 754 double that is neither infinite nor NaN: not every exponent bit is set. */
  predicate IsFinite(b: bytes) {
    |b| == 8 && !(b[0] % 128 == 127 && b[1] >= 240)
  }

  /** Python's order of byte strings. */
  predicate Less(a: bytes, b: bytes) {
    !BytesLeq(b, a)
  }

  function Sum(counts: seq<nat>): nat {
    if counts == [] then 0 else Sum(counts[..|counts| - 1]) + counts[|counts| - 1]
  }

  predicate IsEntry(e: Entry) {
    && IsDigest(e.key) && IsDigest(e.base) && |e.counts| == 7
    && (forall i :: 0 <= i < 7 ==> e.counts[i] < 0x1_0000_0000)
    && 1 <= Sum(e.counts) <= 1024
  }

  /** The entries `decode` accepts: each in bounds, and every key above the one before. */
  predicate AreEntries(es: seq<Entry>) {
    if es == [] then true
    else
      var front, e := es[..|es| - 1], es[|es| - 1];
      AreEntries(front) && IsEntry(e) && (front == [] || Less(front[|front| - 1].key, e.key))
  }

  /** The first `n` counts of an entry whose counts begin at `at`. */
  function CountsAt(data: bytes, at: nat, n: nat): (r: seq<nat>)
    requires at + 4 * n <= |data|
    ensures |r| == n
  {
    if n == 0 then [] else CountsAt(data, at, n - 1) + [FromBE(data[at + 4 * n - 4..at + 4 * n])]
  }

  function EntryAt(data: bytes, at: nat): Entry
    requires at + 94 <= |data|
  {
    Entry(data[at..at + 33], data[at + 33..at + 66], CountsAt(data, at + 66, 7))
  }

  function EntriesAt(data: bytes, at: nat, n: nat): (r: seq<Entry>)
    requires at + 94 * n <= |data|
    ensures |r| == n
  {
    if n == 0 then [] else EntriesAt(data, at, n - 1) + [EntryAt(data, at + 94 * (n - 1))]
  }

  /** There are `n` canonical entries from `at` on. */
  predicate EntriesStand(data: bytes, at: nat, n: nat) {
    at + 94 * n <= |data| && AreEntries(EntriesAt(data, at, n))
  }

  /** Where the digests begin. */
  function Start(domain: bytes, policy: bytes): nat {
    16 + |domain| + |policy|
  }

  /** Everything in front of the entries. */
  predicate CanonicalHead(data: bytes, domain: bytes, policy: bytes) {
    var at := Start(domain, policy);
    && at + 551 <= |data|
    && HoldsText(data, 0, domain) && HoldsText(data, 8 + |domain|, policy)
    && DigestsAt(data, at, 7) && CameraAt(data, at + 231, 3) && PoseAt(data, at + 263, 36)
  }

  predicate DigestsAt(data: bytes, at: nat, n: nat)
    requires at + 33 * n <= |data|
  {
    forall i: nat :: i < n ==> IsDigest(Row(data, at, 33, i))
  }

  predicate CameraAt(data: bytes, at: nat, n: nat)
    requires at + 8 * n <= |data|
  {
    forall i: nat :: i < n ==> FromBE(Row(data, at, 8, i)) != 0
  }

  predicate PoseAt(data: bytes, at: nat, n: nat)
    requires at + 8 * n <= |data|
  {
    forall i: nat :: i < n ==> IsFinite(Row(data, at, 8, i))
  }

  predicate CanonicalBody(data: bytes, at: nat) {
    && at < |data| && 1 <= data[at] <= 16
    && var n: nat := data[at]; |data| == at + 1 + 94 * n && EntriesStand(data, at + 1, n)
  }

  predicate Canonical(data: bytes, domain: bytes, policy: bytes) {
    && |data| <= 8192 && CanonicalHead(data, domain, policy)
    && CanonicalBody(data, Start(domain, policy) + 551)
  }

  // ---------------------------------------------------------------- the decoder

  class Decoder {
    const data: bytes
    var position: nat

    constructor (data: bytes)
      ensures this.data == data && position == 0
    {
      this.data, position := data, 0;
    }

    method Take(length: nat) returns (r: Result<bytes, Refusal>)
      requires position <= |data|
      modifies this`position
      ensures r.Ok? <==> old(position) + length <= |data|
      ensures r.Ok? ==> position == old(position) + length && r.value == data[old(position)..position]
      ensures position <= |data|
    {
      if position + length > |data| {
        return Refused(Truncated);
      }
      r := Ok(data[position..position + length]);
      position := position + length;
    }

    method Integer(width: nat) returns (r: Result<nat, Refusal>)
      requires position <= |data|
      modifies this`position
      ensures r.Ok? <==> old(position) + width <= |data|
      ensures r.Ok? ==> position == old(position) + width && r.value == FromBE(data[old(position)..position])
      ensures position <= |data|
    {
      var part := Take(width);
      r := if part.Ok? then Ok(FromBE(part.value)) else Refused(part.why);
    }

    method Text() returns (r: Result<bytes, Refusal>)
      requires position <= |data|
      modifies this`position
      ensures r.Ok? <==> TextAt(data, old(position)).Some?
      ensures r.Ok? ==> TextAt(data, old(position)) == Some(r.value) && position == old(position) + 8 + |r.value|
      ensures position <= |data|
    {
      var n := Integer(8);
      if n.Refused? {
        return Refused(n.why);
      }
      if n.value > 65536 {
        return Refused(TextBudget);
      }
      r := Take(n.value);
    }

    method Digest() returns (r: Result<bytes, Refusal>)
      requires position <= |data|
      modifies this`position
      ensures r.Ok? <==> old(position) + 33 <= |data| && IsDigest(data[old(position)..old(position) + 33])
      ensures r.Ok? ==> position == old(position) + 33 && r.value == data[old(position)..position]
      ensures position <= |data|
    {
      r := Take(33);
      if r.Ok? && r.value[0] != 1 {
        r := Refused(DigestAlgorithm);
      }
    }

    method Contract(domain: bytes, policy: bytes) returns (problem: Option<Refusal>)
      requires position == 0 && |domain| <= 65536 && |policy| <= 65536
      modifies this`position
      ensures problem == None <==> HoldsText(data, 0, domain) && HoldsText(data, 8 + |domain|, policy)
      ensures problem == None ==> position == Start(domain, policy)
      ensures position <= |data|
    {
      TextExactly(data, 0, domain);
      TextExactly(data, 8 + |domain|, policy);
      var first := Text();
      if first != Ok(domain) {
        return Some(if first.Refused? then first.why else UnknownContract);
      }
      var second := Text();
      if second != Ok(policy) {
        return Some(if second.Refused? then second.why else UnknownContract);
      }
      problem := None;
    }

    method Digests(n: nat) returns (problem: Option<Refusal>)
      requires position <= |data|
      modifies this`position
      ensures problem == None <==> old(position) + 33 * n <= |data| && DigestsAt(data, old(position), n)
      ensures problem == None ==> position == old(position) + 33 * n
      ensures position <= |data|
    {
      for i := 0 to n
        invariant position == old(position) + 33 * i <= |data|
        invariant DigestsAt(data, old(position), i)
      {
        var d := Digest();
        if d.Refused? {
          assert old(position) + 33 * n <= |data| ==>
            Row(data, old(position), 33, i) == data[old(position) + 33 * i..old(position) + 33 * i + 33];
          return Some(d.why);
        }
        assert Row(data, old(position), 33, i) == d.value;
      }
      problem := None;
    }

    method Camera(n: nat) returns (camera: Result<seq<nat>, Refusal>)
      requires position <= |data|
      modifies this`position
      ensures camera.Ok? <==> old(position) + 8 * n <= |data|
      ensures camera.Ok? ==> (0 !in camera.value <==> CameraAt(data, old(position), n))
      ensures camera.Ok? ==> position == old(position) + 8 * n
      ensures position <= |data|
    {
      var got: seq<nat> := [];
      for i := 0 to n
        invariant position == old(position) + 8 * i <= |data| && |got| == i
        invariant forall j: nat :: j < i ==> got[j] == FromBE(Row(data, old(position), 8, j))
      {
        var x := Integer(8);
        if x.Refused? {
          return Refused(x.why);
        }
        got := got + [x.value];
        assert Row(data, old(position), 8, i) == data[old(position) + 8 * i..position];
      }
      camera := Ok(got);
      assert 0 in got <==> exists j :: 0 <= j < |got| && got[j] == 0;
    }

    method ReadEntry() returns (r: Result<Entry, Refusal>)
      requires position <= |data|
      modifies this`position
      ensures r.Ok? <==> old(position) + 94 <= |data| && var e := EntryAt(data, old(position));
        IsDigest(e.key) && IsDigest(e.base)
      ensures r.Ok? ==> position == old(position) + 94 && r.value == EntryAt(data, old(position))
      ensures position <= |data|
    {
      ghost var at := position;
      var key := Digest();
      if key.Refused? {
        return Refused(key.why);
      }
      var base := Digest();
      if base.Refused? {
        return Refused(base.why);
      }
      var counts: seq<nat> := [];
      for i := 0 to 7
        invariant position == at + 66 + 4 * i <= |data| && counts == CountsAt(data, at + 66, i)
      {
        var x := Integer(4);
        if x.Refused? {
          return Refused(x.why);
        }
        counts := counts + [x.value];
      }
      r := Ok(Entry(key.value, base.value, counts));
    }

    method NextEntry(out: seq<Entry>) returns (r: Result<Entry, Refusal>)
      requires position <= |data|
      modifies this`position
      ensures r.Ok? <==> NextStands(data, old(position), out)
      ensures r.Ok? ==> position == old(position) + 94 && r.value == EntryAt(data, old(position))
      ensures position <= |data|
    {
      r := ReadEntry();
      if r.Ok? && (!(1 <= Sum(r.value.counts) <= 1024) || (out != [] && !Less(out[|out| - 1].key, r.value.key))) {
        r := Refused(NoncanonicalZone);
      }
    }

    /** The round of the loop that reads entry `i` of `n`. */
    method AppendEntry(out: seq<Entry>, ghost at: nat, ghost i: nat, ghost n: nat)
      returns (r: Result<seq<Entry>, Refusal>)
      requires position == at + 94 * i <= |data| && i < n
      requires EntriesStand(data, at, i) && out == EntriesAt(data, at, i)
      modifies this`position
      ensures r.Ok? ==> position == at + 94 * (i + 1) <= |data|
      ensures r.Ok? ==> EntriesStand(data, at, i + 1) && r.value == EntriesAt(data, at, i + 1)
      ensures r.Refused? ==> !EntriesStand(data, at, n)
      ensures position <= |data|
    {
      var e := NextEntry(out);
      EntriesSnoc(data, at, i, n, e.Ok?);
      r := if e.Ok? then Ok(out + [e.value]) else Refused(e.why);
    }

    method ReadEntries(n: nat) returns (r: Result<seq<Entry>, Refusal>)
      requires position <= |data|
      modifies this`position
      ensures r.Ok? <==> EntriesStand(data, old(position), n)
      ensures r.Ok? ==> position == old(position) + 94 * n && r.value == EntriesAt(data, old(position), n)
      ensures position <= |data|
    {
      r := Ok([]);
      ghost var at := position;
      for i := 0 to n
        invariant position == at + 94 * i <= |data|
        invariant r.Ok? && EntriesStand(data, at, i) && r.value == EntriesAt(data, at, i)
      {
        r := AppendEntry(r.value, at, i, n);
        if r.Refused? {
          return;
        }
      }
    }
  }

  /** What `decode` asks of an entry that comes after `es`. */
  predicate Extends(es: seq<Entry>, e: Entry) {
    && (es == [] || Less(es[|es| - 1].key, e.key))
    && IsDigest(e.key) && IsDigest(e.base) && 1 <= Sum(e.counts) <= 1024
  }

  predicate NextStands(data: bytes, at: nat, es: seq<Entry>) {
    at + 94 <= |data| && Extends(es, EntryAt(data, at))
  }

  /** One more entry decides whether the table of entries goes on or ends here. */
  lemma EntriesSnoc(data: bytes, at: nat, i: nat, n: nat, ok: bool)
    requires i < n && EntriesStand(data, at, i) && (ok <==> NextStands(data, at + 94 * i, EntriesAt(data, at, i)))
    ensures ok ==> EntriesStand(data, at, i + 1)
    ensures !ok ==> !EntriesStand(data, at, n)
  {
    if at + 94 * n <= |data| {
      EntriesPrefix(data, at, i + 1, n);
    }
    if at + 94 * (i + 1) <= |data| {
      CountsFit(data, at + 94 * i + 66, 7);
      AreEntriesSnoc(EntriesAt(data, at, i), EntryAt(data, at + 94 * i));
    }
  }

  lemma AreEntriesSnoc(es: seq<Entry>, e: Entry)
    requires |e.counts| == 7 && forall i :: 0 <= i < 7 ==> e.counts[i] < 0x1_0000_0000
    ensures AreEntries(es + [e]) <==> AreEntries(es) && Extends(es, e)
  {
    assert (es + [e])[..|es|] == es;
  }

  lemma {:induction false} EntriesPrefix(data: bytes, at: nat, i: nat, n: nat)
    requires i <= n && at + 94 * n <= |data|
    ensures AreEntries(EntriesAt(data, at, n)) ==> AreEntries(EntriesAt(data, at, i))
    decreases n
  {
    if i < n {
      EntriesPrefix(data, at, i, n - 1);
      assert EntriesAt(data, at, n)[..n - 1] == EntriesAt(data, at, n - 1);
    }
  }

  /** Four bytes hold no more than 32 bits. */
  lemma {:induction false} CountsFit(row: bytes, at: nat, n: nat)
    requires at + 4 * n <= |row|
    ensures forall i :: 0 <= i < n ==> CountsAt(row, at, n)[i] < 0x1_0000_0000
  {
    if n > 0 {
      CountsFit(row, at, n - 1);
      PowValues();
      WritesBack(row[at + 4 * n - 4..at + 4 * n]);
    }
  }

  /** Accepts the canonical byte strings and no others, and returns their entries. */
  method Decode(data: bytes) returns (r: Result<seq<Entry>, Refusal>)
    ensures r.Ok? <==> Canonical(data, Domain(), Policy())
    ensures r.Ok? ==> r.value == Decoded(data, Domain(), Policy())
  {
    if |data| > 8192 {
      return Refused(ReceiptBudget);
    }
    r := DecodeUnder(data, Domain(), Policy());
  }

  function Decoded(data: bytes, domain: bytes, policy: bytes): seq<Entry>
    requires Canonical(data, domain, policy)
  {
    var at := Start(domain, policy) + 551;
    EntriesAt(data, at + 1, data[at])
  }

  method DecodeUnder(data: bytes, domain: bytes, policy: bytes) returns (r: Result<seq<Entry>, Refusal>)
    requires |data| <= 8192 && |domain| <= 65536 && |policy| <= 65536
    ensures r.Ok? <==> Canonical(data, domain, policy)
    ensures r.Ok? ==> r.value == Decoded(data, domain, policy)
  {
    var d := new Decoder(data);
    var problem := ReadHead(d, domain, policy);
    if problem.Some? {
      return Refused(problem.value);
    }
    r := ReadBody(d);
  }

  method ReadBody(d: Decoder) returns (r: Result<seq<Entry>, Refusal>)
    requires d.position <= |d.data|
    modifies d`position
    ensures r.Ok? <==> CanonicalBody(d.data, old(d.position))
    ensures r.Ok? ==> r.value == EntriesAt(d.data, old(d.position) + 1, d.data[old(d.position)])
  {
    ghost var at := d.position;
    var count := d.Integer(1);
    if count.Refused? {
      return Refused(count.why);
    }
    OneByte(d.data, at);
    if !(1 <= count.value <= 16) {
      return Refused(ZoneBudget);
    }
    r := d.ReadEntries(count.value);
    if r.Ok? && d.position != |d.data| {
      r := Refused(TrailingBytes);
    }
  }

  lemma OneByte(data: bytes, at: nat)
    requires at < |data|
    ensures FromBE(data[at..at + 1]) == data[at]
  {
    var one: bytes := data[at..at + 1];
    assert one[..0] == [];
    assert FromBE(one) == 256 * FromBE([]) + data[at];
  }

  method ReadHead(d: Decoder, domain: bytes, policy: bytes) returns (problem: Option<Refusal>)
    requires d.position == 0 && |domain| <= 65536 && |policy| <= 65536
    modifies d`position
    ensures problem == None ==> CanonicalHead(d.data, domain, policy) && d.position == Start(domain, policy) + 551
    ensures CanonicalHead(d.data, domain, policy) ==> problem == None
    ensures d.position <= |d.data|
  {
    problem := d.Contract(domain, policy);
    if problem.Some? {
      return;
    }
    problem := d.Digests(7);
    if problem.Some? {
      return;
    }
    var camera := d.Camera(3);
    if camera.Refused? {
      return Some(camera.why);
    }
    if 0 in camera.value {
      return Some(ZeroCamera);
    }
    var mask := d.Integer(8);
    if mask.Refused? {
      return Some(mask.why);
    }
    problem := ReadPose(d);
  }

  method ReadPose(d: Decoder) returns (problem: Option<Refusal>)
    requires d.position <= |d.data|
    modifies d`position
    ensures problem == None <==> old(d.position) + 288 <= |d.data| && PoseAt(d.data, old(d.position), 36)
    ensures problem == None ==> d.position == old(d.position) + 288
    ensures d.position <= |d.data|
  {
    ghost var at := d.position;
    var pose := d.Take(288);
    if pose.Refused? {
      return Some(pose.why);
    }
    for i := 0 to 36
      invariant d.position == at + 288 <= |d.data| && PoseAt(d.data, at, i)
    {
      Inside(d.data, at, at + 288, 8 * i, 8 * i + 8);
      assert pose.value[8 * i..8 * i + 8] == Row(d.data, at, 8, i);
      if !IsFinite(pose.value[8 * i..8 * i + 8]) {
        return Some(NonfiniteCovariance);
      }
    }
    problem := None;
  }
}
