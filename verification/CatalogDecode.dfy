/** `decode` of a catalog page, against the pages that valid catalogs have. */
module CatalogDecode {
  import opened Bytes
  import opened Sorting
  import opened Wire
  import opened Tables
  import opened Catalog
  import opened CatalogReader
  import Selection

  ghost predicate Hash(sha: bytes -> bytes) {
    forall b: bytes :: |sha(b)| == 32
  }

  function Reading(data: bytes): nat -> Option<Entry> {
    (p: nat) => EntryAt(data, p)
  }

  function EntrySize(e: Entry): nat {
    221 + |e.slot|
  }

  method ReadHead(d: Reader, domain: bytes, scope: bytes, stream: bytes, owner: bytes, receive: bytes, decode: bytes)
    returns (problem: Option<Refusal>)
    requires d.pos == 0 && |domain| <= 65536 && |scope| <= 65536 && |stream| <= 65536
    requires |owner| == 32 && |receive| == 32 && |decode| == 32
    modifies d`pos
    ensures problem == None <==> Holds(d.data, 0, HeadOf(domain, scope, stream, owner, receive, decode))
    ensures problem == None ==> d.pos == |HeadOf(domain, scope, stream, owner, receive, decode)|
    ensures d.pos <= |d.data|
  {
    ghost var rate := BE(4, 90000);
    ghost var anchors := Dg(owner) + (Dg(receive) + (Dg(decode) + rate));
    var ok := d.ExpectText(domain, BE(8, 1) + (Text(scope) + (Text(stream) + (BE(8, 1) + anchors))));
    if !ok {
      return Some(Version);
    }
    ok := d.ExpectNumber(1, Text(scope) + (Text(stream) + (BE(8, 1) + anchors)));
    if !ok {
      return Some(Version);
    }
    ok := ReadScope(d, scope, stream, anchors);
    if !ok {
      return Some(Scope);
    }
    ok := ReadAnchors(d, owner, receive, decode, rate);
    if !ok {
      return Some(Clock);
    }
    var four := d.Take(4);
    if four != Ok(BE(4, 90000)) {
      return Some(TickRate);
    }
    problem := None;
  }

  method ReadScope(d: Reader, scope: bytes, stream: bytes, ghost rest: bytes) returns (ok: bool)
    requires d.pos <= |d.data| && |scope| <= 65536 && |stream| <= 65536
    modifies d`pos
    ensures Holds(d.data, old(d.pos), Text(scope) + (Text(stream) + (BE(8, 1) + rest))) <==>
      ok && Holds(d.data, d.pos, rest)
    ensures ok ==> d.pos == old(d.pos) + 24 + |scope| + |stream|
    ensures d.pos <= |d.data|
  {
    ok := d.ExpectText(scope, Text(stream) + (BE(8, 1) + rest));
    if ok {
      ok := d.ExpectText(stream, BE(8, 1) + rest);
    }
    if ok {
      ok := d.ExpectNumber(1, rest);
    }
  }

  method ReadAnchors(d: Reader, owner: bytes, receive: bytes, decode: bytes, ghost rest: bytes) returns (ok: bool)
    requires d.pos <= |d.data| && |owner| == 32 && |receive| == 32 && |decode| == 32
    modifies d`pos
    ensures Holds(d.data, old(d.pos), Dg(owner) + (Dg(receive) + (Dg(decode) + rest))) <==>
      ok && Holds(d.data, d.pos, rest)
    ensures ok ==> d.pos == old(d.pos) + 99
    ensures d.pos <= |d.data|
  {
    ok := d.ExpectDigest(owner, Dg(receive) + (Dg(decode) + rest));
    if ok {
      ok := d.ExpectDigest(receive, Dg(decode) + rest);
    }
    if ok {
      ok := d.ExpectDigest(decode, rest);
    }
  }

  function Slots(es: seq<Entry>): set<bytes> {
    set i | 0 <= i < |es| :: es[i].slot
  }

  function Roots(es: seq<Entry>): set<bytes> {
    set i | 0 <= i < |es| :: es[i].root
  }

  /** The part of an entry in front of its children is well formed and may follow. */
  predicate DescriptorOk(e: Entry, before: seq<Entry>) {
    |e.nums| == 6 && AllSix(before) && SlotOk(e.slot) && Follows(e, before) && CountsOk(e.nums)
  }

  method ReadDescriptor(d: Reader, before: seq<Entry>, slots: set<bytes>, roots: set<bytes>)
    returns (r: Result<Entry, Refusal>)
    requires d.pos <= |d.data| && AllSix(before) && slots == Slots(before) && roots == Roots(before)
    modifies d`pos
    ensures var e := DescriptorAt(d.data, old(d.pos)); r.Ok? <==> e.Some? && DescriptorOk(e.value, before)
    ensures r.Ok? ==> DescriptorAt(d.data, old(d.pos)) == Some(r.value) && d.pos == old(d.pos) + 89 + |r.value.slot|
    ensures d.pos <= |d.data|
  {
    var slot := d.String();
    if slot.Refused? {
      return Refused(slot.why);
    }
    if !SlotOk(slot.value) {
      return Refused(BadSlot);
    }
    var root := d.Digest();
    if root.Refused? {
      return Refused(root.why);
    }
    NumbersLength(d.data, d.pos, 6);
    var nums := d.Numbers(6);
    if nums.Refused? {
      return Refused(nums.why);
    }
    var e := Entry(slot.value, root.value, nums.value, []);
    if !(e.nums[0] < e.nums[1] && (before == [] || before[|before| - 1].nums[1] <= e.nums[0])) {
      return Refused(RangeOrder);
    }
    if slot.value in slots || root.value in roots {
      return Refused(DuplicateEntry);
    }
    if !CountsOk(e.nums) {
      return Refused(DescriptorBound);
    }
    r := Ok(e);
  }

  method ReadEntry(d: Reader, before: seq<Entry>, slots: set<bytes>, roots: set<bytes>, closed: Entry -> bool)
    returns (r: Result<Entry, Refusal>)
    requires d.pos <= |d.data| && AllSix(before) && slots == Slots(before) && roots == Roots(before)
    modifies d`pos
    ensures var e := EntryAt(d.data, old(d.pos)); r.Ok? <==> e.Some? && EntryOk(e.value, before, closed)
    ensures r.Ok? ==> EntryAt(d.data, old(d.pos)) == Some(r.value) && d.pos == old(d.pos) + EntrySize(r.value)
    ensures d.pos <= |d.data|
  {
    EntryShape(d.data, d.pos);
    r := ReadDescriptor(d, before, slots, roots);
    if r.Refused? {
      return;
    }
    var children := d.Digests(4);
    if children.Refused? {
      return Refused(children.why);
    }
    r := Ok(r.value.(children := children.value));
    if !closed(r.value) {
      r := Refused(WindowClosure);
    }
  }

  lemma PassesAt(es: seq<Entry>, closed: Entry -> bool, i: nat)
    requires EntriesOk(es, closed) && i < |es|
    ensures EntryOk(es[i], es[..i], closed)
  {
    AllOkAt(Passing(closed), es, i);
  }

  lemma {:induction false} EndsBefore(es: seq<Entry>, closed: Entry -> bool, i: nat, j: nat)
    requires EntriesOk(es, closed) && i < j < |es|
    ensures |es[i].nums| == 6 && |es[j].nums| == 6 && es[i].nums[1] <= es[j].nums[0]
    ensures es[i].slot != es[j].slot && es[i].root != es[j].root
    decreases j
  {
    PassesAt(es, closed, j);
    var before := es[..j];
    assert before[i] == es[i] && before[j - 1] == es[j - 1];
    if i < j - 1 {
      PassesAt(es, closed, j - 1);
      EndsBefore(es, closed, i, j - 1);
    }
  }

  predicate NoRepeats(es: seq<Entry>) {
    forall i, j :: 0 <= i < j < |es| ==> es[i].slot != es[j].slot && es[i].root != es[j].root
  }

  /** Entries that pass form a chain of ranges and repeat neither a slot nor a window. */
  lemma PassingAreChained(es: seq<Entry>, closed: Entry -> bool)
    requires EntriesOk(es, closed)
    ensures AllSix(es) && Selection.Chained(RangesOf(es)) && NoRepeats(es)
  {
    forall i | 0 <= i < |es| ensures |es[i].nums| == 6 && es[i].nums[0] < es[i].nums[1] {
      PassesAt(es, closed, i);
    }
    forall i, j | 0 <= i < j < |es|
      ensures es[i].nums[1] <= es[j].nums[0] && es[i].slot != es[j].slot && es[i].root != es[j].root
    {
      EndsBefore(es, closed, i, j);
    }
  }

  // ---------------------------------------------------------------- decode

  /** The entries read so far, as the loop holds them. */
  datatype Seen = Seen(entries: seq<Entry>, ranges: seq<Selection.Interval>, slots: set<bytes>, roots: set<bytes>,
    closure: seq<bytes>)

  predicate Faithful(s: Seen) {
    && AllSix(s.entries) && s.ranges == RangesOf(s.entries) && s.slots == Slots(s.entries)
    && s.roots == Roots(s.entries) && s.closure == Closure(s.entries)
  }

  function Add(s: Seen, e: Entry): Seen
    requires |e.nums| == 6
  {
    Seen(s.entries + [e], s.ranges + [Selection.Interval(e.nums[0], e.nums[1])], s.slots + {e.slot}, s.roots + {e.root},
         AddAll(s.closure, [e.root] + e.children))
  }

  lemma AddIsFaithful(s: Seen, e: Entry)
    requires Faithful(s) && |e.nums| == 6
    ensures Faithful(Add(s, e))
  {
    var es := s.entries + [e];
    assert es[..|s.entries|] == s.entries;
    assert RangesOf(es) == s.ranges + [Selection.Interval(e.nums[0], e.nums[1])];
    assert forall i :: 0 <= i < |s.entries| ==> es[i] == s.entries[i];
    assert es[|s.entries|] == e;
    assert Slots(es) == s.slots + {e.slot};
    assert Roots(es) == s.roots + {e.root};
  }

  method NextEntry(d: Reader, s: Seen, closed: Entry -> bool) returns (r: Result<Seen, Refusal>)
    requires d.pos <= |d.data| && Faithful(s)
    modifies d`pos
    ensures r.Refused? ==> Extend(Reading(d.data), EntrySize, Passing(closed), Table(s.entries, old(d.pos))).None?
    ensures r.Ok? ==> Faithful(r.value)
    ensures r.Ok? ==>
      var t := Table(s.entries, old(d.pos));
      Extend(Reading(d.data), EntrySize, Passing(closed), t) == Some(Table(r.value.entries, d.pos))
    ensures d.pos <= |d.data|
  {
    var e := ReadEntry(d, s.entries, s.slots, s.roots, closed);
    if e.Refused? {
      return Refused(e.why);
    }
    AddIsFaithful(s, e.value);
    r := Ok(Add(s, e.value));
  }

  method ReadEntries(d: Reader, n: nat, closed: Entry -> bool) returns (r: Result<Seen, Refusal>)
    requires d.pos <= |d.data|
    modifies d`pos
    ensures r.Refused? ==> TableAt(Reading(d.data), EntrySize, Passing(closed), old(d.pos), n).None?
    ensures r.Ok? ==> Faithful(r.value)
    ensures r.Ok? ==>
      TableAt(Reading(d.data), EntrySize, Passing(closed), old(d.pos), n) == Some(Table(r.value.entries, d.pos))
    ensures d.pos <= |d.data|
  {
    r := Ok(Seen([], [], {}, {}, []));
    ghost var at := d.pos;
    for i := 0 to n
      invariant d.pos <= |d.data| && r.Ok? && Faithful(r.value)
      invariant TableAt(Reading(d.data), EntrySize, Passing(closed), at, i) == Some(Table(r.value.entries, d.pos))
    {
      TableStep(Reading(d.data), EntrySize, Passing(closed), at, i, n, Table(r.value.entries, d.pos));
      r := NextEntry(d, r.value, closed);
      if r.Refused? {
        return;
      }
    }
  }

  /** The entries of a body whose head has `h` bytes. */
  function BodyAt(data: bytes, h: nat, closed: Entry -> bool): Option<seq<Entry>> {
    var n := NumberAt(data, h);
    if n.None? || !(1 <= n.value <= 64) then None
    else
      var t := TableAt(Reading(data), EntrySize, Passing(closed), h + 8, n.value);
      if t.Some? && t.value.end == |data| then Some(t.value.entries) else None
  }

  method ReadTable(d: Reader, closed: Entry -> bool) returns (r: Result<Seen, Refusal>)
    requires d.pos <= |d.data|
    modifies d`pos
    ensures r.Refused? ==> BodyAt(d.data, old(d.pos), closed).None?
    ensures r.Ok? ==> Faithful(r.value) && BodyAt(d.data, old(d.pos), closed) == Some(r.value.entries)
  {
    var count := d.U64();
    if count.Refused? {
      return Refused(count.why);
    }
    if !(1 <= count.value <= 64) {
      return Refused(EntryCount);
    }
    r := ReadEntries(d, count.value, closed);
    if r.Ok? && d.pos != |d.data| {
      r := Refused(TrailingBytes);
    }
  }

  lemma EntriesAreRead(data: bytes, closed: Entry -> bool)
    ensures Reads(data, Reading(data), EntrySize, Passing(closed), EntryBytes)
  {
    forall e, before | Passing(closed)(e, before) ensures ReadsOne(data, Reading(data), EntrySize, EntryBytes, e) {
      assert Shaped(e);
      forall p: nat
        ensures |EntryBytes(e)| == EntrySize(e) && (Reading(data)(p) == Some(e) <==> Holds(data, p, EntryBytes(e)))
      {
        EntryExactly(data, p, e);
      }
      EntryExactly(data, 0, e);
    }
  }

  /** A list of entries is read exactly where its bytes stand. */
  lemma TableOfEntries(data: bytes, at: nat, es: seq<Entry>, end: nat, closed: Entry -> bool)
    requires at <= |data|
    ensures TableAt(Reading(data), EntrySize, Passing(closed), at, |es|) == Some(Table(es, end)) <==>
      EntriesOk(es, closed) && Holds(data, at, EntriesBytes(es)) && end == at + |EntriesBytes(es)|
  {
    EntriesAreRead(data, closed);
    TableExactly(data, Reading(data), EntrySize, Passing(closed), EntryBytes, at, es, end);
  }

  predicate IsBody(data: bytes, head: bytes, es: seq<Entry>, closed: Entry -> bool) {
    1 <= |es| <= 64 && EntriesOk(es, closed) && data == head + (BE(8, |es|) + EntriesBytes(es))
  }

  lemma BodyParts(data: bytes, head: bytes, n: nat, rest: bytes)
    requires n <= 64
    ensures data == head + (BE(8, n) + rest) <==>
      && |data| == |head| + 8 + |rest| && Holds(data, 0, head) && NumberAt(data, |head|) == Some(n)
      && Holds(data, |head| + 8, rest)
  {
    WholeIsHeld(data, head + (BE(8, n) + rest));
    HoldsApart(data, 0, head, BE(8, n) + rest);
    HoldsApart(data, |head|, BE(8, n), rest);
    NumberExactly(data, |head|, n);
  }

  /** A body is read exactly when it is the body of valid entries. */
  lemma BodyExactly(data: bytes, head: bytes, es: seq<Entry>, closed: Entry -> bool)
    ensures Holds(data, 0, head) && BodyAt(data, |head|, closed) == Some(es) <==> IsBody(data, head, es, closed)
  {
    if |head| + 8 <= |data| {
      var n := NumberAt(data, |head|).value;
      if n <= 64 {
        TableLength(Reading(data), EntrySize, Passing(closed), |head| + 8, n);
      }
      TableOfEntries(data, |head| + 8, es, |data|, closed);
    }
    if |es| <= 64 {
      BodyParts(data, head, |es|, EntriesBytes(es));
    }
  }

  /** An index is its body and the body's digest. */
  lemma IndexParts(index: bytes, body: bytes, sha: bytes -> bytes)
    requires Hash(sha)
    ensures index == body + Dg(sha(body)) <==>
      |index| >= 33 && body == index[..|index| - 33] && index[|index| - 33..] == Dg(sha(index[..|index| - 33]))
  {
    if index == body + Dg(sha(body)) {
      assert index[..|body|] == body && index[|body|..] == Dg(sha(body));
    } else if |index| >= 33 {
      assert index == index[..|index| - 33] + index[|index| - 33..];
    }
  }

  predicate Sealed(index: bytes, sha: bytes -> bytes) {
    |index| >= 33 && index[|index| - 33..] == Dg(sha(index[..|index| - 33]))
  }

  /** A page is a sealed body and the root its entries call for. */
  lemma PageExactly(index: bytes, root: bytes, es: seq<Entry>, sha: bytes -> bytes)
    requires Hash(sha)
    ensures IsPage(index, root, es, sha) <==>
      && |index| + |root| <= 65536 && Sealed(index, sha)
      && IsBody(index[..|index| - 33], Head(sha), es, Closed(sha)) && Root(es, index, sha) == Some(root)
  {
    IndexParts(index, Body(es, sha), sha);
  }

  /** The entries of a page, or that there are none. */
  method DecodePage(index: bytes, root: bytes, sha: bytes -> bytes) returns (r: Result<Seen, Refusal>)
    requires Hash(sha)
    ensures r.Ok? ==> IsPage(index, root, r.value.entries, sha) && Faithful(r.value)
    ensures forall es :: IsPage(index, root, es, sha) ==> r.Ok? && r.value.entries == es
  {
    forall es ensures IsPage(index, root, es, sha) <==>
      && |index| + |root| <= 65536 && Sealed(index, sha)
      && IsBody(index[..|index| - 33], Head(sha), es, Closed(sha)) && Root(es, index, sha) == Some(root)
    {
      PageExactly(index, root, es, sha);
    }
    if !(|index| + |root| <= 65536 && |index| >= 33) {
      return Refused(PageBound);
    }
    if !Sealed(index, sha) {
      return Refused(Checksum);
    }
    r := ReadPage(index[..|index| - 33], sha);
    if r.Ok? {
      var expected := Manifest(Ascii("avc_recording_catalog_v1"), Sort(BytesLeq, r.value.closure), sha(index));
      if expected.None? {
        r := Refused(DuplicateChild);
      } else if root != expected.value {
        r := Refused(FlatClosure);
      }
    }
  }

  /** Accepts exactly the pages of valid catalogs, and returns the ranges of their entries. */
  method Decode(index: bytes, root: bytes, sha: bytes -> bytes) returns (r: Result<seq<Selection.Interval>, Refusal>)
    requires Hash(sha)
    ensures r.Ok? ==> exists es :: IsPage(index, root, es, sha) && AllSix(es) && r.value == RangesOf(es)
    ensures forall es :: IsPage(index, root, es, sha) ==> AllSix(es) && r == Ok(RangesOf(es))
    ensures r.Ok? ==> Selection.Chained(r.value)
  {
    var seen := DecodePage(index, root, sha);
    if seen.Refused? {
      return Refused(seen.why);
    }
    PassingAreChained(seen.value.entries, Closed(sha));
    r := Ok(seen.value.ranges);
  }

  method ReadPage(body: bytes, sha: bytes -> bytes) returns (r: Result<Seen, Refusal>)
    requires Hash(sha)
    ensures r.Ok? ==> Faithful(r.value) && IsBody(body, Head(sha), r.value.entries, Closed(sha))
    ensures forall es :: IsBody(body, Head(sha), es, Closed(sha)) ==> r.Ok? && r.value.entries == es
  {
    forall es
      ensures Holds(body, 0, Head(sha)) && BodyAt(body, |Head(sha)|, Closed(sha)) == Some(es) <==>
              IsBody(body, Head(sha), es, Closed(sha))
    {
      BodyExactly(body, Head(sha), es, Closed(sha));
    }
    var d := new Reader(body);
    var problem := ReadHead(d, Ascii("fss.recording_catalog.v1"), Ascii("catalog-wire-fixture"), Ascii("main"),
                            sha(Ascii("owner")), sha(Ascii("receive")), sha(Ascii("decode")));
    if problem.Some? {
      return Refused(problem.value);
    }
    r := ReadTable(d, Closed(sha));
  }

  // ---------------------------------------------------------------- what the page and the query promise

  /** The manifest ends with its metadata. */
  lemma MetadataIsLast(kind: bytes, children: seq<bytes>, metadata: bytes)
    requires |metadata| == 32 && Manifest(kind, children, metadata).Some?
    ensures var m := Manifest(kind, children, metadata).value; |m| >= 32 && m[|m| - 32..] == metadata
  {
    var refs := Refs(children, metadata);
    var front := Text(Ascii("fss.object_manifest.v1")) + Text(kind) + BE(8, |refs|) + Digests(refs) + [1];
    assert Manifest(kind, children, metadata).value == front + ([1] + metadata);
    assert (front + ([1] + metadata))[|front| + 1..] == metadata;
  }

  /** The order in which children are listed does not matter to a manifest. */
  lemma ManifestIgnoresOrder(kind: bytes, a: seq<bytes>, b: seq<bytes>, metadata: bytes)
    requires multiset(a) == multiset(b)
    ensures Manifest(kind, a, metadata) == Manifest(kind, b, metadata)
  {
    BytesOrder();
    assert multiset(a + [metadata]) == multiset(b + [metadata]);
    SortOfSame(BytesLeq, a + [metadata], b + [metadata]);
  }

  /** One index has one root, and, where the hash does not collide, one root has one index. */
  lemma IndexAndRootDetermineEachOther(
    i: bytes, r: bytes, es: seq<Entry>, j: bytes, q: bytes, fs: seq<Entry>, sha: bytes -> bytes)
    requires Hash(sha) && IsPage(i, r, es, sha) && IsPage(j, q, fs, sha)
    ensures i == j ==> es == fs && r == q
    ensures r == q ==> sha(i) == sha(j)
  {
    if i == j {
      PageExactly(i, r, es, sha);
      PageExactly(i, q, fs, sha);
      BodyExactly(i[..|i| - 33], Head(sha), es, Closed(sha));
      BodyExactly(i[..|i| - 33], Head(sha), fs, Closed(sha));
    }
    MetadataIsLast(Ascii("avc_recording_catalog_v1"), Sort(BytesLeq, Closure(es)), sha(i));
    MetadataIsLast(Ascii("avc_recording_catalog_v1"), Sort(BytesLeq, Closure(fs)), sha(j));
  }

  /** From a page to the answer of a query: the pieces partition the interval, a tick is selected exactly
      when a catalogued range holds it, and no two gaps touch. */
  method Query(index: bytes, root: bytes, sha: bytes -> bytes, start: int, end: int)
    returns (r: Option<(seq<Selection.Interval>, seq<Selection.Interval>)>)
    requires Hash(sha)
    ensures r.Some? <==> start < end && exists es :: IsPage(index, root, es, sha)
    ensures r.Some? ==> exists es ::
      IsPage(index, root, es, sha) && AllSix(es) && Selection.SelectsExactly(r.value.0, RangesOf(es), start, end)
    ensures r.Some? ==> Selection.Partitions(r.value.0, r.value.1, start, end) && Selection.GapsApart(r.value.1)
  {
    var ranges := Decode(index, root, sha);
    if ranges.Refused? {
      return None;
    }
    var pieces := Selection.Select(ranges.value, start, end);
    if pieces.Refused? {
      return None;
    }
    r := Some(pieces.value);
  }
}
