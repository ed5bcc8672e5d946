/** scripts/check_recording_catalog_fixture.py, `manifest`, `Reader` and `decode`: a page of the recording
    catalog, with the hash as a parameter. */
module Catalog {
  import opened Bytes
  import opened Sorting
  import opened Wire
  import opened Tables
  import Selection

  // ---------------------------------------------------------------- manifests

  /** A digest with the byte that names its algorithm. */
  function Dg(d: bytes): bytes {
    [1] + d
  }

  function Digests(ds: seq<bytes>): bytes {
    if ds == [] then [] else Digests(ds[..|ds| - 1]) + Dg(ds[|ds| - 1])
  }

  predicate Distinct(refs: seq<bytes>) {
    forall i, j :: 0 <= i < j < |refs| ==> refs[i] != refs[j]
  }

  predicate AreDigests(ds: seq<bytes>) {
    forall i :: 0 <= i < |ds| ==> |ds[i]| == 32
  }

  function Refs(children: seq<bytes>, metadata: bytes): seq<bytes> {
    Sort(BytesLeq, children + [metadata])
  }

  /** The object that names its children; refused (`None`) when a child is repeated or is no digest. */
  function Manifest(kind: bytes, children: seq<bytes>, metadata: bytes): Option<bytes> {
    var refs := Refs(children, metadata);
    if Distinct(refs) && AreDigests(refs) then
      Some(Text(Ascii("fss.object_manifest.v1")) + Text(kind) + BE(8, |refs|) + Digests(refs) + [1] + Dg(metadata))
    else None
  }

  // ---------------------------------------------------------------- entries

  /** The six numbers are start, end, packets, samples, NALs and size. */
  datatype Entry = Entry(slot: bytes, root: bytes, nums: seq<nat>, children: seq<bytes>)

  predicate Shaped(e: Entry) {
    && |e.slot| <= 65536 && |e.root| == 32
    && |e.nums| == 6 && (forall i :: 0 <= i < 6 ==> e.nums[i] < 0x1_0000_0000_0000_0000)
    && |e.children| == 4 && AreDigests(e.children)
  }

  function Numbers(nums: seq<nat>): bytes {
    if nums == [] then [] else Numbers(nums[..|nums| - 1]) + BE(8, nums[|nums| - 1])
  }

  function Tail(e: Entry): bytes {
    Dg(e.root) + (Numbers(e.nums) + Digests(e.children))
  }

  function EntryBytes(e: Entry): bytes {
    Text(e.slot) + Tail(e)
  }

  predicate SlotByte(c: byte) {
    'a' as int <= c <= 'z' as int || '0' as int <= c <= '9' as int || c == '_' as int || c == '-' as int
  }

  predicate SlotOk(slot: bytes) {
    && 1 <= |slot| <= 128 && slot[0] != '_' as int && slot[0] != '-' as int
    && forall i :: 0 <= i < |slot| ==> SlotByte(slot[i])
  }

  predicate CountsOk(nums: seq<nat>)
    requires |nums| == 6
  {
    1 <= nums[2] <= 4096 && 1 <= nums[3] <= 256 && 1 <= nums[4] <= 16384 && 1 <= nums[5] <= 33554432
  }

  /** The window's root is the hash of the manifest of its four objects. */
  predicate ClosureOk(e: Entry, sha: bytes -> bytes)
    requires |e.children| == 4
  {
    var m := Manifest(Ascii("avc_recording_window_v1"), e.children[..3], e.children[3]);
    m.Some? && sha(m.value) == e.root
  }

  /** The entry may follow those before it: its range is not empty and begins no earlier than the last one
      ends, and neither its slot nor its root occurs before. */
  predicate Follows(e: Entry, before: seq<Entry>)
    requires |e.nums| == 6 && AllSix(before)
  {
    && e.nums[0] < e.nums[1] && (before == [] || before[|before| - 1].nums[1] <= e.nums[0])
    && forall i :: 0 <= i < |before| ==> before[i].slot != e.slot && before[i].root != e.root
  }

  predicate AllSix(es: seq<Entry>) {
    forall i :: 0 <= i < |es| ==> |es[i].nums| == 6
  }

  /** What `decode` asks of an entry; `closed` is the check of its root. */
  predicate EntryOk(e: Entry, before: seq<Entry>, closed: Entry -> bool) {
    Shaped(e) && SlotOk(e.slot) && AllSix(before) && Follows(e, before) && CountsOk(e.nums) && closed(e)
  }

  function Closed(sha: bytes -> bytes): Entry -> bool {
    (e: Entry) => |e.children| == 4 && ClosureOk(e, sha)
  }

  function Passing(closed: Entry -> bool): (Entry, seq<Entry>) -> bool {
    (e, before) => EntryOk(e, before, closed)
  }

  predicate EntriesOk(es: seq<Entry>, closed: Entry -> bool) {
    AllOk(Passing(closed), es)
  }

  function EntriesBytes(es: seq<Entry>): bytes {
    Written(EntryBytes, es)
  }

  // ---------------------------------------------------------------- pages

  /** The fixed part in front of the number of entries: domain and version, scope, anchors, tick rate. */
  function HeadOf(domain: bytes, scope: bytes, stream: bytes, owner: bytes, receive: bytes, decode: bytes): bytes {
    Text(domain) + (BE(8, 1) + (Text(scope) + (Text(stream) + (BE(8, 1) +
    (Dg(owner) + (Dg(receive) + (Dg(decode) + BE(4, 90000))))))))
  }

  function Head(sha: bytes -> bytes): bytes {
    HeadOf(Ascii("fss.recording_catalog.v1"), Ascii("catalog-wire-fixture"), Ascii("main"),
           sha(Ascii("owner")), sha(Ascii("receive")), sha(Ascii("decode")))
  }

  function Body(es: seq<Entry>, sha: bytes -> bytes): bytes {
    Head(sha) + (BE(8, |es|) + EntriesBytes(es))
  }

  /** The index of a catalog: its body and the body's digest. */
  function Index(es: seq<Entry>, sha: bytes -> bytes): bytes {
    Body(es, sha) + Dg(sha(Body(es, sha)))
  }

  /** A set as the list of its members in the order they were added. */
  function AddAll(closure: seq<bytes>, more: seq<bytes>): seq<bytes> {
    if more == [] then closure
    else
      var front, x := AddAll(closure, more[..|more| - 1]), more[|more| - 1];
      if x in front then front else front + [x]
  }

  /** Every object that the entries need. */
  function Closure(es: seq<Entry>): seq<bytes> {
    if es == [] then []
    else AddAll(Closure(es[..|es| - 1]), [es[|es| - 1].root] + es[|es| - 1].children)
  }

  function Root(es: seq<Entry>, index: bytes, sha: bytes -> bytes): Option<bytes> {
    Manifest(Ascii("avc_recording_catalog_v1"), Sort(BytesLeq, Closure(es)), sha(index))
  }

  function RangesOf(es: seq<Entry>): (r: seq<Selection.Interval>)
    requires AllSix(es)
    ensures |r| == |es|
  {
    seq(|es|, i requires 0 <= i < |es| => Selection.Interval(es[i].nums[0], es[i].nums[1]))
  }

  /** The page is the index and the root of a valid catalog of 1 to 64 entries, within 64 KiB. */
  ghost predicate IsPage(index: bytes, root: bytes, es: seq<Entry>, sha: bytes -> bytes) {
    && |index| + |root| <= 65536 && 1 <= |es| <= 64 && EntriesOk(es, Closed(sha))
    && index == Index(es, sha) && Root(es, index, sha) == Some(root)
  }
}
