/** The decoder of a catalog page, and the proof that it accepts the pages of valid catalogs and nothing else. */
module CatalogReader {
  import opened Bytes
  import opened Wire
  import opened Tables
  import opened Catalog

  // ---------------------------------------------------------------- what stands at a position

  function DigestAt(data: bytes, at: nat): Option<bytes> {
    if at + 33 <= |data| && data[at] == 1 then Some(data[at + 1..at + 33]) else None
  }

  function DigestsAt(data: bytes, at: nat, n: nat): Option<seq<bytes>> {
    if n == 0 then Some([])
    else
      var front, last := DigestsAt(data, at, n - 1), DigestAt(data, at + 33 * (n - 1));
      if front.Some? && last.Some? then Some(front.value + [last.value]) else None
  }

  function NumbersAt(data: bytes, at: nat, n: nat): Option<seq<nat>> {
    if n == 0 then Some([])
    else
      var front, last := NumbersAt(data, at, n - 1), NumberAt(data, at + 8 * (n - 1));
      if front.Some? && last.Some? then Some(front.value + [last.value]) else None
  }

  /** An entry without its children. */
  function DescriptorAt(data: bytes, at: nat): Option<Entry> {
    var slot := TextAt(data, at);
    if slot.None? then None
    else
      var p := at + 8 + |slot.value|;
      var root, nums := DigestAt(data, p), NumbersAt(data, p + 33, 6);
      if root.Some? && nums.Some? then Some(Entry(slot.value, root.value, nums.value, [])) else None
  }

  function EntryAt(data: bytes, at: nat): Option<Entry> {
    var e := DescriptorAt(data, at);
    if e.None? then None
    else
      var children := DigestsAt(data, at + 89 + |e.value.slot|, 4);
      if children.Some? then Some(e.value.(children := children.value)) else None
  }

  lemma DigestExactly(data: bytes, at: nat, d: bytes)
    requires |d| == 32
    ensures DigestAt(data, at) == Some(d) <==> Holds(data, at, Dg(d))
  {
    HoldsApart(data, at, [1], d);
    if at < |data| {
      assert data[at..at + 1] == [data[at]];
    }
  }

  lemma {:induction false} DigestsExactly(data: bytes, at: nat, ds: seq<bytes>)
    requires AreDigests(ds) && at <= |data|
    ensures |Digests(ds)| == 33 * |ds|
    ensures DigestsAt(data, at, |ds|) == Some(ds) <==> Holds(data, at, Digests(ds))
    decreases |ds|
  {
    if ds != [] {
      var n := |ds| - 1;
      var front, last := ds[..n], ds[n];
      DigestsExactly(data, at, front);
      DigestsStep(data, at, front, last, Digests(front));
      assert ds == front + [last];
    }
  }

  lemma DigestsStep(data: bytes, at: nat, front: seq<bytes>, last: bytes, code: bytes)
    requires |code| == 33 * |front| && |last| == 32
    requires DigestsAt(data, at, |front|) == Some(front) <==> Holds(data, at, code)
    ensures DigestsAt(data, at, |front| + 1) == Some(front + [last]) <==> Holds(data, at, code + Dg(last))
  {
    DigestExactly(data, at + |code|, last);
    HoldsApart(data, at, code, Dg(last));
    DigestsSnoc(data, at, front, last);
  }

  lemma DigestsSnoc(data: bytes, at: nat, front: seq<bytes>, last: bytes)
    ensures DigestsAt(data, at, |front| + 1) == Some(front + [last]) <==>
      DigestsAt(data, at, |front|) == Some(front) && DigestAt(data, at + 33 * |front|) == Some(last)
  {
    DigestsLength(data, at, |front|);
    var a, b := DigestsAt(data, at, |front|), DigestAt(data, at + 33 * |front|);
    if a.Some? && b.Some? {
      SnocEqual(a.value, b.value, front, last);
    }
  }

  lemma {:induction false} DigestsLength(data: bytes, at: nat, n: nat)
    ensures DigestsAt(data, at, n).Some? ==>
      |DigestsAt(data, at, n).value| == n && AreDigests(DigestsAt(data, at, n).value)
    ensures DigestsAt(data, at, n).Some? && n > 0 ==> at + 33 * n <= |data|
  {
    if n > 0 {
      DigestsLength(data, at, n - 1);
    }
  }

  lemma {:induction false} NumbersLength(data: bytes, at: nat, n: nat)
    ensures var r := NumbersAt(data, at, n);
      r.Some? ==> |r.value| == n && forall i :: 0 <= i < n ==> r.value[i] < 0x1_0000_0000_0000_0000
  {
    if n > 0 {
      NumbersLength(data, at, n - 1);
      if at + 8 * n <= |data| {
        PowValues();
        WritesBack(data[at + 8 * (n - 1)..at + 8 * (n - 1) + 8]);
      }
    }
  }

  lemma {:induction false} NumbersExactly(data: bytes, at: nat, nums: seq<nat>)
    requires at <= |data| && forall i :: 0 <= i < |nums| ==> nums[i] < 0x1_0000_0000_0000_0000
    ensures |Numbers(nums)| == 8 * |nums|
    ensures NumbersAt(data, at, |nums|) == Some(nums) <==> Holds(data, at, Numbers(nums))
    decreases |nums|
  {
    if nums != [] {
      var n := |nums| - 1;
      var front, last := nums[..n], nums[n];
      NumbersExactly(data, at, front);
      NumbersStep(data, at, front, last, Numbers(front));
      assert nums == front + [last];
    }
  }

  lemma NumbersStep(data: bytes, at: nat, front: seq<nat>, last: nat, code: bytes)
    requires |code| == 8 * |front| && last < 0x1_0000_0000_0000_0000
    requires NumbersAt(data, at, |front|) == Some(front) <==> Holds(data, at, code)
    ensures NumbersAt(data, at, |front| + 1) == Some(front + [last]) <==> Holds(data, at, code + BE(8, last))
  {
    LastNumber(data, at, code, last);
    NumbersSnoc(data, at, front, last);
  }

  lemma LastNumber(data: bytes, at: nat, front: bytes, last: nat)
    requires last < 0x1_0000_0000_0000_0000
    ensures Holds(data, at, front + BE(8, last)) <==>
      Holds(data, at, front) && NumberAt(data, at + |front|) == Some(last)
  {
    HoldsApart(data, at, front, BE(8, last));
    NumberExactly(data, at + |front|, last);
  }

  lemma NumbersSnoc(data: bytes, at: nat, front: seq<nat>, last: nat)
    ensures NumbersAt(data, at, |front| + 1) == Some(front + [last]) <==>
      NumbersAt(data, at, |front|) == Some(front) && NumberAt(data, at + 8 * |front|) == Some(last)
  {
    NumbersLength(data, at, |front|);
    var a, b := NumbersAt(data, at, |front|), NumberAt(data, at + 8 * |front|);
    if a.Some? && b.Some? {
      SnocEqual(a.value, b.value, front, last);
    }
  }

  /** What an entry is read as. */
  lemma EntryShape(data: bytes, at: nat)
    ensures EntryAt(data, at).Some? ==> Shaped(EntryAt(data, at).value)
  {
    var slot := TextAt(data, at);
    if slot.Some? {
      var p := at + 8 + |slot.value|;
      NumbersLength(data, p + 33, 6);
      DigestsLength(data, p + 81, 4);
    }
  }

  /** What stands behind the slot. */
  predicate TailAt(data: bytes, p: nat, e: Entry) {
    && DigestAt(data, p) == Some(e.root) && NumbersAt(data, p + 33, 6) == Some(e.nums)
    && DigestsAt(data, p + 81, 4) == Some(e.children)
  }

  lemma TailExactly(data: bytes, p: nat, e: Entry)
    requires Shaped(e)
    ensures |Tail(e)| == 213 && (Holds(data, p, Tail(e)) <==> TailAt(data, p, e))
  {
    NumbersExactly([], 0, e.nums);
    DigestsExactly([], 0, e.children);
    PartsExactly(data, p, e, Dg(e.root), Numbers(e.nums), Digests(e.children));
  }

  lemma PartsExactly(data: bytes, p: nat, e: Entry, root: bytes, nums: bytes, children: bytes)
    requires Shaped(e) && root == Dg(e.root) && nums == Numbers(e.nums) && children == Digests(e.children)
    requires |nums| == 48 && |children| == 132
    ensures Holds(data, p, root + (nums + children)) <==> TailAt(data, p, e)
  {
    HoldsApart(data, p, root, nums + children);
    HoldsApart(data, p + 33, nums, children);
    DigestExactly(data, p, e.root);
    if p + 81 <= |data| {
      NumbersExactly(data, p + 33, e.nums);
      DigestsExactly(data, p + 81, e.children);
    } else {
      DigestsLength(data, p + 81, 4);
    }
  }

  lemma EntryParts(data: bytes, at: nat, e: Entry)
    ensures EntryAt(data, at) == Some(e) <==> TextAt(data, at) == Some(e.slot) && TailAt(data, at + 8 + |e.slot|, e)
  {
  }

  /** A text and what follows it. */
  lemma TextThen(data: bytes, at: nat, t: bytes, tail: bytes, follows: bool)
    requires |t| <= 65536 && (Holds(data, at + 8 + |t|, tail) <==> follows)
    ensures |Text(t) + tail| == 8 + |t| + |tail|
    ensures Holds(data, at, Text(t) + tail) <==> TextAt(data, at) == Some(t) && follows
  {
    HoldsApart(data, at, Text(t), tail);
    HoldsTextExactly(data, at, t);
    TextExactly(data, at, t);
  }

  /** An entry is read exactly where its bytes stand. */
  lemma EntryExactly(data: bytes, at: nat, e: Entry)
    requires Shaped(e)
    ensures |EntryBytes(e)| == 221 + |e.slot|
    ensures EntryAt(data, at) == Some(e) <==> Holds(data, at, EntryBytes(e))
  {
    TailExactly(data, at + 8 + |e.slot|, e);
    TextThen(data, at, e.slot, Tail(e), TailAt(data, at + 8 + |e.slot|, e));
    EntryParts(data, at, e);
  }

  // ---------------------------------------------------------------- the reader

  datatype Refusal = PageBound | Checksum | Version | Scope | Clock | TickRate | EntryCount | TruncatedField | TextBound
                   | NotSha256 | BadSlot | RangeOrder | DuplicateEntry | DescriptorBound | WindowClosure
                   | DuplicateChild | TrailingBytes | FlatClosure

  class Reader {
    const data: bytes
    var pos: nat

    constructor (data: bytes)
      ensures this.data == data && pos == 0
    {
      this.data, pos := data, 0;
    }

    method Take(count: nat) returns (r: Result<bytes, Refusal>)
      requires pos <= |data|
      modifies this`pos
      ensures r.Ok? <==> old(pos) + count <= |data|
      ensures r.Ok? ==> pos == old(pos) + count && r.value == data[old(pos)..pos]
      ensures pos <= |data|
    {
      if pos + count > |data| {
        return Refused(TruncatedField);
      }
      r := Ok(data[pos..pos + count]);
      pos := pos + count;
    }

    method U64() returns (r: Result<nat, Refusal>)
      requires pos <= |data|
      modifies this`pos
      ensures r.Ok? <==> NumberAt(data, old(pos)).Some?
      ensures r.Ok? ==> pos == old(pos) + 8 && NumberAt(data, old(pos)) == Some(r.value)
      ensures pos <= |data|
    {
      var part := Take(8);
      r := if part.Ok? then Ok(FromBE(part.value)) else Refused(part.why);
    }

    method String() returns (r: Result<bytes, Refusal>)
      requires pos <= |data|
      modifies this`pos
      ensures r.Ok? <==> TextAt(data, old(pos)).Some?
      ensures r.Ok? ==> pos == old(pos) + 8 + |r.value| && TextAt(data, old(pos)) == Some(r.value)
      ensures pos <= |data|
    {
      var size := U64();
      if size.Refused? {
        return Refused(size.why);
      }
      if size.value > 65536 {
        return Refused(TextBound);
      }
      r := Take(size.value);
    }

    method Digest() returns (r: Result<bytes, Refusal>)
      requires pos <= |data|
      modifies this`pos
      ensures r.Ok? <==> DigestAt(data, old(pos)).Some?
      ensures r.Ok? ==> pos == old(pos) + 33 && DigestAt(data, old(pos)) == Some(r.value)
      ensures pos <= |data|
    {
      var tag := Take(1);
      if tag.Refused? {
        return Refused(tag.why);
      }
      assert tag.value == [data[old(pos)]];
      if tag.value != [1] {
        return Refused(NotSha256);
      }
      r := Take(32);
    }

    method Numbers(n: nat) returns (r: Result<seq<nat>, Refusal>)
      requires pos <= |data|
      modifies this`pos
      ensures r.Ok? <==> NumbersAt(data, old(pos), n).Some?
      ensures r.Ok? ==> pos == old(pos) + 8 * n && NumbersAt(data, old(pos), n) == Some(r.value)
      ensures pos <= |data|
    {
      var nums: seq<nat> := [];
      for i := 0 to n
        invariant pos == old(pos) + 8 * i <= |data| && NumbersAt(data, old(pos), i) == Some(nums)
      {
        var x := U64();
        if x.Refused? {
          NumbersStuck(data, old(pos), i + 1, n);
          return Refused(x.why);
        }
        nums := nums + [x.value];
      }
      r := Ok(nums);
    }

    method Digests(n: nat) returns (r: Result<seq<bytes>, Refusal>)
      requires pos <= |data|
      modifies this`pos
      ensures r.Ok? <==> DigestsAt(data, old(pos), n).Some?
      ensures r.Ok? ==> pos == old(pos) + 33 * n && DigestsAt(data, old(pos), n) == Some(r.value)
      ensures pos <= |data|
    {
      var ds: seq<bytes> := [];
      for i := 0 to n
        invariant pos == old(pos) + 33 * i <= |data| && DigestsAt(data, old(pos), i) == Some(ds)
      {
        var d := Digest();
        if d.Refused? {
          DigestsStuck(data, old(pos), i + 1, n);
          return Refused(d.why);
        }
        ds := ds + [d.value];
      }
      r := Ok(ds);
    }

    /** `need(d.string() == want)` and the like, in front of the fixed bytes in `rest`. */
    method ExpectText(want: bytes, ghost rest: bytes) returns (ok: bool)
      requires pos <= |data| && |want| <= 65536
      modifies this`pos
      ensures Holds(data, old(pos), Text(want) + rest) <==> ok && Holds(data, pos, rest)
      ensures ok ==> pos == old(pos) + 8 + |want|
      ensures pos <= |data|
    {
      HoldsApart(data, pos, Text(want), rest);
      HoldsTextExactly(data, pos, want);
      TextExactly(data, pos, want);
      var got := String();
      ok := got == Ok(want);
    }

    method ExpectNumber(want: nat, ghost rest: bytes) returns (ok: bool)
      requires pos <= |data| && want < 0x1_0000_0000_0000_0000
      modifies this`pos
      ensures Holds(data, old(pos), BE(8, want) + rest) <==> ok && Holds(data, pos, rest)
      ensures ok ==> pos == old(pos) + 8
      ensures pos <= |data|
    {
      HoldsApart(data, pos, BE(8, want), rest);
      NumberExactly(data, pos, want);
      var got := U64();
      ok := got == Ok(want);
    }

    method ExpectDigest(want: bytes, ghost rest: bytes) returns (ok: bool)
      requires pos <= |data| && |want| == 32
      modifies this`pos
      ensures Holds(data, old(pos), Dg(want) + rest) <==> ok && Holds(data, pos, rest)
      ensures ok ==> pos == old(pos) + 33
      ensures pos <= |data|
    {
      HoldsApart(data, pos, Dg(want), rest);
      DigestExactly(data, pos, want);
      var got := Digest();
      ok := got == Ok(want);
    }
  }

  lemma {:induction false} NumbersStuck(data: bytes, at: nat, i: nat, n: nat)
    requires i <= n && NumbersAt(data, at, i).None?
    ensures NumbersAt(data, at, n).None?
    decreases n
  {
    if i < n {
      NumbersStuck(data, at, i, n - 1);
    }
  }

  lemma {:induction false} DigestsStuck(data: bytes, at: nat, i: nat, n: nat)
    requires i <= n && DigestsAt(data, at, i).None?
    ensures DigestsAt(data, at, n).None?
    decreases n
  {
    if i < n {
      DigestsStuck(data, at, i, n - 1);
    }
  }
}
