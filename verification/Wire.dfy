/** Parts of a byte string by their position, and the length-prefixed texts that receipts and catalogs share. */
module Wire {
  import opened Bytes

  function Ascii(s: string): (r: bytes)
    ensures |r| == |s|
  {
    seq(|s|, i requires 0 <= i < |s| => s[i] as int % 256)
  }

  function Text(t: bytes): bytes {
    BE(8, |t|) + t
  }

  /** A length-prefixed text stands in `data` from `at` on. */
  predicate HoldsText(data: bytes, at: nat, t: bytes) {
    at + 8 + |t| <= |data| && data[at..at + 8] == BE(8, |t|) && data[at + 8..at + 8 + |t|] == t
  }

  /** `part` stands in `data` from `at` on. */
  predicate Holds(data: bytes, at: nat, part: bytes) {
    at + |part| <= |data| && data[at..at + |part|] == part
  }

  lemma HoldsApart(data: bytes, at: nat, a: bytes, b: bytes)
    ensures Holds(data, at, a + b) <==> Holds(data, at, a) && Holds(data, at + |a|, b)
  {
    if at + |a| + |b| <= |data| {
      var both := data[at..at + |a| + |b|];
      assert both == data[at..at + |a|] + data[at + |a|..at + |a| + |b|];
      assert (a + b)[..|a|] == a && (a + b)[|a|..] == b;
      assert both[..|a|] == data[at..at + |a|] && both[|a|..] == data[at + |a|..at + |a| + |b|];
    }
  }

  lemma WholeIsHeld(data: bytes, part: bytes)
    ensures data == part <==> |data| == |part| && Holds(data, 0, part)
  {
    if |data| == |part| {
      assert data[0..|data|] == data;
    }
  }

  lemma HoldsTextExactly(data: bytes, at: nat, t: bytes)
    ensures Holds(data, at, Text(t)) <==> HoldsText(data, at, t)
  {
    HoldsApart(data, at, BE(8, |t|), t);
  }

  /** The text, within its budget, that the decoder finds at `at`. */
  function TextAt(data: bytes, at: nat): Option<bytes> {
    if at + 8 > |data| then None
    else
      var n := FromBE(data[at..at + 8]);
      if n > 65536 || at + 8 + n > |data| then None else Some(data[at + 8..at + 8 + n])
  }

  lemma TextExactly(data: bytes, at: nat, t: bytes)
    requires |t| <= 65536
    ensures TextAt(data, at) == Some(t) <==> HoldsText(data, at, t)
  {
    Reads64(|t|);
    if at + 8 <= |data| {
      WritesBack(data[at..at + 8]);
    }
  }

  /** The 64-bit number at `at`. */
  function NumberAt(data: bytes, at: nat): Option<nat> {
    if at + 8 <= |data| then Some(FromBE(data[at..at + 8])) else None
  }

  lemma NumberExactly(data: bytes, at: nat, n: nat)
    requires n < 0x1_0000_0000_0000_0000
    ensures NumberAt(data, at) == Some(n) <==> Holds(data, at, BE(8, n))
  {
    Reads64(n);
    if at + 8 <= |data| {
      WritesBack(data[at..at + 8]);
    }
  }
}
