/** Byte strings, the results of operations that may raise, and big-endian integers
    as `struct.pack` and `int.from_bytes` read and write them. */
module Bytes {

  type byte = b: int | 0 <= b < 256
  type bytes = seq<byte>

  datatype Option<+T> = None | Some(value: T)

  /** A value, or the refusal that the original raises in its place. */
  datatype Result<+T, +E> = Ok(value: T) | Refused(why: E)

  /** The low five bits of a NAL or FU header: the NAL unit type. */
  function Kind(b: byte): byte {
    b % 32
  }

  /** Slice NALs: the kinds the packetizers fragment. */
  predicate IsVcl(b: byte) {
    Kind(b) == 1 || Kind(b) == 5
  }

  /** No NAL is empty. */
  predicate NonEmpty(nals: seq<bytes>) {
    forall k :: 0 <= k < |nals| ==> nals[k] != []
  }

  lemma Assoc<T>(a: seq<T>, b: seq<T>, c: seq<T>)
    ensures a + (b + c) == (a + b) + c
  {
  }

  lemma SnocByElements<T>(a: seq<T>, b: seq<T>, x: T)
    requires |a| == |b| + 1 && a[|b|] == x && forall k :: 0 <= k < |b| ==> a[k] == b[k]
    ensures a == b + [x]
  {
  }

  /** A slice of a slice. */
  lemma Inside<T>(data: seq<T>, p: nat, q: nat, a: nat, b: nat)
    requires a <= b && p + b <= q <= |data|
    ensures data[p..q][a..b] == data[p + a..p + b]
  {
    var whole := data[p..q];
    var part, direct := whole[a..b], data[p + a..p + b];
    forall k | 0 <= k < b - a ensures part[k] == direct[k] {
      assert whole[a + k] == data[p + a + k];
    }
  }

  /** `b"".join(parts)` */
  function Join(parts: seq<bytes>): bytes {
    if parts == [] then [] else Join(parts[..|parts| - 1]) + parts[|parts| - 1]
  }

  lemma {:induction false} JoinFirst(parts: seq<bytes>)
    requires parts != []
    ensures Join(parts) == parts[0] + Join(parts[1..])
    decreases |parts|
  {
    var n := |parts| - 1;
    if n > 0 {
      var front := parts[..n];
      JoinFirst(front);
      assert front[1..] == parts[1..][..n - 1];
      Assoc(parts[0], Join(front[1..]), parts[n]);
    }
  }

  const TWO16: int := 0x1_0000
  const TWO31: int := 0x8000_0000
  const TWO32: int := 0x1_0000_0000
  const TWO64: int := 0x1_0000_0000_0000_0000

  function Pow256(width: nat): nat {
    if width == 0 then 1 else 256 * Pow256(width - 1)
  }

  /** `n` in `width` big-endian bytes (low-order bytes only, when it does not fit). */
  function BE(width: nat, n: nat): (r: bytes)
    ensures |r| == width
  {
    if width == 0 then [] else BE(width - 1, n / 256) + [n % 256]
  }

  function FromBE(b: bytes): nat {
    if b == [] then 0 else 256 * FromBE(b[..|b| - 1]) + b[|b| - 1]
  }

  lemma PowValues()
    ensures Pow256(1) == 0x100 && Pow256(2) == 0x1_0000
    ensures Pow256(4) == 0x1_0000_0000 && Pow256(8) == 0x1_0000_0000_0000_0000
  {
    assert Pow256(3) == 256 * Pow256(2);
    assert Pow256(4) == 256 * Pow256(3);
    assert Pow256(5) == 256 * Pow256(4);
    assert Pow256(6) == 256 * Pow256(5);
    assert Pow256(7) == 256 * Pow256(6);
  }

  lemma {:induction false} ReadsBack(width: nat, n: nat)
    requires n < Pow256(width)
    ensures FromBE(BE(width, n)) == n
  {
    if width > 0 {
      ReadsBack(width - 1, n / 256);
      assert BE(width, n)[..width - 1] == BE(width - 1, n / 256);
    }
  }

  lemma {:induction false} WritesBack(b: bytes)
    ensures FromBE(b) < Pow256(|b|)
    ensures BE(|b|, FromBE(b)) == b
  {
    if b != [] {
      WritesBack(b[..|b| - 1]);
      assert b == b[..|b| - 1] + [b[|b| - 1]];
    }
  }

  // Unsigned 16-, 32- and 64-bit fields read back as written.

  lemma Reads16(n: nat)
    requires n < 0x1_0000
    ensures FromBE(BE(2, n)) == n
  {
    PowValues();
    ReadsBack(2, n);
  }

  lemma Reads32(n: nat)
    requires n < 0x1_0000_0000
    ensures FromBE(BE(4, n)) == n
  {
    PowValues();
    ReadsBack(4, n);
  }

  lemma Reads64(n: nat)
    requires n < 0x1_0000_0000_0000_0000
    ensures FromBE(BE(8, n)) == n
  {
    PowValues();
    ReadsBack(8, n);
  }
}
